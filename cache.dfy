/**
 * The cache orchestration of `updateSkinCache` and `resolveCollisions` over
 * the `file` table.
 *
 * The table is a value `Table` (rows by uuid plus the order in which the
 * store scans them) for the specification functions, and the class
 * `FileStore` holds it as fields that its methods update in place. Each
 * method is proved against the function that specifies it; the lemmas about
 * those functions state what the engine promises.
 */
module Cache {
  import opened Types
  import opened Identity

  /** The `file` table: rows keyed by uuid, and the scan order of the keys. */
  datatype Table = Table(rows: map<string, Record>, order: seq<string>)

  /** Each row is stored under its own uuid, and the scan order lists every key once. */
  ghost predicate WellFormed(t: Table) {
    && (forall k :: k in t.rows ==> t.rows[k].uuid == k)
    && (forall k :: k in t.rows <==> k in t.order)
    && (forall i, j :: 0 <= i < j < |t.order| ==> t.order[i] != t.order[j])
  }

  /** `nickname` is the lower-case form of `default_nick` in every row. */
  ghost predicate NicknamesLower(t: Table) {
    forall k :: k in t.rows ==> t.rows[k].nickname == Lower(t.rows[k].defaultNick)
  }

  /** A row is served from the cache while `expires > time.time()`. */
  predicate IsFresh(r: Record, now: real) {
    r.expires as real > now
  }

  /** `int(time.time() + ttl)`. */
  function Expiry(now: real): int {
    Trunc(now + TTL as real)
  }

  /** The fields a name update leaves alone. */
  predicate SamePayload(a: Record, b: Record) {
    a.uuid == b.uuid && a.expires == b.expires && a.data == b.data
    && a.dataCape == b.dataCape && a.dataHead == b.dataHead && a.valid == b.valid
  }

  /** `update(data={"default_nick": name, "nickname": name.lower()})` on one row. */
  function Rename(r: Record, name: string): (r': Record)
    ensures SamePayload(r, r')
    ensures r'.defaultNick == name && r'.nickname == Lower(name)
  {
    r.(defaultNick := name, nickname := Lower(name))
  }

  // ---------------------------------------------------------------------
  // find_many(where={"default_nick": name})
  // ---------------------------------------------------------------------

  /** The rows with `default_nick == name`, in the scan order of `keys`. */
  function NamedIn(rows: map<string, Record>, keys: seq<string>, name: string): (found: seq<Record>)
    requires forall k :: k in keys ==> k in rows && rows[k].uuid == k
    ensures forall r :: r in found ==> r.defaultNick == name && r.uuid in keys && rows[r.uuid] == r
    ensures forall k :: k in keys && rows[k].defaultNick == name ==> rows[k] in found
    ensures |found| <= |keys|
    decreases |keys|
  {
    if keys == [] then []
    else
      var last := keys[|keys| - 1];
      var init := keys[..|keys| - 1];
      assert forall k :: k in keys ==> k in init || k == last;
      NamedIn(rows, init, name) + (if rows[last].defaultNick == name then [rows[last]] else [])
  }

  function Named(t: Table, name: string): seq<Record>
    requires WellFormed(t)
  {
    NamedIn(t.rows, t.order, name)
  }

  /** The keys among `keys` whose row carries `name`. */
  ghost function NamedKeys(rows: map<string, Record>, keys: seq<string>, name: string): set<string>
    requires forall k :: k in keys ==> k in rows
  {
    set k | k in keys && rows[k].defaultNick == name
  }

  /** The named keys of a non-empty key sequence: those of all but its last, plus the last when it is named. */
  lemma NamedKeysSnoc(rows: map<string, Record>, keys: seq<string>, name: string)
    requires keys != [] && forall k :: k in keys ==> k in rows
    ensures var last := keys[|keys| - 1];
      NamedKeys(rows, keys, name) == NamedKeys(rows, keys[..|keys| - 1], name)
        + (if rows[last].defaultNick == name then {last} else {})
  {
    assert forall k :: k in keys <==> k in keys[..|keys| - 1] || k == keys[|keys| - 1];
  }

  /** Over distinct keys, `find_many` returns one row per key whose row carries the name. */
  lemma {:induction false} NamedInCount(rows: map<string, Record>, keys: seq<string>, name: string)
    requires forall k :: k in keys ==> k in rows && rows[k].uuid == k
    requires forall i, j :: 0 <= i < j < |keys| ==> keys[i] != keys[j]
    ensures |NamedIn(rows, keys, name)| == |NamedKeys(rows, keys, name)|
    decreases |keys|
  {
    if keys == [] {
      assert NamedKeys(rows, keys, name) == {};
    } else {
      var last := keys[|keys| - 1];
      var init := keys[..|keys| - 1];
      assert forall k :: k in init ==> k in keys;
      NamedInCount(rows, init, name);
      NamedKeysSnoc(rows, keys, name);
      assert forall i :: 0 <= i < |init| ==> init[i] == keys[i];
      assert last !in NamedKeys(rows, init, name);
    }
  }

  /** `find_many(where={"default_nick": name})` returns each row carrying the name exactly once. */
  lemma NamedCount(t: Table, name: string)
    requires WellFormed(t)
    ensures |Named(t, name)| == |set k | k in t.rows && t.rows[k].defaultNick == name|
  {
    NamedInCount(t.rows, t.order, name);
    assert NamedKeys(t.rows, t.order, name) == set k | k in t.rows && t.rows[k].defaultNick == name;
  }

  // ---------------------------------------------------------------------
  // resolveCollisions
  // ---------------------------------------------------------------------

  /**
   * One iteration of `resolveCollisions`: re-resolve the record's uuid and
   * rename the row of the returned id. None when the iteration raises, which
   * is when the uuid no longer resolves (the not-found branch reads
   * `data["id"]` of None before it can delete anything). An update whose
   * `where` matches no row returns None without raising, so the table is then
   * left as it was and the pass goes on.
   */
  function RepairOne(t: Table, r: Record, up: Upstream): (o: Option<Table>)
    ensures o.Some? <==> GetUserData(up, r.uuid).Some?
    ensures o.Some? ==> o.value.order == t.order && o.value.rows.Keys == t.rows.Keys
    ensures o.Some? && GetUserData(up, r.uuid).value.id !in t.rows ==> o.value == t
    ensures o.Some? ==> forall k :: k in t.rows && k != GetUserData(up, r.uuid).value.id ==> o.value.rows[k] == t.rows[k]
  {
    match GetUserData(up, r.uuid)
    case None => None
    case Some(p) =>
      if p.id in t.rows then Some(Table(t.rows[p.id := Rename(t.rows[p.id], p.name)], t.order))
      else Some(t)
  }

  /** The outcome of a collision pass: it went through every record, or it raised. */
  datatype Pass = Repaired(table: Table) | Aborted(table: Table)

  /**
   * `resolveCollisions(records)`: repair the records in order; the first
   * iteration that raises ends the pass with the earlier repairs kept. No
   * row is added or removed, and no row's uuid, expiry, payloads or `valid`
   * flag changes.
   */
  function ResolveAll(t: Table, records: seq<Record>, up: Upstream): (pass: Pass)
    ensures pass.table.order == t.order && pass.table.rows.Keys == t.rows.Keys
    ensures forall k :: k in t.rows ==> SamePayload(t.rows[k], pass.table.rows[k])
    decreases |records|
  {
    if records == [] then Repaired(t)
    else
      match RepairOne(t, records[0], up)
      case None => Aborted(t)
      case Some(t') => ResolveAll(t', records[1..], up)
  }

  /** The collision step of `updateSkinCache`: a pass runs only when more than one row has the name. */
  function Collide(t: Table, name: string, up: Upstream): (pass: Pass)
    requires WellFormed(t)
    ensures pass.table.order == t.order && pass.table.rows.Keys == t.rows.Keys
    ensures |Named(t, name)| <= 1 ==> pass == Repaired(t)
  {
    var nicks := Named(t, name);
    if |nicks| > 1 then ResolveAll(t, nicks, up) else Repaired(t)
  }

  /** The collision step raises exactly when it runs a pass and one of the named rows' uuids no longer resolves. */
  lemma CollideRaises(t: Table, name: string, up: Upstream)
    requires WellFormed(t)
    ensures Collide(t, name, up).Aborted? <==>
      |Named(t, name)| > 1 && exists i :: 0 <= i < |Named(t, name)| && GetUserData(up, Named(t, name)[i].uuid).None?
  {
    PassCompletes(t, Named(t, name), up);
  }

  // ---------------------------------------------------------------------
  // updateSkinCache
  // ---------------------------------------------------------------------

  /** The flags of a skin request: the cape envelope, and the `Cache-Control: no-cache` bypass. */
  datatype Request = Request(nickname: string, cape: bool, ignoreCache: bool)

  /** What `updateSkinCache` answers. */
  datatype Reply =
    | ProfileNotFound                        // 404 {"status": "error", "message": "Profile not found"}
    | SkinPng(skin: Bytes)                   // 200, the raw skin as image/png
    | SkinEnvelope(skin: Bytes, cape: Bytes) // 200 {"status": "success", "data": {"skin", "cape"}}
    | UnhandledError                         // 500 {"status": "error", "message": "unhandled error"}
    | Crash                                  // an exception escapes the handler

  function StatusCode(reply: Reply): (code: int)
    ensures code == 200 <==> reply.SkinPng? || reply.SkinEnvelope?
    ensures code == 404 <==> reply.ProfileNotFound?
  {
    match reply
    case ProfileNotFound => 404
    case SkinPng(_) => 200
    case SkinEnvelope(_, _) => 200
    case UnhandledError => 500
    case Crash => 500
  }

  function Deliver(cape: bool, skin: Bytes, capeBytes: Bytes): (reply: Reply)
    ensures !cape ==> reply == SkinPng(skin)
    ensures cape ==> reply == SkinEnvelope(skin, capeBytes)
  {
    if cape then SkinEnvelope(skin, capeBytes) else SkinPng(skin)
  }

  datatype Served = Served(reply: Reply, table: Table)

  /** The payloads one refresh writes. */
  datatype Fetched = Fetched(skin: Bytes, cape: Bytes, head: Bytes)

  /**
   * The `try` block's fetches: the skin from the SKIN URL, the head rendered
   * from it, and the cape from the CAPE URL when the texture map has one.
   * None when any of them raises (no SKIN entry, a failed GET, an image that
   * cannot be opened).
   */
  function Refetch(p: Profile, up: Upstream, render: Bytes -> Option<Bytes>): (f: Option<Fetched>)
    ensures f.Some? ==> "SKIN" in p.textures && p.textures["SKIN"] in up.files
    ensures f.Some? ==> f.value.skin == up.files[p.textures["SKIN"]] && render(f.value.skin) == Some(f.value.head)
    ensures f.Some? && "CAPE" !in p.textures ==> f.value.cape == []
    ensures f.Some? && "CAPE" in p.textures ==>
      p.textures["CAPE"] in up.files && f.value.cape == up.files[p.textures["CAPE"]]
    ensures f.None? <==>
      || "SKIN" !in p.textures || p.textures["SKIN"] !in up.files
      || render(up.files[p.textures["SKIN"]]).None?
      || ("CAPE" in p.textures && p.textures["CAPE"] !in up.files)
  {
    if "SKIN" !in p.textures || p.textures["SKIN"] !in up.files then None
    else
      var skin := up.files[p.textures["SKIN"]];
      match render(skin)
      case None => None
      case Some(head) =>
        if "CAPE" !in p.textures then Some(Fetched(skin, [], head))
        else if p.textures["CAPE"] in up.files then Some(Fetched(skin, up.files[p.textures["CAPE"]], head))
        else None
  }

  /** The upsert's `create` data: `valid` is not written, so the column default, true, applies. */
  function CreateRow(p: Profile, f: Fetched, now: real): (r: Record)
    ensures r.uuid == p.id && r.valid
  {
    Record(p.id, Lower(p.name), p.name, Expiry(now), f.skin, f.cape, f.head, true)
  }

  /** The upsert's `update` data, written over an existing row: `uuid` and `valid` are not in it. */
  function UpdateRow(row: Record, p: Profile, f: Fetched, now: real): (r: Record)
    ensures r.uuid == row.uuid && r.valid == row.valid
  {
    row.(nickname := Lower(p.name), defaultNick := p.name, expires := Expiry(now),
         data := f.skin, dataCape := f.cape, dataHead := f.head)
  }

  /**
   * The row the upsert leaves. Its two branches agree: whichever runs, the
   * row is the `create` row, except that an updated row keeps its `valid`.
   */
  function Written(t: Table, p: Profile, f: Fetched, now: real): (r: Record)
    requires WellFormed(t)
    ensures r == CreateRow(p, f, now).(valid := if p.id in t.rows then t.rows[p.id].valid else true)
  {
    if p.id in t.rows then UpdateRow(t.rows[p.id], p, f, now) else CreateRow(p, f, now)
  }

  /** `upsert(where={"uuid": r.uuid})`: replace the row in place, or append a new one. */
  function Upsert(t: Table, r: Record): (t': Table)
    requires WellFormed(t)
    ensures WellFormed(t')
    ensures t'.rows == t.rows[r.uuid := r]
  {
    Table(t.rows[r.uuid := r], if r.uuid in t.rows then t.order else t.order + [r.uuid])
  }

  /**
   * A fresh hit: the stored bytes are served and no payload is fetched; when
   * the stored display name differs from the resolved one, the row's two
   * name fields are patched and nothing else changes.
   */
  function FreshHit(t: Table, p: Profile, cape: bool): (s: Served)
    requires WellFormed(t) && p.id in t.rows
    ensures s.reply == Deliver(cape, t.rows[p.id].data, t.rows[p.id].dataCape)
    ensures s.table.order == t.order && s.table.rows.Keys == t.rows.Keys
    ensures forall k :: k in t.rows && k != p.id ==> s.table.rows[k] == t.rows[k]
    ensures SamePayload(t.rows[p.id], s.table.rows[p.id])
    ensures s.table.rows[p.id].defaultNick == p.name
    ensures t.rows[p.id].defaultNick != p.name ==> s.table.rows[p.id].nickname == Lower(p.name)
    ensures t.rows[p.id].defaultNick == p.name ==> s.table == t
  {
    var row := t.rows[p.id];
    var t' := if row.defaultNick != p.name then Table(t.rows[p.id := Rename(row, p.name)], t.order) else t;
    Served(Deliver(cape, row.data, row.dataCape), t')
  }

  /**
   * A miss, an expired row or a bypass: fetch, then upsert. A failed fetch
   * answers 500 and writes nothing; otherwise exactly the resolved uuid's
   * row is replaced, with every field rewritten and `expires = int(now + ttl)`,
   * and the fetched skin is served.
   */
  function Refresh(t: Table, p: Profile, cape: bool, now: real, up: Upstream,
                   render: Bytes -> Option<Bytes>): (s: Served)
    requires WellFormed(t)
    ensures Refetch(p, up, render).None? ==> s == Served(UnhandledError, t)
    ensures Refetch(p, up, render).Some? ==>
      var f := Refetch(p, up, render).value;
      && s.reply == Deliver(cape, f.skin, f.cape)
      && s.table.rows.Keys == t.rows.Keys + {p.id}
      && (forall k :: k in t.rows && k != p.id ==> s.table.rows[k] == t.rows[k])
      && s.table.rows[p.id].uuid == p.id
      && s.table.rows[p.id].defaultNick == p.name
      && s.table.rows[p.id].nickname == Lower(p.name)
      && s.table.rows[p.id].expires == Trunc(now + 10800.0)
      && s.table.rows[p.id].data == f.skin
      && s.table.rows[p.id].dataCape == f.cape
      && s.table.rows[p.id].dataHead == f.head
  {
    match Refetch(p, up, render)
    case None => Served(UnhandledError, t)
    case Some(f) => Served(Deliver(cape, f.skin, f.cape), Upsert(t, Written(t, p, f, now)))
  }

  /**
   * `updateSkinCache(nickname, cape, ignore_cache)` at time `now`: resolve;
   * repair collisions on the resolved name; then serve a fresh hit or
   * refresh the row. The one `now` stands for every clock reading of the
   * request, the freshness test's and the written expiry's alike.
   */
  function Serve(t: Table, req: Request, now: real, up: Upstream,
                 render: Bytes -> Option<Bytes>): (s: Served)
    requires WellFormed(t)
    ensures WellFormed(s.table)
    ensures t.rows.Keys <= s.table.rows.Keys
  {
    match GetUserData(up, req.nickname)
    case None => Served(ProfileNotFound, t)
    case Some(p) =>
      var pass := Collide(t, p.name, up);
      assert WellFormed(pass.table) by { SameKeysWellFormed(t, pass.table); }
      if pass.Aborted? then Served(Crash, pass.table)
      else
        var t1 := pass.table;
        if p.id in t1.rows && IsFresh(t1.rows[p.id], now) && !req.ignoreCache then
          var s := FreshHit(t1, p, req.cape);
          SameKeysWellFormed(t1, s.table);
          s
        else
          Refresh(t1, p, req.cape, now, up, render)
  }

  /** Keeping the keys, the scan order and every uuid keeps a table well formed. */
  lemma SameKeysWellFormed(t: Table, t': Table)
    requires WellFormed(t)
    requires t'.order == t.order && t'.rows.Keys == t.rows.Keys
    requires forall k :: k in t.rows ==> t'.rows[k].uuid == t.rows[k].uuid
    ensures WellFormed(t')
  {
  }

  // ---------------------------------------------------------------------
  // What the collision pass promises
  // ---------------------------------------------------------------------

  /** The id a record re-resolves to, if any. */
  function ResolvedId(up: Upstream, r: Record): Option<string> {
    match GetUserData(up, r.uuid)
    case None => None
    case Some(p) => Some(p.id)
  }

  /** Some record of `rs` re-resolves to `k`. */
  ghost predicate Targeted(rs: seq<Record>, up: Upstream, k: string) {
    exists i :: 0 <= i < |rs| && ResolvedId(up, rs[i]) == Some(k)
  }

  /** The identity service reports one name per account id. */
  ghost predicate Coherent(up: Upstream) {
    forall k1, k2 :: k1 in up.profiles && k2 in up.profiles && up.profiles[k1].id == up.profiles[k2].id ==>
      up.profiles[k1].name == up.profiles[k2].name
  }

  /** No two accounts of the identity service share a name. */
  ghost predicate UniqueNames(up: Upstream) {
    forall k1, k2 :: k1 in up.profiles && k2 in up.profiles && up.profiles[k1].name == up.profiles[k2].name ==>
      up.profiles[k1].id == up.profiles[k2].id
  }

  /** Every record of `rs` that still resolves comes back with its own uuid. */
  ghost predicate SelfResolving(rs: seq<Record>, up: Upstream) {
    forall i :: 0 <= i < |rs| && GetUserData(up, rs[i].uuid).Some? ==> GetUserData(up, rs[i].uuid).value.id == rs[i].uuid
  }

  lemma ResolvedFromProfiles(up: Upstream, s: string)
    requires GetUserData(up, s).Some?
    ensures exists k :: k in up.profiles && up.profiles[k] == GetUserData(up, s).value
  {
    if MatchesIdPattern(s) {
      assert s in up.profiles;
    } else {
      assert up.handles[s] in up.profiles;
    }
  }

  /** Under a coherent service two inputs resolving to one id resolve to one name. */
  lemma CoherentNames(up: Upstream, s1: string, s2: string)
    requires Coherent(up)
    requires GetUserData(up, s1).Some? && GetUserData(up, s2).Some?
    requires GetUserData(up, s1).value.id == GetUserData(up, s2).value.id
    ensures GetUserData(up, s1).value.name == GetUserData(up, s2).value.name
  {
    ResolvedFromProfiles(up, s1);
    ResolvedFromProfiles(up, s2);
  }

  /**
   * The record re-resolves, and when `t` has a row for its id, `a` holds
   * that row renamed to the resolved name.
   */
  ghost predicate RenamedIn(t: Table, a: Table, up: Upstream, r: Record) {
    GetUserData(up, r.uuid).Some? &&
    var p := GetUserData(up, r.uuid).value;
    p.id in t.rows ==> p.id in a.rows && a.rows[p.id] == Rename(t.rows[p.id], p.name)
  }

  /** Every row of `t` that no record of `rs` resolves to is the same in `a`. */
  ghost predicate UntouchedIn(t: Table, a: Table, up: Upstream, rs: seq<Record>) {
    forall k :: k in t.rows && !Targeted(rs, up, k) ==> k in a.rows && a.rows[k] == t.rows[k]
  }

  /** A rename seen from after one earlier repair is a rename seen from before it. */
  lemma RenamedThroughRepair(t: Table, q: Record, a: Table, up: Upstream, r: Record)
    requires Coherent(up)
    requires RepairOne(t, q, up).Some?
    requires RenamedIn(RepairOne(t, q, up).value, a, up, r)
    ensures RenamedIn(t, a, up, r)
  {
    var pq := GetUserData(up, q.uuid).value;
    var p := GetUserData(up, r.uuid).value;
    if p.id == pq.id {
      CoherentNames(up, r.uuid, q.uuid);
    }
  }

  /** The first record's repair survives the rest of a completed pass. */
  lemma HeadRenamed(t: Table, q: Record, rest: seq<Record>, up: Upstream)
    requires Coherent(up)
    requires RepairOne(t, q, up).Some?
    requires var t' := RepairOne(t, q, up).value;
      forall i :: 0 <= i < |rest| ==> RenamedIn(t', ResolveAll(t', rest, up).table, up, rest[i])
    ensures RenamedIn(t, ResolveAll(RepairOne(t, q, up).value, rest, up).table, up, q)
  {
    var t' := RepairOne(t, q, up).value;
    var a := ResolveAll(t', rest, up).table;
    ResolveAllUntouched(t', rest, up);
    var pq := GetUserData(up, q.uuid).value;
    if Targeted(rest, up, pq.id) {
      var j :| 0 <= j < |rest| && ResolvedId(up, rest[j]) == Some(pq.id);
      RenamedThroughRepair(t, q, a, up, rest[j]);
      CoherentNames(up, rest[j].uuid, q.uuid);
    }
  }

  /**
   * A pass that completes has re-resolved every record, and under a coherent
   * service the row of each resolved id, where there is one, carries that
   * id's current name, with its payload as before.
   */
  lemma {:induction false} ResolveAllRenames(t: Table, rs: seq<Record>, up: Upstream)
    requires Coherent(up)
    requires ResolveAll(t, rs, up).Repaired?
    ensures forall i :: 0 <= i < |rs| ==> RenamedIn(t, ResolveAll(t, rs, up).table, up, rs[i])
    decreases |rs|
  {
    if rs != [] {
      var q := rs[0];
      var t' := RepairOne(t, q, up).value;
      var a := ResolveAll(t, rs, up).table;
      assert ResolveAll(t, rs, up) == ResolveAll(t', rs[1..], up);
      ResolveAllRenames(t', rs[1..], up);
      HeadRenamed(t, q, rs[1..], up);
      forall i | 1 <= i < |rs|
        ensures RenamedIn(t, a, up, rs[i])
      {
        assert rs[1..][i - 1] == rs[i];
        RenamedThroughRepair(t, q, a, up, rs[i]);
      }
    }
  }

  /** A pass leaves every row that no record resolves to as it was. */
  lemma {:induction false} ResolveAllUntouched(t: Table, rs: seq<Record>, up: Upstream)
    ensures UntouchedIn(t, ResolveAll(t, rs, up).table, up, rs)
    decreases |rs|
  {
    if rs != [] && RepairOne(t, rs[0], up).Some? {
      var t' := RepairOne(t, rs[0], up).value;
      var a := ResolveAll(t, rs, up).table;
      assert ResolveAll(t, rs, up) == ResolveAll(t', rs[1..], up);
      ResolveAllUntouched(t', rs[1..], up);
      forall k | k in t.rows && !Targeted(rs, up, k)
        ensures k in a.rows && a.rows[k] == t.rows[k]
      {
        assert ResolvedId(up, rs[0]) != Some(k);
        forall j | 0 <= j < |rs[1..]|
          ensures ResolvedId(up, rs[1..][j]) != Some(k)
        {
          assert rs[1..][j] == rs[j + 1];
        }
      }
    }
  }

  /**
   * A pass completes exactly when every record still resolves: whether it
   * completes does not depend on the table.
   */
  lemma {:induction false} PassCompletes(t: Table, rs: seq<Record>, up: Upstream)
    ensures ResolveAll(t, rs, up).Repaired? <==> forall i :: 0 <= i < |rs| ==> GetUserData(up, rs[i].uuid).Some?
    decreases |rs|
  {
    if rs != [] && RepairOne(t, rs[0], up).Some? {
      PassCompletes(RepairOne(t, rs[0], up).value, rs[1..], up);
      assert forall i :: 1 <= i < |rs| ==> rs[1..][i - 1] == rs[i];
    }
  }

  /** Running one more record after a pass is repairing it after the pass. */
  lemma {:induction false} ResolveAllSnoc(t: Table, rs: seq<Record>, r: Record, up: Upstream)
    ensures ResolveAll(t, rs + [r], up) ==
      match ResolveAll(t, rs, up)
      case Aborted(x) => Aborted(x)
      case Repaired(a) => (match RepairOne(a, r, up) case None => Aborted(a) case Some(a') => Repaired(a'))
    decreases |rs|
  {
    if rs == [] {
      assert [r][1..] == [];
    } else {
      assert (rs + [r])[0] == rs[0] && (rs + [r])[1..] == rs[1..] + [r];
      if RepairOne(t, rs[0], up).Some? {
        ResolveAllSnoc(RepairOne(t, rs[0], up).value, rs[1..], r, up);
      }
    }
  }

  /** Repairing a record a second time, by itself or after another one, changes nothing more. */
  lemma RepairTwice(s: Table, r: Record, q: Record, up: Upstream)
    requires RepairOne(s, r, up).Some?
    requires ResolvedId(up, q) == ResolvedId(up, r)
    ensures RepairOne(RepairOne(s, r, up).value, q, up) == RepairOne(s, q, up)
  {
    var p := GetUserData(up, r.uuid).value;
    var pq := GetUserData(up, q.uuid).value;
    var m := s.rows;
    if p.id in m {
      assert m[p.id := Rename(m[p.id], p.name)][p.id := Rename(Rename(m[p.id], p.name), pq.name)]
          == m[p.id := Rename(m[p.id], pq.name)];
    }
  }

  /** Repairs of records resolving to different ids commute. */
  lemma RepairCommutes(s: Table, r: Record, q: Record, up: Upstream)
    requires RepairOne(s, r, up).Some? && RepairOne(s, q, up).Some?
    requires ResolvedId(up, q) != ResolvedId(up, r)
    ensures RepairOne(RepairOne(s, r, up).value, q, up) == RepairOne(RepairOne(s, q, up).value, r, up)
  {
    var p := GetUserData(up, r.uuid).value;
    var pq := GetUserData(up, q.uuid).value;
    var m := s.rows;
    if p.id in m && pq.id in m {
      assert m[p.id := Rename(m[p.id], p.name)][pq.id := Rename(m[pq.id], pq.name)]
          == m[pq.id := Rename(m[pq.id], pq.name)][p.id := Rename(m[p.id], p.name)];
    }
  }

  /** A repair made before a pass is overwritten by the same repair made after it. */
  lemma {:induction false} RepairAbsorbed(s: Table, r: Record, rs: seq<Record>, up: Upstream)
    requires RepairOne(s, r, up).Some?
    requires ResolveAll(RepairOne(s, r, up).value, rs, up).Repaired?
    ensures ResolveAll(s, rs, up).Repaired?
    ensures RepairOne(ResolveAll(RepairOne(s, r, up).value, rs, up).table, r, up)
         == RepairOne(ResolveAll(s, rs, up).table, r, up)
    decreases |rs|
  {
    var sr := RepairOne(s, r, up).value;
    PassCompletes(sr, rs, up);
    PassCompletes(s, rs, up);
    if rs == [] {
      RepairTwice(s, r, r, up);
    } else {
      var q := rs[0];
      assert RepairOne(sr, q, up).Some?;
      assert RepairOne(s, q, up).Some?;
      if ResolvedId(up, q) == ResolvedId(up, r) {
        RepairTwice(s, r, q, up);
      } else {
        RepairCommutes(s, r, q, up);
        var sq := RepairOne(s, q, up).value;
        RepairAbsorbed(sq, r, rs[1..], up);
      }
    }
  }

  /** Running a completed pass again on its own result changes nothing. */
  lemma {:induction false} ResolveAllIdempotent(t: Table, rs: seq<Record>, up: Upstream)
    requires ResolveAll(t, rs, up).Repaired?
    ensures ResolveAll(ResolveAll(t, rs, up).table, rs, up) == ResolveAll(t, rs, up)
    decreases |rs|
  {
    if rs != [] {
      var init := rs[..|rs| - 1];
      var r := rs[|rs| - 1];
      assert rs == init + [r];
      ResolveAllSnoc(t, init, r, up);
      var a := ResolveAll(t, init, up).table;
      var a' := RepairOne(a, r, up).value;
      ResolveAllIdempotent(t, init, up);
      PassCompletes(a', init, up);
      PassCompletes(t, init, up);
      RepairAbsorbed(a, r, init, up);
      ResolveAllSnoc(a', init, r, up);
    }
  }

  lemma TwoDistinctInSeq<T>(s: seq<T>, x: T, y: T)
    requires x in s && y in s && x != y
    ensures |s| >= 2
  {
  }

  /** With at most one row of that name, there is nothing to repair: at most one row holds it. */
  lemma FewNamedOneOwner(t: Table, name: string, k1: string, k2: string)
    requires WellFormed(t) && |Named(t, name)| <= 1
    requires k1 in t.rows && k2 in t.rows && t.rows[k1].defaultNick == name && t.rows[k2].defaultNick == name
    ensures k1 == k2
  {
    if k1 != k2 {
      TwoDistinctInSeq(Named(t, name), t.rows[k1], t.rows[k2]);
    }
  }

  /** After a completed pass, a row holding the name is the row of a record resolving to it. */
  lemma NamedAfterPass(t: Table, name: string, up: Upstream, k: string) returns (i: nat)
    requires WellFormed(t) && Coherent(up)
    requires SelfResolving(Named(t, name), up)
    requires ResolveAll(t, Named(t, name), up).Repaired?
    requires var a := ResolveAll(t, Named(t, name), up).table;
      k in a.rows && a.rows[k].defaultNick == name
    ensures i < |Named(t, name)|
    ensures GetUserData(up, Named(t, name)[i].uuid).Some?
    ensures GetUserData(up, Named(t, name)[i].uuid).value.id == k
    ensures GetUserData(up, Named(t, name)[i].uuid).value.name == name
  {
    var rs := Named(t, name);
    var a := ResolveAll(t, rs, up).table;
    ResolveAllRenames(t, rs, up);
    ResolveAllUntouched(t, rs, up);
    assert Targeted(rs, up, k);
    i :| 0 <= i < |rs| && ResolvedId(up, rs[i]) == Some(k);
    assert RenamedIn(t, a, up, rs[i]);
  }

  /** Under unique names, two inputs resolving to one name resolve to one id. */
  lemma UniqueNamesSameId(up: Upstream, s1: string, s2: string)
    requires UniqueNames(up)
    requires GetUserData(up, s1).Some? && GetUserData(up, s2).Some?
    requires GetUserData(up, s1).value.name == GetUserData(up, s2).value.name
    ensures GetUserData(up, s1).value.id == GetUserData(up, s2).value.id
  {
    ResolvedFromProfiles(up, s1);
    ResolvedFromProfiles(up, s2);
  }

  /**
   * After the collision step completes, at most one row keeps the colliding
   * name, when the service is coherent, names are unique upstream and every
   * colliding row's uuid re-resolves to itself.
   */
  lemma CollisionsLeaveOneOwner(t: Table, name: string, up: Upstream)
    requires WellFormed(t) && Coherent(up) && UniqueNames(up)
    requires SelfResolving(Named(t, name), up)
    requires Collide(t, name, up).Repaired?
    ensures var a := Collide(t, name, up).table;
      forall k1, k2 :: k1 in a.rows && k2 in a.rows && a.rows[k1].defaultNick == name && a.rows[k2].defaultNick == name ==> k1 == k2
  {
    var rs := Named(t, name);
    var a := Collide(t, name, up).table;
    forall k1, k2 | k1 in a.rows && k2 in a.rows && a.rows[k1].defaultNick == name && a.rows[k2].defaultNick == name
      ensures k1 == k2
    {
      if |rs| <= 1 {
        FewNamedOneOwner(t, name, k1, k2);
      } else {
        var i := NamedAfterPass(t, name, up, k1);
        var j := NamedAfterPass(t, name, up, k2);
        UniqueNamesSameId(up, rs[i].uuid, rs[j].uuid);
      }
    }
  }

  // ---------------------------------------------------------------------
  // What a request promises
  // ---------------------------------------------------------------------

  /** An identifier that does not resolve answers 404 and leaves the store as it was. */
  lemma NotFoundLeavesStore(t: Table, req: Request, now: real, up: Upstream, render: Bytes -> Option<Bytes>)
    requires WellFormed(t)
    requires GetUserData(up, req.nickname).None?
    ensures Serve(t, req, now, up, render) == Served(ProfileNotFound, t)
    ensures StatusCode(Serve(t, req, now, up, render).reply) == 404
  {
  }

  /**
   * The status of every answer: 404 exactly when the identifier does not
   * resolve; an escaping exception exactly when the collision pass raises;
   * a 500 of the handler only when a fetch failed; 200 only with a skin.
   */
  lemma ServeStatus(t: Table, req: Request, now: real, up: Upstream, render: Bytes -> Option<Bytes>)
    requires WellFormed(t)
    ensures var s := Serve(t, req, now, up, render);
      var d := GetUserData(up, req.nickname);
      && (StatusCode(s.reply) == 404 <==> d.None?)
      && (s.reply.Crash? <==> d.Some? && Collide(t, d.value.name, up).Aborted?)
      && (s.reply.UnhandledError? ==> d.Some? && Refetch(d.value, up, render).None?)
      && (StatusCode(s.reply) == 200 ==> d.Some? && d.value.id in s.table.rows)
  {
    if GetUserData(up, req.nickname).Some? {
      ServeUnfold(t, req, now, up, render, GetUserData(up, req.nickname).value);
    }
  }

  /** A pass keeps `nickname` the lower-case form of `default_nick`. */
  lemma {:induction false} ResolveAllKeepsNicknames(t: Table, rs: seq<Record>, up: Upstream)
    requires NicknamesLower(t)
    ensures NicknamesLower(ResolveAll(t, rs, up).table)
    decreases |rs|
  {
    if rs != [] && RepairOne(t, rs[0], up).Some? {
      ResolveAllKeepsNicknames(RepairOne(t, rs[0], up).value, rs[1..], up);
    }
  }

  /** The three ways a resolved request goes, one function each. */
  lemma ServeUnfold(t: Table, req: Request, now: real, up: Upstream, render: Bytes -> Option<Bytes>, p: Profile)
    requires WellFormed(t)
    requires GetUserData(up, req.nickname) == Some(p)
    ensures WellFormed(Collide(t, p.name, up).table)
    ensures var pass := Collide(t, p.name, up);
      Serve(t, req, now, up, render) ==
        if pass.Aborted? then Served(Crash, pass.table)
        else if p.id in pass.table.rows && IsFresh(pass.table.rows[p.id], now) && !req.ignoreCache
        then FreshHit(pass.table, p, req.cape)
        else Refresh(pass.table, p, req.cape, now, up, render)
  {
    SameKeysWellFormed(t, Collide(t, p.name, up).table);
  }

  /** A fresh hit's name patch keeps `nickname` the lower-case form of `default_nick`. */
  lemma FreshHitKeepsNicknames(t: Table, p: Profile, cape: bool)
    requires WellFormed(t) && NicknamesLower(t) && p.id in t.rows
    ensures NicknamesLower(FreshHit(t, p, cape).table)
  {
    var s := FreshHit(t, p, cape);
    forall k | k in s.table.rows
      ensures s.table.rows[k].nickname == Lower(s.table.rows[k].defaultNick)
    {
      if k != p.id {
        assert s.table.rows[k] == t.rows[k];
      }
    }
  }

  /**
   * The fresh hit's guard only skips an update that would change nothing:
   * with lower-case nicknames, the guarded patch leaves the same table as an
   * unconditional rename of the row to the resolved name.
   */
  lemma FreshHitGuardSkipsNoOp(t: Table, p: Profile, cape: bool)
    requires WellFormed(t) && NicknamesLower(t) && p.id in t.rows
    ensures FreshHit(t, p, cape).table == Table(t.rows[p.id := Rename(t.rows[p.id], p.name)], t.order)
  {
    if t.rows[p.id].defaultNick == p.name {
      assert Rename(t.rows[p.id], p.name) == t.rows[p.id];
      assert t.rows[p.id := t.rows[p.id]] == t.rows;
    }
  }

  /** A refresh writes `nickname` as the lower-case form of `default_nick`. */
  lemma RefreshKeepsNicknames(t: Table, p: Profile, cape: bool, now: real, up: Upstream,
                              render: Bytes -> Option<Bytes>)
    requires WellFormed(t) && NicknamesLower(t)
    ensures NicknamesLower(Refresh(t, p, cape, now, up, render).table)
  {
    var s := Refresh(t, p, cape, now, up, render);
    if Refetch(p, up, render).Some? {
      forall k | k in s.table.rows
        ensures s.table.rows[k].nickname == Lower(s.table.rows[k].defaultNick)
      {
        if k != p.id {
          assert s.table.rows[k] == t.rows[k];
        }
      }
    }
  }

  /** Every write of a request keeps `nickname` the lower-case form of `default_nick`. */
  lemma ServeKeepsNicknames(t: Table, req: Request, now: real, up: Upstream, render: Bytes -> Option<Bytes>)
    requires WellFormed(t) && NicknamesLower(t)
    ensures NicknamesLower(Serve(t, req, now, up, render).table)
  {
    if GetUserData(up, req.nickname).Some? {
      var p := GetUserData(up, req.nickname).value;
      ServeUnfold(t, req, now, up, render, p);
      var pass := Collide(t, p.name, up);
      if |Named(t, p.name)| > 1 {
        ResolveAllKeepsNicknames(t, Named(t, p.name), up);
      }
      if pass.Repaired? {
        var t1 := pass.table;
        if p.id in t1.rows && IsFresh(t1.rows[p.id], now) && !req.ignoreCache {
          FreshHitKeepsNicknames(t1, p, req.cape);
        } else {
          RefreshKeepsNicknames(t1, p, req.cape, now, up, render);
        }
      }
    }
  }

  /** A skin that is served is the one the resolved account's row holds afterwards. */
  lemma SkinReplyIsStored(t: Table, req: Request, now: real, up: Upstream, render: Bytes -> Option<Bytes>)
    requires WellFormed(t)
    requires StatusCode(Serve(t, req, now, up, render).reply) == 200
    ensures GetUserData(up, req.nickname).Some?
    ensures var s := Serve(t, req, now, up, render);
      var id := GetUserData(up, req.nickname).value.id;
      id in s.table.rows && s.reply.skin == s.table.rows[id].data
      && (s.reply.SkinEnvelope? ==> s.reply.cape == s.table.rows[id].dataCape)
  {
    var p := GetUserData(up, req.nickname).value;
    ServeUnfold(t, req, now, up, render, p);
  }

  /**
   * Asked again with caching allowed while the account's row is still fresh,
   * the engine serves the same skin again (or fails in the collision step),
   * and the answer does not depend on the texture service or the head
   * renderer: nothing is fetched.
   */
  lemma ServedTwiceWithinTtl(t: Table, nickname: string, now1: real, now2: real, up: Upstream,
                             render: Bytes -> Option<Bytes>, files2: map<string, Bytes>,
                             render2: Bytes -> Option<Bytes>, p: Profile)
    requires WellFormed(t)
    requires GetUserData(up, nickname) == Some(p)
    requires Serve(t, Request(nickname, false, false), now1, up, render).reply.SkinPng?
    requires var t1 := Serve(t, Request(nickname, false, false), now1, up, render).table;
      p.id in t1.rows && IsFresh(t1.rows[p.id], now2)
    ensures var s1 := Serve(t, Request(nickname, false, false), now1, up, render);
      var s2 := Serve(s1.table, Request(nickname, false, false), now2, up, render);
      && s2.reply in {s1.reply, Crash}
      && Serve(s1.table, Request(nickname, false, false), now2, up.(files := files2), render2) == s2
  {
    var req := Request(nickname, false, false);
    var s1 := Serve(t, req, now1, up, render);
    SkinReplyIsStored(t, req, now1, up, render);
    var up2 := up.(files := files2);
    assert GetUserData(up2, nickname) == Some(p);
    var t1 := s1.table;
    var pass := Collide(t1, p.name, up);
    assert Collide(t1, p.name, up2) == pass by {
      var rs := Named(t1, p.name);
      if |rs| > 1 {
        SameResolutionSamePass(t1, rs, up, up2);
      }
    }
    ServeUnfold(t1, req, now2, up, render, p);
    ServeUnfold(t1, req, now2, up2, render2, p);
    if pass.Repaired? {
      assert SamePayload(t1.rows[p.id], pass.table.rows[p.id]);
      assert Serve(t1, req, now2, up, render) == FreshHit(pass.table, p, false);
    }
  }

  /** A pass uses only the identity endpoints of the service. */
  lemma {:induction false} SameResolutionSamePass(t: Table, rs: seq<Record>, up1: Upstream, up2: Upstream)
    requires up1.handles == up2.handles && up1.profiles == up2.profiles
    ensures ResolveAll(t, rs, up1) == ResolveAll(t, rs, up2)
    decreases |rs|
  {
    if rs != [] {
      assert GetUserData(up1, rs[0].uuid) == GetUserData(up2, rs[0].uuid);
      if RepairOne(t, rs[0], up1).Some? {
        SameResolutionSamePass(RepairOne(t, rs[0], up1).value, rs[1..], up1, up2);
      }
    }
  }

  /** For a non-negative time, `int(now + ttl)` is `floor(now) + ttl`. */
  lemma ExpiryIsFloorPlusTtl(now: real)
    requires now >= 0.0
    ensures Expiry(now) == now.Floor + TTL
  {
    var n := now.Floor;
    assert n as real <= now < n as real + 1.0;
    var e := Expiry(now);
    assert e as real <= now + 10800.0 < e as real + 1.0;
  }

  /** A row written at `now` is fresh exactly before the whole second `floor(now) + ttl`. */
  lemma WrittenRowFreshUntil(t: Table, p: Profile, f: Fetched, now: real, later: real)
    requires WellFormed(t)
    requires now >= 0.0
    ensures IsFresh(Written(t, p, f, now), later) <==> later < (now.Floor + TTL) as real
  {
    ExpiryIsFloorPlusTtl(now);
  }

  /** After a refresh exactly one row holds the resolved uuid. */
  lemma RefreshLeavesOneRow(t: Table, p: Profile, cape: bool, now: real, up: Upstream,
                            render: Bytes -> Option<Bytes>)
    requires WellFormed(t)
    requires Refetch(p, up, render).Some?
    ensures var rows := Refresh(t, p, cape, now, up, render).table.rows;
      (set k | k in rows && rows[k].uuid == p.id) == {p.id}
  {
  }

  /**
   * `last_cached` of the profile endpoint: the row's expiry less the TTL, in
   * milliseconds, for a valid row with that uuid.
   */
  function LastCached(t: Table, uuid: string): (ms: Option<int>)
    ensures ms.Some? <==> uuid in t.rows && t.rows[uuid].valid
  {
    if uuid in t.rows && t.rows[uuid].valid then Some((t.rows[uuid].expires - TTL) * 1000) else None
  }

  /** After a refresh at a non-negative `now`, a valid row reports `floor(now)` as its cache time. */
  lemma LastCachedAfterRefresh(t: Table, p: Profile, cape: bool, now: real, up: Upstream,
                               render: Bytes -> Option<Bytes>)
    requires WellFormed(t)
    requires now >= 0.0
    requires Refetch(p, up, render).Some?
    requires p.id in t.rows ==> t.rows[p.id].valid
    ensures LastCached(Refresh(t, p, cape, now, up, render).table, p.id) == Some(now.Floor * 1000)
  {
    ExpiryIsFloorPlusTtl(now);
  }

  // ---------------------------------------------------------------------
  // The store, updated in place
  // ---------------------------------------------------------------------

  /** The `file` table of the database, as the engine reads and writes it. */
  class FileStore {
    var rows: map<string, Record>
    var order: seq<string>

    ghost predicate Valid()
      reads this
    {
      WellFormed(Table(rows, order))
    }

    function Snapshot(): Table
      reads this
    {
      Table(rows, order)
    }

    constructor ()
      ensures Valid() && rows == map[] && order == []
    {
      rows := map[];
      order := [];
    }

    /** `find_many(where={"default_nick": name})`, in scan order. */
    method FindManyByDefaultNick(name: string) returns (found: seq<Record>)
      requires Valid()
      ensures found == Named(Snapshot(), name)
      ensures forall r :: r in found ==> r.defaultNick == name && r.uuid in rows && rows[r.uuid] == r
      ensures forall k :: k in rows && rows[k].defaultNick == name ==> rows[k] in found
    {
      found := [];
      var i := 0;
      while i < |order|
        invariant 0 <= i <= |order|
        invariant found == NamedIn(rows, order[..i], name)
      {
        var row := rows[order[i]];
        assert order[..i + 1][..i] == order[..i];
        if row.defaultNick == name {
          found := found + [row];
        }
        i := i + 1;
      }
      assert order[..|order|] == order;
    }

    /**
     * `update(where={"uuid": uuid}, data={"default_nick": name, "nickname":
     * name.lower()})`; `found` is false where no row has that uuid, and
     * then, as Prisma's `update` returning None, nothing changes.
     */
    method SetName(uuid: string, name: string) returns (found: bool)
      requires Valid()
      modifies this
      ensures Valid()
      ensures found == (uuid in old(rows)) && order == old(order)
      ensures found ==> rows == old(rows)[uuid := Rename(old(rows)[uuid], name)]
      ensures !found ==> rows == old(rows)
    {
      found := uuid in rows;
      if found {
        rows := rows[uuid := Rename(rows[uuid], name)];
      }
    }

    /** `upsert(where={"uuid": r.uuid})` with the same fields for create and update. */
    method UpsertRow(r: Record)
      requires Valid()
      modifies this
      ensures Valid()
      ensures Snapshot() == Upsert(old(Snapshot()), r)
    {
      if r.uuid !in rows {
        order := order + [r.uuid];
      }
      rows := rows[r.uuid := r];
    }

    /**
     * `resolveCollisions(records)`: `completed` is false where an iteration
     * raised; the store then keeps the repairs made before it.
     */
    method ResolveCollisions(records: seq<Record>, up: Upstream) returns (completed: bool)
      requires Valid()
      modifies this
      ensures Valid()
      ensures var pass := ResolveAll(old(Snapshot()), records, up);
        completed == pass.Repaired? && Snapshot() == pass.table
    {
      var i := 0;
      while i < |records|
        invariant 0 <= i <= |records|
        invariant Valid()
        invariant ResolveAll(Snapshot(), records[i..], up) == ResolveAll(old(Snapshot()), records, up)
      {
        assert records[i..][0] == records[i] && records[i..][1..] == records[i + 1..];
        var data := GetUserData(up, records[i].uuid);
        if data.None? {
          return false;
        }
        var found := SetName(data.value.id, data.value.name);
        i := i + 1;
      }
      completed := true;
    }

    /**
     * `updateSkinCache(nickname, cape, ignore_cache)` at time `now`, against
     * the identity and texture services `up` and the head renderer `render`.
     */
    method UpdateSkinCache(req: Request, now: real, up: Upstream,
                           render: Bytes -> Option<Bytes>) returns (reply: Reply)
      requires Valid()
      modifies this
      ensures Valid()
      ensures var s := Serve(old(Snapshot()), req, now, up, render);
        reply == s.reply && Snapshot() == s.table
    {
      ghost var t0 := Snapshot();
      var fetched := GetUserData(up, req.nickname);
      if fetched.None? {
        return ProfileNotFound;
      }
      var p := fetched.value;
      ghost var pass := Collide(t0, p.name, up);
      var nicks := FindManyByDefaultNick(p.name);
      if |nicks| > 1 {
        var completed := ResolveCollisions(nicks, up);
        if !completed {
          return Crash;
        }
      }
      assert pass == Repaired(Snapshot());
      ghost var t1 := Snapshot();
      if p.id in rows && IsFresh(rows[p.id], now) && !req.ignoreCache {
        var cache := rows[p.id];
        if cache.defaultNick != p.name {
          var found := SetName(p.id, p.name);
        }
        reply := Deliver(req.cape, cache.data, cache.dataCape);
        assert Served(reply, Snapshot()) == FreshHit(t1, p, req.cape);
        return;
      }
      var f := Refetch(p, up, render);
      if f.None? {
        return UnhandledError;
      }
      UpsertRow(Written(Snapshot(), p, f.value, now));
      reply := Deliver(req.cape, f.value.skin, f.value.cape);
    }
  }
}
