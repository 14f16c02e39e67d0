/**
 * The `search` endpoint over the `file` table: the valid rows whose
 * `nickname` contains the requested fragment, ordered by `default_nick`,
 * one page of `take` rows at `take * page`.
 *
 * The store's `contains` filter is taken as a case-sensitive substring test
 * with every character of the fragment literal (no `LIKE` wildcards), and
 * its ordering as code-point lexicographic on `default_nick`, with rows
 * whose names tie kept in the store's scan order.
 */
module Search {
  import opened Types
  import opened Cache

  /** Fragments shorter than this answer 204 whatever the store holds. */
  const MinFragment: nat := 3

  // ---------------------------------------------------------------------
  // nickname contains fragment
  // ---------------------------------------------------------------------

  /** `f` occurs in `s` as a contiguous piece. */
  ghost predicate Occurs(f: string, s: string) {
    exists i :: 0 <= i <= |s| && f <= s[i..]
  }

  /**
   * The store's `contains` test as this model takes it: a literal,
   * case-sensitive substring test (`_` and `%` in `f` stand for themselves),
   * scanning the start positions of `s` in turn.
   */
  function Contains(s: string, f: string): bool
    decreases |s|
  {
    if f <= s then true
    else if s == [] then false
    else Contains(s[1..], f)
  }

  /** The scan finds exactly the pieces that occur. */
  lemma {:induction false} ContainsIffOccurs(s: string, f: string)
    ensures Contains(s, f) <==> Occurs(f, s)
    decreases |s|
  {
    assert s[0..] == s;
    if f <= s {
    } else if s == [] {
      forall i | 0 <= i <= |s| ensures !(f <= s[i..]) {
        assert i == 0;
      }
    } else {
      ContainsIffOccurs(s[1..], f);
      if Occurs(f, s[1..]) {
        var i :| 0 <= i <= |s[1..]| && f <= s[1..][i..];
        assert s[1..][i..] == s[i + 1..];
      }
      if Occurs(f, s) {
        var i :| 0 <= i <= |s| && f <= s[i..];
        assert i != 0;
        assert s[1..][i - 1..] == s[i..];
      }
    }
  }

  /**
   * A fragment with an upper-case letter occurs in no lower-cased name: the
   * fragment is matched as given against the lower-case `nickname`.
   */
  lemma {:induction false} UpperCaseNeverOccurs(f: string, s: string, j: nat)
    requires j < |f| && IsUpperAscii(f[j])
    requires forall i :: 0 <= i < |s| ==> !IsUpperAscii(s[i])
    ensures !Occurs(f, s)
  {
    forall i | 0 <= i <= |s| ensures !(f <= s[i..]) {
    }
  }

  // ---------------------------------------------------------------------
  // order={"default_nick": "asc"}
  // ---------------------------------------------------------------------

  /** Code-point lexicographic order: `a` sorts no later than `b`. */
  predicate NickLe(a: string, b: string)
    decreases |a|
  {
    if a == [] then true
    else if b == [] then false
    else if a[0] != b[0] then a[0] < b[0]
    else NickLe(a[1..], b[1..])
  }

  lemma {:induction false} NickLeTotal(a: string, b: string)
    ensures NickLe(a, b) || NickLe(b, a)
    decreases |a|
  {
    if a != [] && b != [] && a[0] == b[0] {
      NickLeTotal(a[1..], b[1..]);
    }
  }

  lemma {:induction false} NickLeTransitive(a: string, b: string, c: string)
    requires NickLe(a, b) && NickLe(b, c)
    ensures NickLe(a, c)
    decreases |a|
  {
    if a != [] && b != [] && c != [] && a[0] == b[0] && b[0] == c[0] {
      NickLeTransitive(a[1..], b[1..], c[1..]);
    }
  }

  lemma {:induction false} NickLeAntisymmetric(a: string, b: string)
    requires NickLe(a, b) && NickLe(b, a)
    ensures a == b
    decreases |a|
  {
    if a != [] {
      NickLeAntisymmetric(a[1..], b[1..]);
      assert a == [a[0]] + a[1..] && b == [b[0]] + b[1..];
    }
  }

  ghost predicate SortedByNick(rs: seq<Record>) {
    forall i, j :: 0 <= i < j < |rs| ==> NickLe(rs[i].defaultNick, rs[j].defaultNick)
  }

  /** Places `r` before the first row it does not sort after. */
  function Insert(r: Record, s: seq<Record>): (s': seq<Record>)
    ensures multiset(s') == multiset(s) + multiset{r}
  {
    if s == [] then [r]
    else if NickLe(r.defaultNick, s[0].defaultNick) then [r] + s
    else
      assert s == [s[0]] + s[1..];
      [s[0]] + Insert(r, s[1..])
  }

  lemma {:induction false} NickLeReflexive(a: string)
    ensures NickLe(a, a)
    decreases |a|
  {
    if a != [] {
      NickLeReflexive(a[1..]);
    }
  }

  /** A row that sorts no later than every row of a sorted sequence may go in front. */
  lemma ConsSorted(x: Record, s: seq<Record>)
    requires SortedByNick(s)
    requires forall y :: y in s ==> NickLe(x.defaultNick, y.defaultNick)
    ensures SortedByNick([x] + s)
  {
    var out := [x] + s;
    forall i, j | 0 <= i < j < |out|
      ensures NickLe(out[i].defaultNick, out[j].defaultNick)
    {
      assert out[j] == s[j - 1];
      if i > 0 {
        assert out[i] == s[i - 1];
      }
    }
  }

  /** Every row of a sorted sequence sorts no earlier than its first. */
  lemma SortedHead(s: seq<Record>, lo: string)
    requires SortedByNick(s) && s != [] && NickLe(lo, s[0].defaultNick)
    ensures forall y :: y in s ==> NickLe(lo, y.defaultNick)
  {
    forall y | y in s ensures NickLe(lo, y.defaultNick) {
      var j :| 0 <= j < |s| && s[j] == y;
      if j > 0 {
        NickLeTransitive(lo, s[0].defaultNick, y.defaultNick);
      }
    }
  }

  /** Inserting a row keeps a lower bound that holds for it and for the sequence. */
  lemma InsertBounded(r: Record, s: seq<Record>, lo: string)
    requires NickLe(lo, r.defaultNick)
    requires forall y :: y in s ==> NickLe(lo, y.defaultNick)
    ensures forall y :: y in Insert(r, s) ==> NickLe(lo, y.defaultNick)
  {
    var out := Insert(r, s);
    forall y | y in out ensures NickLe(lo, y.defaultNick) {
      assert y in multiset(out);
      if y != r {
        assert y in multiset(s);
      }
    }
  }

  lemma {:induction false} InsertSorted(r: Record, s: seq<Record>)
    requires SortedByNick(s)
    ensures SortedByNick(Insert(r, s))
  {
    if s == [] {
    } else if NickLe(r.defaultNick, s[0].defaultNick) {
      SortedHead(s, r.defaultNick);
      ConsSorted(r, s);
    } else {
      var rest := s[1..];
      assert SortedByNick(rest) by {
        forall i, j | 0 <= i < j < |rest|
          ensures NickLe(rest[i].defaultNick, rest[j].defaultNick)
        {
          assert rest[i] == s[i + 1] && rest[j] == s[j + 1];
        }
      }
      InsertSorted(r, rest);
      NickLeTotal(r.defaultNick, s[0].defaultNick);
      NickLeReflexive(s[0].defaultNick);
      SortedHead(s, s[0].defaultNick);
      assert forall y :: y in rest ==> y in s;
      InsertBounded(r, rest, s[0].defaultNick);
      ConsSorted(s[0], Insert(r, rest));
    }
  }

  /** Insertion sort of the matching rows by `default_nick`; equal names keep scan order. */
  function SortByNick(rs: seq<Record>): (s: seq<Record>)
    ensures multiset(s) == multiset(rs)
    ensures |s| == |rs|
  {
    if rs == [] then []
    else
      assert rs == [rs[0]] + rs[1..];
      Insert(rs[0], SortByNick(rs[1..]))
  }

  /** The sort orders its output. */
  lemma {:induction false} SortByNickSorted(rs: seq<Record>)
    ensures SortedByNick(SortByNick(rs))
  {
    if rs != [] {
      SortByNickSorted(rs[1..]);
      InsertSorted(rs[0], SortByNick(rs[1..]));
    }
  }

  // ---------------------------------------------------------------------
  // The query
  // ---------------------------------------------------------------------

  /** The rows of `keys`, in that order. */
  function RowsIn(rows: map<string, Record>, keys: seq<string>): (rs: seq<Record>)
    requires forall k :: k in keys ==> k in rows && rows[k].uuid == k
    ensures |rs| == |keys|
    ensures forall i :: 0 <= i < |keys| ==> rs[i] == rows[keys[i]]
    ensures forall k :: k in keys ==> rows[k] in rs
    ensures forall r :: r in rs ==> r.uuid in rows && rows[r.uuid] == r
  {
    if keys == [] then [] else [rows[keys[0]]] + RowsIn(rows, keys[1..])
  }

  /** A sequence without repetitions has as many elements as the set of them. */
  lemma {:induction false} DistinctCard(s: seq<string>)
    requires forall i, j :: 0 <= i < j < |s| ==> s[i] != s[j]
    ensures |set k | k in s| == |s|
  {
    if s != [] {
      var rest := s[1..];
      assert forall i :: 0 <= i < |rest| ==> rest[i] == s[i + 1];
      DistinctCard(rest);
      assert (set k | k in s) == {s[0]} + (set k | k in rest);
    }
  }

  /** Every row of the table once, in scan order. */
  function Scan(t: Table): (rs: seq<Record>)
    requires WellFormed(t)
    ensures |rs| == |t.rows|
    ensures forall k :: k in t.rows ==> t.rows[k] in rs
    ensures forall r :: r in rs ==> r.uuid in t.rows && t.rows[r.uuid] == r
  {
    DistinctCard(t.order);
    assert t.rows.Keys == set k | k in t.order;
    RowsIn(t.rows, t.order)
  }

  /** `where={"nickname": {"contains": fragment}, "valid": True}`, in scan order. */
  function Matches(scan: seq<Record>, fragment: string): (m: seq<Record>)
    ensures forall r :: r in m <==> r in scan && r.valid && Contains(r.nickname, fragment)
    ensures |m| <= |scan|
  {
    if scan == [] then []
    else
      (if scan[0].valid && Contains(scan[0].nickname, fragment) then [scan[0]] else [])
      + Matches(scan[1..], fragment)
  }

  /** The matches hold each valid row containing the fragment as often as the scan does, and no other row. */
  lemma {:induction false} MatchesMultiplicity(scan: seq<Record>, fragment: string)
    ensures forall r :: multiset(Matches(scan, fragment))[r]
                     == if r.valid && Contains(r.nickname, fragment) then multiset(scan)[r] else 0
    decreases |scan|
  {
    if scan != [] {
      assert scan == [scan[0]] + scan[1..];
      MatchesMultiplicity(scan[1..], fragment);
    }
  }

  /** Filtering works piece by piece, so the matches keep their scan order. */
  lemma {:induction false} MatchesAppend(a: seq<Record>, b: seq<Record>, fragment: string)
    ensures Matches(a + b, fragment) == Matches(a, fragment) + Matches(b, fragment)
    decreases |a|
  {
    if a == [] {
      assert a + b == b;
    } else {
      assert (a + b)[0] == a[0] && (a + b)[1..] == a[1..] + b;
      MatchesAppend(a[1..], b, fragment);
    }
  }

  /** The uuids of the rows `count` counts. */
  ghost function MatchingKeys(t: Table, fragment: string): set<string> {
    set k | k in t.rows && t.rows[k].valid && Occurs(fragment, t.rows[k].nickname)
  }

  /** The keys of `keys` whose rows the filter keeps. */
  ghost function KeptKeys(rows: map<string, Record>, keys: seq<string>, fragment: string): set<string>
    requires forall k :: k in keys ==> k in rows
  {
    set k | k in keys && rows[k].valid && Contains(rows[k].nickname, fragment)
  }

  /** The kept keys of a non-empty key sequence: those of its tail, plus its head when that row is kept. */
  lemma KeptKeysCons(rows: map<string, Record>, keys: seq<string>, fragment: string)
    requires keys != [] && forall k :: k in keys ==> k in rows
    ensures var k0 := keys[0];
      KeptKeys(rows, keys, fragment) == KeptKeys(rows, keys[1..], fragment)
        + (if rows[k0].valid && Contains(rows[k0].nickname, fragment) then {k0} else {})
  {
    assert forall k :: k in keys <==> k == keys[0] || k in keys[1..];
  }

  /** Over distinct keys, the matches are as many as the kept keys. */
  lemma {:induction false} MatchCountIn(rows: map<string, Record>, keys: seq<string>, fragment: string)
    requires forall k :: k in keys ==> k in rows && rows[k].uuid == k
    requires forall i, j :: 0 <= i < j < |keys| ==> keys[i] != keys[j]
    ensures |Matches(RowsIn(rows, keys), fragment)| == |KeptKeys(rows, keys, fragment)|
  {
    if keys == [] {
      assert KeptKeys(rows, keys, fragment) == {};
    } else {
      var k0 := keys[0];
      var rest := keys[1..];
      assert forall i :: 0 <= i < |rest| ==> rest[i] == keys[i + 1];
      MatchCountIn(rows, rest, fragment);
      var scan := RowsIn(rows, keys);
      assert scan[0] == rows[k0] && scan[1..] == RowsIn(rows, rest);
      var kept := (if rows[k0].valid && Contains(rows[k0].nickname, fragment) then 1 else 0);
      assert |Matches(scan, fragment)| == kept + |Matches(RowsIn(rows, rest), fragment)|;
      KeptKeysCons(rows, keys, fragment);
      assert k0 !in KeptKeys(rows, rest, fragment);
    }
  }

  /** `count(where=...)` over the table: one per valid row whose nickname holds the fragment. */
  lemma MatchCount(t: Table, fragment: string)
    requires WellFormed(t)
    ensures |Matches(Scan(t), fragment)| == |MatchingKeys(t, fragment)|
  {
    MatchCountIn(t.rows, t.order, fragment);
    forall k | k in t.rows
      ensures Contains(t.rows[k].nickname, fragment) <==> Occurs(fragment, t.rows[k].nickname)
    {
      ContainsIffOccurs(t.rows[k].nickname, fragment);
    }
    assert Scan(t) == RowsIn(t.rows, t.order);
    assert KeptKeys(t.rows, t.order, fragment) == MatchingKeys(t, fragment);
  }

  /** The matches in the order the endpoint lists them. */
  function Ordered(t: Table, fragment: string): (o: seq<Record>)
    requires WellFormed(t)
    ensures multiset(o) == multiset(Matches(Scan(t), fragment))
  {
    SortByNick(Matches(Scan(t), fragment))
  }

  /** `take=take, skip=skip`: at most `take` rows starting at `skip`. */
  function Window<T>(s: seq<T>, skip: nat, take: nat): (w: seq<T>)
    ensures |w| == if skip >= |s| then 0 else if skip + take >= |s| then |s| - skip else take
    ensures forall i :: 0 <= i < |w| ==> w[i] == s[skip + i]
  {
    if skip >= |s| then [] else if skip + take >= |s| then s[skip..] else s[skip..skip + take]
  }

  /** `skip=take * page`: the rows before page `page`. */
  function Skip(take: nat, page: nat): nat {
    take * page
  }

  /** One entry of `data`. */
  datatype Hit = Hit(name: string, uuid: string, head: Bytes)

  function HitOf(r: Record): Hit {
    Hit(r.defaultNick, r.uuid, r.dataHead)
  }

  function Hits(rs: seq<Record>): (hs: seq<Hit>)
    ensures |hs| == |rs|
    ensures forall i :: 0 <= i < |rs| ==> hs[i] == HitOf(rs[i])
  {
    if rs == [] then [] else [HitOf(rs[0])] + Hits(rs[1..])
  }

  datatype SearchReply =
    | NoContent
    | Found(fragment: string, hits: seq<Hit>, totalCount: nat, nextPage: nat)

  /** `search(nickname, take, page)`. */
  function Search(t: Table, fragment: string, take: nat, page: nat): (r: SearchReply)
    requires WellFormed(t)
    ensures |fragment| < MinFragment ==> r == NoContent
    ensures r.Found? ==>
      && r.fragment == fragment
      && 0 < |r.hits| <= take
      && r.totalCount == |Matches(Scan(t), fragment)|
      && r.nextPage == page + 1
  {
    if |fragment| < MinFragment then NoContent
    else
      var w := Window(Ordered(t, fragment), Skip(take, page), take);
      if w == [] then NoContent
      else Found(fragment, Hits(w), |Matches(Scan(t), fragment)|, page + 1)
  }

  // ---------------------------------------------------------------------
  // What a page holds
  // ---------------------------------------------------------------------

  /** `total_count` is the number of valid rows whose nickname holds the fragment. */
  lemma TotalCountIsMatchingRows(t: Table, fragment: string, take: nat, page: nat)
    requires WellFormed(t)
    requires Search(t, fragment, take, page).Found?
    ensures Search(t, fragment, take, page).totalCount == |MatchingKeys(t, fragment)|
  {
    MatchCount(t, fragment);
  }

  /** The entries of a found page are the window of the ordered matches. */
  lemma SearchPage(t: Table, fragment: string, take: nat, page: nat)
    requires WellFormed(t)
    ensures Search(t, fragment, take, page).Found? ==>
      Search(t, fragment, take, page).hits == Hits(Window(Ordered(t, fragment), Skip(take, page), take))
  {
  }

  lemma OrderedAreMatches(t: Table, fragment: string, r: Record)
    requires WellFormed(t)
    requires r in Ordered(t, fragment)
    ensures r.uuid in t.rows && t.rows[r.uuid] == r
    ensures r.valid && Contains(r.nickname, fragment)
  {
    var m := Matches(Scan(t), fragment);
    assert r in multiset(Ordered(t, fragment));
    assert r in multiset(m);
    assert r in m;
  }

  /** Every listed entry is a valid row of the table whose nickname contains the fragment. */
  lemma SearchHitsAreMatches(t: Table, fragment: string, take: nat, page: nat, i: nat)
    requires WellFormed(t)
    requires Search(t, fragment, take, page).Found? && i < |Search(t, fragment, take, page).hits|
    ensures var h := Search(t, fragment, take, page).hits[i];
      && h.uuid in t.rows && h == HitOf(t.rows[h.uuid])
      && t.rows[h.uuid].valid && Occurs(fragment, t.rows[h.uuid].nickname)
  {
    var o := Ordered(t, fragment);
    var skip := Skip(take, page);
    var w := Window(o, skip, take);
    SearchPage(t, fragment, take, page);
    var r := w[i];
    assert r == o[skip + i];
    OrderedAreMatches(t, fragment, r);
    ContainsIffOccurs(r.nickname, fragment);
  }

  /** The entries of a page ascend by `default_nick`. */
  lemma SearchHitsAscend(t: Table, fragment: string, take: nat, page: nat)
    requires WellFormed(t)
    requires Search(t, fragment, take, page).Found?
    ensures var hs := Search(t, fragment, take, page).hits;
      forall i, j :: 0 <= i < j < |hs| ==> NickLe(hs[i].name, hs[j].name)
  {
    var o := Ordered(t, fragment);
    SortByNickSorted(Matches(Scan(t), fragment));
    WindowSorted(o, Skip(take, page), take);
    SearchPage(t, fragment, take, page);
  }

  /** A window of a sorted sequence is sorted. */
  lemma WindowSorted(s: seq<Record>, skip: nat, take: nat)
    requires SortedByNick(s)
    ensures SortedByNick(Window(s, skip, take))
  {
    var w := Window(s, skip, take);
    forall i, j | 0 <= i < j < |w|
      ensures NickLe(w[i].defaultNick, w[j].defaultNick)
    {
      assert w[i] == s[skip + i] && w[j] == s[skip + j];
    }
  }

  /** Index `i` lies on page `i / take`. */
  lemma PageOf(i: nat, take: nat) returns (page: nat)
    requires take > 0
    ensures page == i / take
    ensures Skip(take, page) <= i < Skip(take, page) + take
  {
    page := i / take;
    assert i == take * page + i % take;
  }

  /** A valid matching row has a position in the ordered matches. */
  lemma PositionInOrdered(t: Table, fragment: string, k: string) returns (i: nat)
    requires WellFormed(t)
    requires k in t.rows && t.rows[k].valid && Occurs(fragment, t.rows[k].nickname)
    ensures i < |Ordered(t, fragment)| && Ordered(t, fragment)[i] == t.rows[k]
  {
    var r := t.rows[k];
    ContainsIffOccurs(r.nickname, fragment);
    var m := Matches(Scan(t), fragment);
    assert r in m;
    assert r in multiset(m);
    var o := Ordered(t, fragment);
    assert r in multiset(o);
    i :| 0 <= i < |o| && o[i] == r;
  }

  /** Position `i` of the ordered matches is listed on page `i / take`. */
  lemma ListedOnPage(t: Table, fragment: string, take: nat, i: nat) returns (page: nat)
    requires WellFormed(t)
    requires |fragment| >= MinFragment && take > 0 && i < |Ordered(t, fragment)|
    ensures page == i / take
    ensures Search(t, fragment, take, page).Found?
    ensures HitOf(Ordered(t, fragment)[i]) in Search(t, fragment, take, page).hits
  {
    var o := Ordered(t, fragment);
    page := PageOf(i, take);
    InWindow(o, Skip(take, page), take, i);
    SearchPage(t, fragment, take, page);
  }

  /** Position `i` of `s` is in the window that starts at most `take` before it. */
  lemma InWindow<T>(s: seq<T>, skip: nat, take: nat, i: nat)
    requires skip <= i < skip + take && i < |s|
    ensures i - skip < |Window(s, skip, take)| && Window(s, skip, take)[i - skip] == s[i]
  {
  }

  /** With a positive page size, every valid matching row is listed on some page. */
  lemma {:induction false} EveryMatchIsOnSomePage(t: Table, fragment: string, take: nat, k: string) returns (page: nat)
    requires WellFormed(t)
    requires |fragment| >= MinFragment && take > 0
    requires k in t.rows && t.rows[k].valid && Occurs(fragment, t.rows[k].nickname)
    ensures Search(t, fragment, take, page).Found?
    ensures HitOf(t.rows[k]) in Search(t, fragment, take, page).hits
  {
    var i := PositionInOrdered(t, fragment, k);
    page := ListedOnPage(t, fragment, take, i);
  }

  /**
   * The first page answers 204 exactly when the fragment is too short, the
   * page size is zero, or nothing matches.
   */
  lemma FirstPageFound(t: Table, fragment: string, take: nat)
    requires WellFormed(t)
    ensures Search(t, fragment, take, 0).Found? <==>
      |fragment| >= MinFragment && take > 0 && |Matches(Scan(t), fragment)| > 0
  {
  }

  /** A page size that covers every match lists all of them on the first page. */
  lemma FirstPageHoldsAll(t: Table, fragment: string, take: nat)
    requires WellFormed(t)
    requires |fragment| >= MinFragment && 0 < |Matches(Scan(t), fragment)| <= take
    ensures var s := Search(t, fragment, take, 0);
      s.Found? && |s.hits| == s.totalCount == |Matches(Scan(t), fragment)| && s.nextPage == 1
  {
  }

  /** A page past the last match answers 204 however many rows match. */
  lemma PastTheEndNoContent(t: Table, fragment: string, take: nat, page: nat)
    requires WellFormed(t)
    requires Skip(take, page) >= |Matches(Scan(t), fragment)|
    ensures Search(t, fragment, take, page) == NoContent
  {
  }

  /**
   * On a store whose nicknames are lower-cased, a fragment holding an
   * upper-case letter matches no row: the fragment itself is not lower-cased.
   */
  lemma UpperCaseFragmentFindsNothing(t: Table, fragment: string, take: nat, page: nat, j: nat)
    requires WellFormed(t) && NicknamesLower(t)
    requires j < |fragment| && IsUpperAscii(fragment[j])
    ensures Matches(Scan(t), fragment) == []
    ensures Search(t, fragment, take, page) == NoContent
  {
    var m := Matches(Scan(t), fragment);
    if m != [] {
      var r := m[0];
      assert r in Scan(t);
      ContainsIffOccurs(r.nickname, fragment);
      UpperCaseNeverOccurs(fragment, r.nickname, j);
      assert false;
    }
  }
}
