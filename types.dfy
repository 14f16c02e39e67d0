/**
 * Values shared by the skin cache engine: the cached `file` row, the
 * profile returned by the identity service, and the upstream services
 * themselves, given as lookup tables.
 */
module Types {

  datatype Option<T> = None | Some(value: T)

  /** An opaque byte payload (a PNG skin, cape or head). */
  type Bytes = seq<bv8>

  /** Cache lifetime of a row, in seconds (3 hours). */
  const TTL: int := 60 * 60 * 3

  /**
   * One row of the `file` table. `uuid` is the primary key; `nickname` is
   * the lower-case projection of `defaultNick`; `expires` is a Unix time in
   * whole seconds.
   */
  datatype Record = Record(
    uuid: string,
    nickname: string,
    defaultNick: string,
    expires: int,
    data: Bytes,
    dataCape: Bytes,
    dataHead: Bytes,
    valid: bool)

  /**
   * A profile as the session server returns it: the account id, its current
   * display name and the decoded texture map (texture kind, such as "SKIN"
   * or "CAPE", to URL).
   */
  datatype Profile = Profile(id: string, name: string, textures: map<string, string>)

  /**
   * The upstream services as tables. `handles` is the handle-to-id endpoint
   * (a handle that is absent answers with a non-200 status), `profiles` the
   * id-to-profile endpoint (likewise), and `files` what a GET of a texture URL
   * reads (an absent URL raises a network error).
   */
  datatype Upstream = Upstream(
    handles: map<string, string>,
    profiles: map<string, Profile>,
    files: map<string, Bytes>)

  function Get<K, V>(m: map<K, V>, k: K): (r: Option<V>)
    ensures r.Some? <==> k in m
    ensures r.Some? ==> r.value == m[k]
  {
    if k in m then Some(m[k]) else None
  }

  predicate IsUpperAscii(c: char) {
    'A' <= c <= 'Z'
  }

  function LowerChar(c: char): char {
    if IsUpperAscii(c) then (c as int + 32) as char else c
  }

  /** `str.lower()` on the ASCII letters; every other character is kept. */
  function Lower(s: string): (r: string)
    ensures |r| == |s|
    ensures forall i :: 0 <= i < |s| ==> !IsUpperAscii(r[i])
    ensures forall i :: 0 <= i < |s| && !IsUpperAscii(s[i]) ==> r[i] == s[i]
    ensures forall i :: 0 <= i < |s| && IsUpperAscii(s[i]) ==> r[i] == (s[i] as int + 32) as char
  {
    if s == [] then [] else [LowerChar(s[0])] + Lower(s[1..])
  }

  /** Lower-casing twice is lower-casing once. */
  lemma {:induction false} LowerIdempotent(s: string)
    ensures Lower(Lower(s)) == Lower(s)
  {
    var l := Lower(s);
    assert forall i :: 0 <= i < |l| ==> !IsUpperAscii(l[i]);
    LowerKeepsLower(l);
  }

  lemma {:induction false} LowerKeepsLower(s: string)
    requires forall i :: 0 <= i < |s| ==> !IsUpperAscii(s[i])
    ensures Lower(s) == s
  {
    if s != [] {
      LowerKeepsLower(s[1..]);
    }
  }

  /** Python's `int(x)` on a float: truncation toward zero. */
  function Trunc(x: real): (n: int)
    ensures x >= 0.0 ==> n as real <= x < n as real + 1.0
    ensures x < 0.0 ==> n as real - 1.0 < x <= n as real
  {
    if x >= 0.0 then x.Floor else -((-x).Floor)
  }
}
