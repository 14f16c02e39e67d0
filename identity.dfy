/**
 * Identity resolution: deciding whether an input is an account id or a
 * player handle, resolving it against the identity service, and printing an
 * id in its dashed 8-4-4-4-12 form.
 */
module Identity {
  import opened Types

  predicate IsHexDigit(c: char) {
    '0' <= c <= '9' || 'a' <= c <= 'f' || 'A' <= c <= 'F'
  }

  predicate AllHex(s: string, n: nat)
    requires n <= |s|
  {
    forall i :: 0 <= i < n ==> IsHexDigit(s[i])
  }

  /**
   * `re.match(r'^[0-9a-fA-F]{32}$', s)`. Without MULTILINE, Python's `$`
   * matches at the end of the string and also just before a final newline.
   */
  predicate MatchesIdPattern(s: string) {
    (|s| == 32 && AllHex(s, 32)) || (|s| == 33 && AllHex(s, 32) && s[32] == '\n')
  }

  /** The pattern accepts exactly 32 hex digits, optionally followed by a single newline. */
  lemma IdPatternShape(s: string)
    ensures MatchesIdPattern(s) <==> exists h :: |h| == 32 && AllHex(h, 32) && (s == h || s == h + "\n")
  {
    if MatchesIdPattern(s) {
      var h := s[..32];
      assert AllHex(h, 32);
      assert s == h || s == h + "\n";
    }
    if exists h :: |h| == 32 && AllHex(h, 32) && (s == h || s == h + "\n") {
      var h :| |h| == 32 && AllHex(h, 32) && (s == h || s == h + "\n");
      assert forall i :: 0 <= i < 32 ==> s[i] == h[i];
    }
  }

  /**
   * `s.replace("-", "")`: every dash goes, and every other character stays
   * as often as it occurs in `s`.
   */
  function StripDashes(s: string): (r: string)
    ensures '-' !in r
    ensures |r| <= |s|
    ensures forall c :: c in r ==> c in s
    ensures forall c :: c != '-' ==> multiset(r)[c] == multiset(s)[c]
  {
    if s == [] then []
    else
      assert s == [s[0]] + s[1..];
      if s[0] == '-' then StripDashes(s[1..]) else [s[0]] + StripDashes(s[1..])
  }

  /**
   * Removal works piece by piece: stripping a concatenation concatenates the
   * stripped pieces, so the characters kept stay in their order.
   */
  lemma {:induction false} StripDashesAppend(a: string, b: string)
    ensures StripDashes(a + b) == StripDashes(a) + StripDashes(b)
    decreases |a|
  {
    if a == [] {
      assert a + b == b;
    } else {
      assert (a + b)[0] == a[0] && (a + b)[1..] == a[1..] + b;
      StripDashesAppend(a[1..], b);
    }
  }

  /** Removing dashes from a string that has none changes nothing. */
  lemma {:induction false} StripDashesNoDash(s: string)
    requires '-' !in s
    ensures StripDashes(s) == s
  {
    if s != [] {
      assert s[0] != '-';
      assert '-' !in s[1..] by {
        forall i | 0 <= i < |s[1..]| ensures s[1..][i] != '-' {
          assert s[1..][i] == s[i + 1];
        }
      }
      StripDashesNoDash(s[1..]);
    }
  }

  /** How `getUserData` looks an input up. */
  datatype Lookup = ById(id: string) | ByHandle(handle: string)

  /**
   * The pattern is matched against the raw input and the dash-stripped copy is used
   * only when it matched; since a match has no dashes, the id used is the
   * input itself, and every input with a dash goes to the handle lookup.
   */
  function Classify(s: string): (k: Lookup)
    ensures k.ById? <==> MatchesIdPattern(s)
    ensures k.ById? ==> k.id == s
    ensures k.ByHandle? ==> k.handle == s
    ensures '-' in s ==> k.ByHandle?
  {
    if MatchesIdPattern(s) then
      assert '-' !in s by {
        forall i | 0 <= i < |s| ensures s[i] != '-' {
          if i < 32 { assert IsHexDigit(s[i]); }
        }
      }
      StripDashesNoDash(s);
      ById(StripDashes(s))
    else
      ByHandle(s)
  }

  /**
   * `getUserData`: the profile for an input, or None when either lookup does
   * not answer 200. Only an input matching the id pattern skips the
   * handle-to-id lookup.
   */
  function GetUserData(up: Upstream, s: string): (r: Option<Profile>)
    ensures MatchesIdPattern(s) ==> r == Get(up.profiles, s)
    ensures !MatchesIdPattern(s) ==>
      (r.Some? <==> s in up.handles && up.handles[s] in up.profiles)
    ensures !MatchesIdPattern(s) && r.Some? ==> r.value == up.profiles[up.handles[s]]
  {
    match Classify(s)
    case ById(id) => Get(up.profiles, id)
    case ByHandle(h) => if h in up.handles then Get(up.profiles, up.handles[h]) else None
  }

  /**
   * An input matching the id pattern is resolved without consulting the
   * handle endpoint at all: two services that agree on profiles agree on it.
   */
  lemma IdInputIgnoresHandles(up1: Upstream, up2: Upstream, s: string)
    requires MatchesIdPattern(s)
    requires up1.profiles == up2.profiles
    ensures GetUserData(up1, s) == GetUserData(up2, s)
  {
  }

  /** A dashed id (8-4-4-4-12) never matches the pattern, so it is looked up as a handle. */
  lemma DashedIdIsHandle(up: Upstream, s: string)
    requires |s| == 36 && s[8] == '-'
    ensures Classify(s) == ByHandle(s)
    ensures GetUserData(up, s).Some? ==> s in up.handles
  {
  }

  /** `list.insert(i, c)`: past the end it appends. */
  function InsertAt(s: string, i: nat, c: char): (r: string)
    ensures |r| == |s| + 1
    ensures var j := if i <= |s| then i else |s|;
      r[j] == c && r[..j] + r[j + 1..] == s && r[..j] == s[..j]
  {
    if i <= |s| then s[..i] + [c] + s[i..] else s + [c]
  }

  /** `s[a:b]` with Python's clamping of out-of-range bounds (a <= b). */
  function Slice(s: string, a: nat, b: nat): (r: string)
    requires a <= b
    ensures |r| <= b - a
  {
    if b <= |s| then s[a..b] else if a <= |s| then s[a..] else []
  }

  /** `del s[i]`. */
  function RemoveAt(s: string, i: nat): (r: string)
    requires i < |s|
    ensures |r| == |s| - 1
  {
    s[..i] + s[i + 1..]
  }

  /** Removes the characters at 23, 18, 13 and 8 of a 36-character string, in that order. */
  function Undash(d: string): string
    requires |d| == 36
  {
    RemoveAt(RemoveAt(RemoveAt(RemoveAt(d, 23), 18), 13), 8)
  }

  /**
   * One insert: a character inserted at the end of a prefix `pre` lands
   * between `pre` and the rest; a prefix shorter than the index with nothing
   * after it gets the character appended.
   */
  lemma InsertStep(pre: string, rest: string, i: nat, c: char)
    requires |pre| == i || (|pre| < i && rest == [])
    ensures InsertAt(pre + rest, i, c) == pre + [c] + rest
  {
    if |pre| == i {
      assert (pre + rest)[..i] == pre && (pre + rest)[i..] == rest;
    } else {
      assert pre + rest == pre;
    }
  }

  lemma AppendAssoc(x: string, y: string, z: string)
    ensures x + (y + z) == x + y + z
  {
  }

  /** `s[a:]` with Python's clamping: empty past the end. */
  function From(s: string, a: nat): (r: string)
    ensures |r| <= |s|
  {
    if a <= |s| then s[a..] else []
  }

  /**
   * What follows position `a` is the clamped piece of width `w` there and
   * what follows that; the piece falls short of `w` only when nothing
   * follows it.
   */
  lemma FromSplit(u: string, a: nat, w: nat)
    ensures From(u, a) == Slice(u, a, a + w) + From(u, a + w)
    ensures |Slice(u, a, a + w)| == w || From(u, a + w) == []
  {
    if a + w <= |u| {
      assert u[a..] == u[a..a + w] + u[a + w..];
    } else if a <= |u| {
      assert u[a..] == u[a..] + [];
    }
  }

  /**
   * One insert of `uuidToDashed` after the pieces `x` already cut: the dash
   * goes after `x`, and the next piece of width 4, starting at `a`, joins
   * the cut part.
   */
  lemma DashStep(u: string, s: string, x: string, a: nat, i: nat)
    requires s == x + From(u, a)
    requires |x| == i || (|x| < i && From(u, a) == [])
    ensures InsertAt(s, i, '-') == x + "-" + Slice(u, a, a + 4) + From(u, a + 4)
    ensures var y := x + "-" + Slice(u, a, a + 4);
      |y| == i + 5 || (|y| < i + 5 && From(u, a + 4) == [])
  {
    FromSplit(u, a, 4);
    InsertStep(x, From(u, a), i, '-');
    AppendAssoc(x + "-", Slice(u, a, a + 4), From(u, a + 4));
  }

  /** The first two inserts of `uuidToDashed`. */
  lemma FirstDashes(u: string)
    ensures var x := Slice(u, 0, 8) + "-" + Slice(u, 8, 12) + "-" + Slice(u, 12, 16);
      InsertAt(InsertAt(u, 8, '-'), 13, '-') == x + From(u, 16) &&
      (|x| == 18 || (|x| < 18 && From(u, 16) == []))
  {
    assert From(u, 0) == u;
    FromSplit(u, 0, 8);
    DashStep(u, u, Slice(u, 0, 8), 8, 8);
    DashStep(u, InsertAt(u, 8, '-'), Slice(u, 0, 8) + "-" + Slice(u, 8, 12), 12, 13);
  }

  /** The four inserts of `uuidToDashed`, one piece of the input at a time. */
  lemma DashedShape(u: string, r: string)
    requires r == InsertAt(InsertAt(InsertAt(InsertAt(u, 8, '-'), 13, '-'), 18, '-'), 23, '-')
    ensures r == Slice(u, 0, 8) + "-" + Slice(u, 8, 12) + "-" + Slice(u, 12, 16) + "-"
                 + Slice(u, 16, 20) + "-" + (if 20 <= |u| then u[20..] else [])
  {
    FirstDashes(u);
    var b := Slice(u, 0, 8) + "-" + Slice(u, 8, 12) + "-" + Slice(u, 12, 16);
    DashStep(u, InsertAt(InsertAt(u, 8, '-'), 13, '-'), b, 16, 18);
    InsertStep(b + "-" + Slice(u, 16, 20), From(u, 20), 23, '-');
  }

  /** On a 32-character id the dashes land at 8, 13, 18 and 23, and removing them gives the id back. */
  lemma DashedFull(u: string, r: string)
    requires |u| == 32
    requires r == InsertAt(InsertAt(InsertAt(InsertAt(u, 8, '-'), 13, '-'), 18, '-'), 23, '-')
    ensures |r| == 36
    ensures r[8] == '-' && r[13] == '-' && r[18] == '-' && r[23] == '-'
    ensures Undash(r) == u
  {
    var a := InsertAt(u, 8, '-');
    var b := InsertAt(a, 13, '-');
    var c := InsertAt(b, 18, '-');
    assert r[..23][18] == r[18] && c[..23][18] == c[18];
    assert c[..18][13] == c[13] && b[..18][13] == b[13];
    assert b[..13][8] == b[8] && a[..13][8] == a[8];
    assert r[..23][13] == r[13] && c[..23][13] == c[13];
    assert r[..23][8] == r[8] && c[..23][8] == c[8] && c[..18][8] == c[8] && b[..18][8] == b[8];
    assert RemoveAt(r, 23) == c && RemoveAt(c, 18) == b && RemoveAt(b, 13) == a && RemoveAt(a, 8) == u;
  }

  /**
   * `uuidToDashed`: four inserts of '-' into one list, at 8, 13, 18 and 23.
   * On any input the result is the input cut at 8, 12, 16 and 20 with a dash
   * after each cut (a cut past the end contributes an empty piece).
   */
  method UuidToDashed(uuid: string) returns (r: string)
    ensures |r| == |uuid| + 4
    ensures r == Slice(uuid, 0, 8) + "-" + Slice(uuid, 8, 12) + "-" + Slice(uuid, 12, 16) + "-"
                 + Slice(uuid, 16, 20) + "-" + (if 20 <= |uuid| then uuid[20..] else [])
    ensures |uuid| == 32 ==> r[8] == '-' && r[13] == '-' && r[18] == '-' && r[23] == '-'
    ensures |uuid| == 32 ==> Undash(r) == uuid
  {
    var list := uuid;
    list := InsertAt(list, 8, '-');
    list := InsertAt(list, 13, '-');
    list := InsertAt(list, 18, '-');
    list := InsertAt(list, 23, '-');
    DashedShape(uuid, list);
    if |uuid| == 32 {
      DashedFull(uuid, list);
    }
    r := list;
  }
}
