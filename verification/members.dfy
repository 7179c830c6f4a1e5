/** The member list: the comma-separated text of the settings box becomes a
    list of trimmed, non-empty names, and the box is pre-filled with the
    current names joined by ", ". */
module Members {

  /** The characters Python's `str.strip()` removes are those for which
      `str.isspace()` holds: the code points of these ranges, bounds
      included. */
  const SpaceRangeCount := 10

  function SpaceRange(k: nat): (bounds: (int, int))
    requires k < SpaceRangeCount
    ensures bounds.0 <= bounds.1
  {
    match k
    case 0 => (0x09, 0x0D)
    case 1 => (0x1C, 0x20)
    case 2 => (0x85, 0x85)
    case 3 => (0xA0, 0xA0)
    case 4 => (0x1680, 0x1680)
    case 5 => (0x2000, 0x200A)
    case 6 => (0x2028, 0x2029)
    case 7 => (0x202F, 0x202F)
    case 8 => (0x205F, 0x205F)
    case _ => (0x3000, 0x3000)
  }

  /** `n` lies in one of the ranges from the `k`-th on. */
  predicate InSpaceRanges(n: int, k: nat)
    decreases SpaceRangeCount - k
  {
    k < SpaceRangeCount && (SpaceRange(k).0 <= n <= SpaceRange(k).1 || InSpaceRanges(n, k + 1))
  }

  predicate IsSpace(c: char) {
    InSpaceRanges(c as int, 0)
  }

  /** A character is whitespace exactly when its code point lies in one of
      the ranges. */
  lemma {:induction false} IsSpaceRanges(c: char)
    ensures IsSpace(c) <==>
      exists q :: 0 <= q < SpaceRangeCount && SpaceRange(q).0 <= c as int <= SpaceRange(q).1
  {
    InSpaceRangesFrom(c as int, 0);
  }

  lemma {:induction false} InSpaceRangesFrom(n: int, k: nat)
    ensures InSpaceRanges(n, k) <==>
      exists q :: k <= q < SpaceRangeCount && SpaceRange(q).0 <= n <= SpaceRange(q).1
    decreases SpaceRangeCount - k
  {
    if k < SpaceRangeCount {
      InSpaceRangesFrom(n, k + 1);
      if q :| k <= q < SpaceRangeCount && SpaceRange(q).0 <= n <= SpaceRange(q).1 {
        if q > k {
          assert k + 1 <= q;
        }
      }
    }
  }

  /** Nothing but whitespace. */
  predicate AllSpace(s: string) {
    s == [] || (IsSpace(s[0]) && AllSpace(s[1..]))
  }

  lemma {:induction false} AllSpaceCons(c: char, t: string)
    requires IsSpace(c) && AllSpace(t)
    ensures AllSpace([c] + t)
  {
    assert ([c] + t)[1..] == t;
  }

  /** Neither end of `s` is whitespace. */
  predicate Stripped(s: string) {
    s == [] || (!IsSpace(s[0]) && !IsSpace(s[|s| - 1]))
  }

  /** What the member parser keeps: non-empty, already stripped, and free of
      the separator, so that joining and re-parsing gives it back. */
  predicate ValidName(n: string) {
    n != [] && Stripped(n) && ',' !in n
  }

  /** `s` without its leading whitespace: a suffix of `s` whose removed
      prefix is all whitespace (and whose first character is not, as
      `TrimLeftHead` shows). */
  function TrimLeft(s: string): (r: string)
    ensures |r| <= |s| && r == s[|s| - |r|..]
    ensures AllSpace(s[..|s| - |r|])
  {
    if s != [] && IsSpace(s[0]) then
      var r := TrimLeft(s[1..]);
      var k := |s| - |r|;
      assert s[1..][k - 1..] == s[k..];
      AllSpaceCons(s[0], s[1..][..k - 1]);
      assert [s[0]] + s[1..][..k - 1] == s[..k];
      r
    else
      assert s[..0] == [] && s[0..] == s;
      s
  }

  /** What is left after the leading whitespace does not start with
      whitespace. */
  lemma {:induction false} TrimLeftHead(s: string)
    ensures TrimLeft(s) == [] || !IsSpace(TrimLeft(s)[0])
  {
    if s != [] && IsSpace(s[0]) {
      TrimLeftHead(s[1..]);
    }
  }

  /** `s` without its trailing whitespace: a prefix of `s` whose removed
      suffix is all whitespace and whose last character is not. */
  function TrimRight(s: string): (r: string)
    ensures |r| <= |s| && r == s[..|r|]
    ensures AllSpace(s[|r|..])
    ensures r == [] || !IsSpace(r[|r| - 1])
  {
    if s != [] && IsSpace(s[|s| - 1]) then
      var init := s[..|s| - 1];
      var r := TrimRight(init);
      assert init[..|r|] == s[..|r|];
      assert s[|r|..] == init[|r|..] + [s[|s| - 1]];
      AllSpaceAppend(init[|r|..], [s[|s| - 1]]);
      r
    else
      assert s[..|s|] == s && s[|s|..] == [];
      s
  }

  /** Python's `str.strip()` with no argument. */
  function Strip(s: string): (r: string)
    ensures Stripped(r)
    ensures r == [] <==> AllSpace(s)
    ensures Stripped(s) ==> r == s
    ensures forall c :: c in r ==> c in s
    ensures exists i, j :: 0 <= i <= j <= |s| && r == s[i..j] && AllSpace(s[..i]) && AllSpace(s[j..])
  {
    TrimBothSlice(s);
    TrimBothStripped(s);
    TrimBothEmpty(s);
    TrimBothKeeps(s);
    TrimRight(TrimLeft(s))
  }

  /** Trimming both ends keeps a slice `s[i..j]` and removes only
      whitespace before `i` and after `j`. */
  lemma {:induction false} TrimBothSlice(s: string)
    ensures exists i, j :: 0 <= i <= j <= |s| && TrimRight(TrimLeft(s)) == s[i..j] && AllSpace(s[..i]) && AllSpace(s[j..])
  {
    var t := TrimLeft(s);
    var i := |s| - |t|;
    var r := TrimRight(t);
    var j := i + |r|;
    assert t == s[i..] && AllSpace(s[..i]);
    assert r == t[..|r|] && AllSpace(t[|r|..]);
    assert s[i..][..|r|] == s[i..j];
    assert s[i..][|r|..] == s[j..];
  }

  lemma {:induction false} TrimBothStripped(s: string)
    ensures Stripped(TrimRight(TrimLeft(s)))
  {
    TrimLeftHead(s);
    var t := TrimLeft(s);
    var r := TrimRight(t);
    if r != [] {
      assert r[0] == t[0];
    }
  }

  lemma {:induction false} TrimBothEmpty(s: string)
    ensures TrimRight(TrimLeft(s)) == [] <==> AllSpace(s)
  {
    if AllSpace(s) {
      TrimLeftAllSpace(s);
    }
    if TrimRight(TrimLeft(s)) == [] {
      TrimmedAway(s);
    }
  }

  lemma {:induction false} TrimLeftAllSpace(s: string)
    requires AllSpace(s)
    ensures TrimLeft(s) == []
  {
    if s != [] {
      TrimLeftAllSpace(s[1..]);
    }
  }

  lemma {:induction false} TrimmedAway(s: string)
    requires TrimRight(TrimLeft(s)) == []
    ensures AllSpace(s)
  {
    var t := TrimLeft(s);
    var k := |s| - |t|;
    assert AllSpace(t) by {
      assert t[0..] == t;
    }
    AllSpaceAppend(s[..k], t);
    assert s[..k] + t == s;
  }

  lemma {:induction false} AllSpaceAppend(a: string, b: string)
    requires AllSpace(a) && AllSpace(b)
    ensures AllSpace(a + b)
  {
    if a == [] {
      assert a + b == b;
    } else {
      AllSpaceAppend(a[1..], b);
      assert (a + b)[1..] == a[1..] + b;
    }
  }

  lemma {:induction false} TrimBothKeeps(s: string)
    ensures Stripped(s) ==> TrimRight(TrimLeft(s)) == s
  {
    if s != [] && Stripped(s) {
      assert TrimLeft(s) == s;
      assert TrimRight(s) == s;
    }
  }

  /** Python's `s.split(",")`: the pieces between commas, in order; the empty
      string gives one empty piece. */
  function Split(s: string): (pieces: seq<string>)
    ensures |pieces| >= 1
    ensures forall p :: p in pieces ==> ',' !in p
  {
    if s == [] then [[]]
    else
      var rest := Split(s[1..]);
      if s[0] == ',' then [[]] + rest else [[s[0]] + rest[0]] + rest[1..]
  }

  /** Python's `sep.join(ps)`. */
  function JoinWith(ps: seq<string>, sep: string): string {
    if ps == [] then []
    else if |ps| == 1 then ps[0]
    else ps[0] + sep + JoinWith(ps[1..], sep)
  }

  /** Stripped pieces, with the empty ones dropped. */
  function Clean(ps: seq<string>): (names: seq<string>)
    requires forall p :: p in ps ==> ',' !in p
    ensures forall n :: n in names ==> ValidName(n)
  {
    if ps == [] then []
    else
      assert forall p :: p in ps[1..] ==> p in ps;
      var t := Strip(ps[0]);
      (if t == [] then [] else [t]) + Clean(ps[1..])
  }

  /** The member list built from the settings text (app.py:28): the text is
      cut at every comma, each piece stripped of surrounding whitespace, and
      the pieces left empty dropped. */
  function ParseMembers(s: string): (names: seq<string>)
    ensures forall n :: n in names ==> ValidName(n)
  {
    Clean(Split(s))
  }

  /** Joining the pieces of `s` with "," gives `s` back. */
  lemma {:induction false} JoinSplit(s: string)
    ensures JoinWith(Split(s), ",") == s
  {
    if s != [] {
      var rest := Split(s[1..]);
      JoinSplit(s[1..]);
      if s[0] == ',' {
        assert Split(s) == [[]] + rest;
      } else {
        var ps := [[s[0]] + rest[0]] + rest[1..];
        assert Split(s) == ps;
        if |rest| == 1 {
          assert JoinWith(ps, ",") == [s[0]] + rest[0];
        } else {
          assert ps[1..] == rest[1..];
          assert JoinWith(ps, ",") == [s[0]] + (rest[0] + "," + JoinWith(rest[1..], ","));
        }
      }
    }
  }

  /** Text without a comma is a single piece. */
  lemma {:induction false} SplitNoComma(s: string)
    requires ',' !in s
    ensures Split(s) == [s]
  {
    if s != [] {
      assert ',' !in s[1..] by { assert forall c :: c in s[1..] ==> c in s; }
      SplitNoComma(s[1..]);
      assert [s[0]] + s[1..] == s;
    }
  }

  /** A comma after comma-free text ends exactly one piece. */
  lemma {:induction false} SplitAtComma(a: string, b: string)
    requires ',' !in a
    ensures Split(a + [','] + b) == [a] + Split(b)
  {
    if a == [] {
      assert a + [','] + b == [','] + b;
      assert ([','] + b)[1..] == b;
    } else {
      var s := a + [','] + b;
      assert s[1..] == a[1..] + [','] + b;
      assert ',' !in a[1..] by { assert forall c :: c in a[1..] ==> c in a; }
      SplitAtComma(a[1..], b);
      assert [a[0]] + a[1..] == a;
    }
  }

  /** Leading whitespace in front of a valid name is stripped away. */
  lemma {:induction false} TrimLeftSpaces(pfx: string, n: string)
    requires AllSpace(pfx)
    requires n != [] && !IsSpace(n[0])
    ensures TrimLeft(pfx + n) == n
  {
    if pfx != [] {
      assert (pfx + n)[1..] == pfx[1..] + n;
      TrimLeftSpaces(pfx[1..], n);
    } else {
      assert pfx + n == n;
    }
  }

  lemma {:induction false} StripSpaces(pfx: string, n: string)
    requires AllSpace(pfx) && ValidName(n)
    ensures Strip(pfx + n) == n
  {
    TrimLeftSpaces(pfx, n);
  }

  /** Re-parsing `pfx` followed by the ", "-joined names gives the names. */
  lemma {:induction false} ParseJoined(pfx: string, names: seq<string>)
    requires AllSpace(pfx) && ',' !in pfx
    requires names != [] && forall n :: n in names ==> ValidName(n)
    ensures Clean(Split(pfx + JoinWith(names, ", "))) == names
    decreases |names|
  {
    var n0 := names[0];
    assert ValidName(n0);
    if |names| == 1 {
      assert names == [n0] && JoinWith(names, ", ") == n0;
      ParseSingle(pfx, n0);
    } else {
      var rest := names[1..];
      assert names == [n0] + rest;
      assert forall n :: n in rest ==> n in names;
      assert AllSpace(" ");
      ParseJoined(" ", rest);
      JoinedShape(pfx, names);
      ParseCons(pfx, n0, " " + JoinWith(rest, ", "), rest);
      assert pfx + JoinWith(names, ", ") == (pfx + n0) + [','] + (" " + JoinWith(rest, ", "));
    }
  }

  /** A name after whitespace parses to that name alone. */
  lemma {:induction false} ParseSingle(pfx: string, n0: string)
    requires AllSpace(pfx) && ',' !in pfx && ValidName(n0)
    ensures Clean(Split(pfx + n0)) == [n0]
  {
    StripSpaces(pfx, n0);
    assert ',' !in pfx + n0;
    SplitNoComma(pfx + n0);
    CleanHead(pfx + n0, [], n0);
    assert [n0] + Clean([]) == [n0];
  }

  /** A name after whitespace, then a comma, then text that parses to
      `rest`, parses to the name followed by `rest`. */
  lemma {:induction false} ParseCons(pfx: string, n0: string, tail: string, rest: seq<string>)
    requires AllSpace(pfx) && ',' !in pfx && ValidName(n0)
    requires Clean(Split(tail)) == rest
    ensures Clean(Split((pfx + n0) + [','] + tail)) == [n0] + rest
  {
    StripSpaces(pfx, n0);
    assert ',' !in pfx + n0;
    SplitAtComma(pfx + n0, tail);
    CleanHead(pfx + n0, Split(tail), n0);
  }

  /** A piece that strips to a non-empty name contributes that name. */
  lemma {:induction false} CleanHead(p: string, ps: seq<string>, n: string)
    requires ',' !in p && forall q :: q in ps ==> ',' !in q
    requires Strip(p) == n && n != []
    ensures Clean([p] + ps) == [n] + Clean(ps)
  {
    assert ([p] + ps)[1..] == ps;
  }

  lemma {:induction false} JoinedShape(pfx: string, names: seq<string>)
    requires |names| >= 2
    ensures pfx + JoinWith(names, ", ") == (pfx + names[0]) + [','] + (" " + JoinWith(names[1..], ", "))
  {
    var j := JoinWith(names[1..], ", ");
    var n0 := names[0];
    assert JoinWith(names, ", ") == n0 + ", " + j;
    calc {
      pfx + (n0 + ", " + j);
      (pfx + n0) + (", " + j);
      { assert ", " + j == [','] + (" " + j); }
      (pfx + n0) + ([','] + (" " + j));
      (pfx + n0) + [','] + (" " + j);
    }
  }

  /** The settings box is pre-filled with the names joined by ", " (app.py:26):
      submitting it unchanged gives back the same member list, provided each
      name is one the parser can produce. */
  lemma {:induction false} ParseJoinRoundTrip(names: seq<string>)
    requires forall n :: n in names ==> ValidName(n)
    ensures ParseMembers(JoinWith(names, ", ")) == names
  {
    if names == [] {
      ParseNothing();
    } else {
      ParseJoined([], names);
      assert [] + JoinWith(names, ", ") == JoinWith(names, ", ");
    }
  }

  /** An empty settings box gives no members. */
  lemma {:induction false} ParseNothing()
    ensures ParseMembers([]) == []
  {
    var pieces: seq<string> := [[]];
    assert Split([]) == pieces;
    assert Strip([]) == [];
    assert pieces[1..] == [];
  }

  /** Parsing is stable: re-parsing the joined result of a parse changes
      nothing. */
  lemma {:induction false} ParseIdempotent(s: string)
    ensures ParseMembers(JoinWith(ParseMembers(s), ", ")) == ParseMembers(s)
  {
    ParseJoinRoundTrip(ParseMembers(s));
  }

  /** Text without a comma is one name: its stripped self, or nothing when
      it is all whitespace. */
  lemma {:induction false} ParseNoComma(p: string)
    requires ',' !in p
    ensures ParseMembers(p) == if AllSpace(p) then [] else [Strip(p)]
  {
    SplitNoComma(p);
    var ps: seq<string> := [p];
    var t := Strip(p);
    assert ps[1..] == [] && Clean(ps[1..]) == [];
    assert Clean(ps) == (if t == [] then [] else [t]) + Clean(ps[1..]);
    assert t == [] <==> AllSpace(p);
  }

  /** A comma ends a name: the names before the first comma followed by the
      names after it. */
  lemma {:induction false} ParseAtComma(a: string, b: string)
    requires ',' !in a
    ensures ParseMembers(a + [','] + b) == ParseMembers(a) + ParseMembers(b)
  {
    SplitAtComma(a, b);
    ParseNoComma(a);
    assert ([a] + Split(b))[1..] == Split(b);
  }

  predicate Distinct(ns: seq<string>) {
    forall i, j :: 0 <= i < j < |ns| ==> ns[i] != ns[j]
  }

  /** The position of the first `n` in `ns`. */
  function FirstIndex(ns: seq<string>, n: string): (k: nat)
    requires n in ns
    ensures k < |ns| && ns[k] == n && n !in ns[..k]
  {
    if ns[0] == n then 0
    else
      var k := FirstIndex(ns[1..], n);
      assert ns[..k + 1] == [ns[0]] + ns[1..][..k];
      k + 1
  }

  /** Appending leaves the first positions of the names already there. */
  lemma {:induction false} FirstIndexAppend(ns: seq<string>, x: string, n: string)
    requires n in ns
    ensures FirstIndex(ns + [x], n) == FirstIndex(ns, n)
  {
    if ns[0] != n {
      assert (ns + [x])[1..] == ns[1..] + [x];
      FirstIndexAppend(ns[1..], x, n);
    }
  }

  /** The names of `ns` in order of first appearance, each once: the key
      order of a Python dict built from `ns`. */
  function Dedup(ns: seq<string>): (r: seq<string>)
    ensures Distinct(r)
    ensures forall n :: n in r <==> n in ns
    ensures forall a, b :: 0 <= a < b < |r| ==> FirstIndex(ns, r[a]) < FirstIndex(ns, r[b])
    ensures Distinct(ns) ==> r == ns
  {
    if ns == [] then []
    else
      var init, x := ns[..|ns| - 1], ns[|ns| - 1];
      var d := Dedup(init);
      assert ns == init + [x];
      assert forall n :: n in init ==> n in ns;
      DedupOrder(init, x, d);
      if x in d then d else d + [x]
  }

  /** The step of `Dedup`: first positions in `init` are first positions in
      `init + [x]`, and a new `x` comes after all of them. */
  lemma {:induction false} DedupOrder(init: seq<string>, x: string, d: seq<string>)
    requires forall n :: n in d <==> n in init
    requires forall a, b :: 0 <= a < b < |d| ==> FirstIndex(init, d[a]) < FirstIndex(init, d[b])
    ensures forall a, b :: 0 <= a < b < |d| ==> FirstIndex(init + [x], d[a]) < FirstIndex(init + [x], d[b])
    ensures x !in d ==> forall a :: 0 <= a < |d| ==> FirstIndex(init + [x], d[a]) < FirstIndex(init + [x], x)
  {
    forall n | n in init ensures FirstIndex(init + [x], n) == FirstIndex(init, n) {
      FirstIndexAppend(init, x, n);
    }
    if x !in d {
      assert (init + [x])[..|init|] == init;
      assert FirstIndex(init + [x], x) == |init|;
    }
  }
}
