/** Splitting a MONS/KMONS line into monster specs and dropping unnamed
    ones (parse_des.py:74-108). */
module DesParse {
  import opened Text
  import opened DesCleanup

  // ---------------------------------------------------------------------
  // parse_mons_line

  /** Splitting on either of two separators at once: the reference for
      the split on '/' followed by the split of each piece on ','. */
  function SplitAny(s: string, a: char, b: char): (r: seq<string>)
    ensures |r| >= 1
    ensures forall i :: 0 <= i < |r| ==> a !in r[i] && b !in r[i]
  {
    if s == [] then [""]
    else
      var rest := SplitAny(s[1..], a, b);
      if s[0] == a || s[0] == b then [""] + rest else [[s[0]] + rest[0]] + rest[1..]
  }

  /** Each piece split on `c`, the results concatenated in order. */
  function SplitEach(ps: seq<string>, c: char): seq<string>
  {
    if ps == [] then [] else Split(ps[0], c) + SplitEach(ps[1..], c)
  }

  lemma {:induction false} SplitEachAppend(ps: seq<string>, qs: seq<string>, c: char)
    ensures SplitEach(ps + qs, c) == SplitEach(ps, c) + SplitEach(qs, c)
  {
    if ps == [] {
      assert ps + qs == qs;
    } else {
      SplitEachAppend(ps[1..], qs, c);
      assert (ps + qs)[1..] == ps[1..] + qs;
    }
  }

  lemma SplitEachSnoc(ps: seq<string>, p: string, c: char)
    ensures SplitEach(ps + [p], c) == SplitEach(ps, c) + Split(p, c)
  {
    SplitEachAppend(ps, [p], c);
    assert SplitEach([p], c) == Split(p, c) + SplitEach([], c);
  }

  /** Splitting on '/' and then each piece on ',' is splitting on both. */
  lemma {:induction false} SplitTwice(s: string, a: char, b: char)
    requires a != b
    ensures SplitEach(Split(s, a), b) == SplitAny(s, a, b)
  {
    if s == [] {
      assert SplitEach([""], b) == Split("", b) + SplitEach([], b);
    } else {
      SplitTwice(s[1..], a, b);
      if s[0] == a {
        SplitTwiceAtFirst(s, a, b);
      } else if s[0] == b {
        SplitTwiceAtSecond(s, a, b);
      } else {
        SplitTwiceAtOther(s, a, b);
      }
    }
  }

  lemma SplitTwiceAtFirst(s: string, a: char, b: char)
    requires s != [] && s[0] == a
    ensures SplitEach(Split(s, a), b) == [""] + SplitEach(Split(s[1..], a), b)
  {
    var ps := [""] + Split(s[1..], a);
    assert Split(s, a) == ps;
    assert ps[0] == "" && ps[1..] == Split(s[1..], a);
  }

  lemma SplitTwiceAtSecond(s: string, a: char, b: char)
    requires s != [] && s[0] == b && a != b
    ensures SplitEach(Split(s, a), b) == [""] + SplitEach(Split(s[1..], a), b)
  {
    var rest := Split(s[1..], a);
    var p := [s[0]] + rest[0];
    var ps := [p] + rest[1..];
    assert Split(s, a) == ps;
    assert ps[0] == p && ps[1..] == rest[1..];
    assert p[1..] == rest[0];
    assert Split(p, b) == [""] + Split(rest[0], b);
    assert SplitEach(rest, b) == Split(rest[0], b) + SplitEach(rest[1..], b);
  }

  lemma SplitTwiceAtOther(s: string, a: char, b: char)
    requires s != [] && s[0] != a && s[0] != b
    ensures var t := SplitEach(Split(s[1..], a), b);
      SplitEach(Split(s, a), b) == [[s[0]] + t[0]] + t[1..]
  {
    var rest := Split(s[1..], a);
    var p := [s[0]] + rest[0];
    var ps := [p] + rest[1..];
    assert Split(s, a) == ps;
    assert ps[0] == p && ps[1..] == rest[1..];
    assert p[1..] == rest[0];
    var q := Split(rest[0], b);
    assert Split(p, b) == [[s[0]] + q[0]] + q[1..];
    assert SplitEach(rest, b) == q + SplitEach(rest[1..], b);
  }

  /** One piece more than there are separators of either kind. */
  lemma {:induction false} SplitAnyCount(s: string, a: char, b: char)
    requires a != b
    ensures |SplitAny(s, a, b)| == Count(s, a) + Count(s, b) + 1
  {
    if s != [] {
      SplitAnyCount(s[1..], a, b);
    }
  }

  /** The pieces of the cleaned line, before each is cleaned again. */
  function MonsPieces(line: string): seq<string>
  {
    SplitAny(CleanupMonsLine(line), '/', ',')
  }

  /** `[cleanup_mons_line(m) for m in ms]`. */
  function CleanAll(ms: seq<string>): (r: seq<string>)
    ensures |r| == |ms|
    ensures forall k :: 0 <= k < |ms| ==> r[k] == CleanupMonsLine(ms[k])
  {
    seq(|ms|, k requires 0 <= k < |ms| => CleanupMonsLine(ms[k]))
  }

  /** What `parse_mons_line` returns. */
  function ParsedMonsLine(line: string): seq<string>
  {
    CleanAll(MonsPieces(line))
  }

  /** One entry per '/'- or ','-separated piece of the cleaned line, in
      order, each cleaned; no entry holds a separator. */
  lemma ParsedMonsLineShape(line: string)
    ensures var l := CleanupMonsLine(line);
      var r := ParsedMonsLine(line);
      |r| == Count(l, '/') + Count(l, ',') + 1
      && (forall k :: 0 <= k < |r| ==> r[k] == CleanupMonsLine(SplitAny(l, '/', ',')[k]))
      && (forall k :: 0 <= k < |r| ==> '/' !in r[k] && ',' !in r[k])
  {
    var l := CleanupMonsLine(line);
    SplitAnyCount(l, '/', ',');
    var ps := MonsPieces(line);
    var r := ParsedMonsLine(line);
    forall k | 0 <= k < |r| ensures '/' !in r[k] && ',' !in r[k] {
      forall i | 0 <= i < |r[k]| ensures r[k][i] != '/' && r[k][i] != ',' {
        assert r[k][i] in ps[k];
      }
    }
  }

  /** One pass of `parse_mons_line`'s loop: a piece holding ',' is split
      on it, any other piece is kept as it is. */
  method SplitNext(monsters: seq<string>, i: nat, newMonsters: seq<string>) returns (newMonsters': seq<string>)
    requires i < |monsters|
    requires newMonsters == SplitEach(monsters[..i], ',')
    ensures newMonsters' == SplitEach(monsters[..i + 1], ',')
  {
    var monster := monsters[i];
    if ',' in monster {
      newMonsters' := newMonsters + Split(monster, ',');
    } else {
      SplitAbsent(monster, ',');
      newMonsters' := newMonsters + [monster];
    }
    assert monsters[..i + 1] == monsters[..i] + [monster];
    SplitEachSnoc(monsters[..i], monster, ',');
  }

  /** `parse_mons_line`. */
  method ParseMonsLine(line: string) returns (r: seq<string>)
    ensures r == ParsedMonsLine(line)
  {
    var cleaned := CleanupMonsLine(line);
    var monsters := Split(cleaned, '/');
    var newMonsters: seq<string> := [];
    var i := 0;
    assert monsters[..0] == [];
    while i < |monsters|
      invariant 0 <= i <= |monsters|
      invariant newMonsters == SplitEach(monsters[..i], ',')
    {
      newMonsters := SplitNext(monsters, i, newMonsters);
      i := i + 1;
    }
    assert monsters[..i] == monsters;
    SplitTwice(cleaned, '/', ',');
    r := CleanAll(newMonsters);
  }

  // ---------------------------------------------------------------------
  // cull_unnamed_monsters

  /** The entries that contain "name", in order. */
  function Named(ms: seq<string>): seq<string>
  {
    if ms == [] then []
    else Named(ms[..|ms| - 1]) + (if Contains(ms[|ms| - 1], "name") then [ms[|ms| - 1]] else [])
  }

  /** Each entry keeps its multiplicity when it contains "name" and
      disappears otherwise. */
  lemma {:induction false} NamedCounts(ms: seq<string>, m: string)
    ensures multiset(Named(ms))[m] == if Contains(m, "name") then multiset(ms)[m] else 0
  {
    if ms != [] {
      var init := ms[..|ms| - 1];
      NamedCounts(init, m);
      assert ms == init + [ms[|ms| - 1]];
    }
  }

  /** Culling distributes over concatenation, so the order is kept. */
  lemma {:induction false} NamedAppend(ms: seq<string>, ns: seq<string>)
    ensures Named(ms + ns) == Named(ms) + Named(ns)
  {
    if ns == [] {
      assert ms + ns == ms;
    } else {
      var init := ns[..|ns| - 1];
      NamedAppend(ms, init);
      assert (ms + ns)[..|ms + ns| - 1] == ms + init;
    }
  }

  /** Culling keeps a list of named entries whole. */
  lemma {:induction false} NamedAllNamed(ms: seq<string>)
    requires forall i :: 0 <= i < |ms| ==> Contains(ms[i], "name")
    ensures Named(ms) == ms
  {
    if ms != [] {
      var init := ms[..|ms| - 1];
      assert forall i :: 0 <= i < |init| ==> init[i] == ms[i];
      NamedAllNamed(init);
      assert Contains(ms[|ms| - 1], "name");
      assert init + [ms[|ms| - 1]] == ms;
    }
  }

  /** `cull_unnamed_monsters`. */
  method CullUnnamedMonsters(lines: seq<string>) returns (r: seq<string>)
    ensures r == Named(lines)
  {
    r := [];
    var i := 0;
    while i < |lines|
      invariant 0 <= i <= |lines|
      invariant r == Named(lines[..i])
    {
      var mons := lines[i];
      assert lines[..i + 1][..i] == lines[..i];
      i := i + 1;
      if !Contains(mons, "name") {
        continue;
      }
      r := r + [mons];
    }
    assert lines[..i] == lines;
  }
}
