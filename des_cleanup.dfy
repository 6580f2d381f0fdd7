/** The text cleanups of the vault monster extractor (parse_des.py:38-72):
    whitespace collapsing, the two escaped-newline cleanups applied to a
    whole .des file, and `cleanup_mons_line`. Python 2 byte strings are
    modelled as `string`; `\s` and `str.strip` use the six whitespace
    characters of `Text.IsSpace`. */
module DesCleanup {
  import opened Text

  // ---------------------------------------------------------------------
  // CLEANUP_WHITESPACE

  /** `re.sub("(\s)+", r"\1", s)`: every run of whitespace becomes one
      character. The group is captured once per repetition, so `\1` is the
      LAST whitespace character of the run. */
  function CollapseWhitespace(s: string): (r: string)
    ensures |r| <= |s|
    ensures s != [] ==> r != [] && r[|r| - 1] == s[|s| - 1]
    ensures s != [] ==> (IsSpace(r[0]) <==> IsSpace(s[0]))
    ensures NoAdjacentSpaces(r)
    ensures CharsWithin(r, s)
  {
    if s == [] then []
    else if |s| >= 2 && IsSpace(s[0]) && IsSpace(s[1]) then CollapseWhitespace(s[1..])
    else [s[0]] + CollapseWhitespace(s[1..])
  }

  /** The characters of `s` that are not whitespace, in order. */
  function Visible(s: string): (r: string)
    ensures forall i :: 0 <= i < |r| ==> !IsSpace(r[i])
  {
    if s == [] then [] else (if IsSpace(s[0]) then [] else [s[0]]) + Visible(s[1..])
  }

  /** Collapsing removes whitespace only: the visible text is unchanged. */
  lemma {:induction false} CollapseKeepsVisible(s: string)
    ensures Visible(CollapseWhitespace(s)) == Visible(s)
  {
    if s != [] {
      CollapseKeepsVisible(s[1..]);
      if !(|s| >= 2 && IsSpace(s[0]) && IsSpace(s[1])) {
        var r := CollapseWhitespace(s[1..]);
        assert ([s[0]] + r)[1..] == r;
      }
    }
  }

  /** Stripping removes whitespace only: the visible text is unchanged. */
  lemma {:induction false} StripKeepsVisible(s: string)
    ensures Visible(Strip(s)) == Visible(s)
    decreases |s|
  {
    if s != [] {
      if IsSpace(s[0]) {
        StripKeepsVisible(s[1..]);
      } else if IsSpace(s[|s| - 1]) {
        StripKeepsVisible(s[..|s| - 1]);
        VisibleDropLast(s);
      }
    }
  }

  /** Trailing whitespace is not visible. */
  lemma {:induction false} VisibleDropLast(s: string)
    requires s != [] && IsSpace(s[|s| - 1])
    ensures Visible(s) == Visible(s[..|s| - 1])
    decreases |s|
  {
    if |s| == 1 {
      assert s[1..] == [] && s[..0] == [];
    } else {
      var t := s[1..];
      VisibleDropLast(t);
      assert t[..|t| - 1] == s[..|s| - 1][1..];
    }
  }

  /** A string without two adjacent whitespace characters is left alone,
      so collapsing twice is collapsing once. */
  lemma {:induction false} CollapseFixedPoint(s: string)
    requires NoAdjacentSpaces(s)
    ensures CollapseWhitespace(s) == s
  {
    if s != [] {
      assert NoAdjacentSpaces(s[1..]) by {
        forall i | 0 <= i < |s[1..]| - 1 ensures !(IsSpace(s[1..][i]) && IsSpace(s[1..][i + 1])) {
          assert s[1..][i] == s[i + 1] && s[1..][i + 1] == s[i + 2];
        }
      }
      CollapseFixedPoint(s[1..]);
      assert [s[0]] + s[1..] == s;
    }
  }

  lemma CollapseIdempotent(s: string)
    ensures CollapseWhitespace(CollapseWhitespace(s)) == CollapseWhitespace(s)
  {
    CollapseFixedPoint(CollapseWhitespace(s));
  }

  /** A whole run of whitespace becomes its last character: a space
      followed by a tab becomes the tab, not the space. */
  lemma {:induction false} LastOfRunKept(w: string, t: string)
    requires |w| >= 1 && (forall i :: 0 <= i < |w| ==> IsSpace(w[i]))
    requires t == [] || !IsSpace(t[0])
    ensures CollapseWhitespace(w + t) == [w[|w| - 1]] + CollapseWhitespace(t)
    decreases |w|
  {
    if |w| == 1 {
      assert w + t == [w[0]] + t;
      CollapseKeeps(w[0], t);
    } else {
      var rest := w[1..];
      assert w + t == [w[0]] + (rest + t);
      assert (rest + t)[0] == w[1];
      CollapseDrops(w[0], rest + t);
      LastOfRunKept(rest, t);
      assert rest[|rest| - 1] == w[|w| - 1];
    }
  }

  /** A character not followed by a second whitespace character stays. */
  lemma CollapseKeeps(x: char, t: string)
    requires !IsSpace(x) || t == [] || !IsSpace(t[0])
    ensures CollapseWhitespace([x] + t) == [x] + CollapseWhitespace(t)
  {
    assert ([x] + t)[1..] == t;
  }

  /** A whitespace character followed by another one goes. */
  lemma CollapseDrops(x: char, t: string)
    requires IsSpace(x) && t != [] && IsSpace(t[0])
    ensures CollapseWhitespace([x] + t) == CollapseWhitespace(t)
  {
    assert ([x] + t)[1..] == t;
  }

  // ---------------------------------------------------------------------
  // CLEANUP_SPELLS and CLEANUP_LINES

  /** `re.sub(";\\\n", ";", s)`: the pattern is ';' followed by an escaped
      line feed, so a line feed right after ';' is deleted. */
  function CleanupSpells(s: string): string
  {
    ReplaceAll(s, ";\n", ";")
  }

  /** `s.replace("\\\n", "")`: every backslash-newline pair is deleted. */
  function CleanupLines(s: string): string
  {
    ReplaceAll(s, "\\\n", "")
  }

  /** The two cleanups in the order `generate_monster_lines` applies them. */
  function CleanupData(s: string): string
  {
    CleanupLines(CleanupSpells(s))
  }

  /** `s` without any `c`. */
  function Without(s: string, c: char): string
  {
    if s == [] then [] else (if s[0] == c then [] else [s[0]]) + Without(s[1..], c)
  }

  /** The number of positions where `a` is directly followed by `b`. */
  function PairCount(s: string, a: char, b: char): nat
  {
    if |s| < 2 then 0 else (if s[0] == a && s[1] == b then 1 else 0) + PairCount(s[1..], a, b)
  }

  lemma MatchPair(s: string, a: char, b: char)
    ensures MatchAt(s, [a, b], 0) <==> |s| >= 2 && s[0] == a && s[1] == b
  {
    if |s| >= 2 {
      assert s[0..2] == [s[0], s[1]];
    }
  }

  /** CLEANUP_SPELLS deletes exactly one line feed per ";" + line feed
      pair, and nothing but line feeds. */
  lemma {:induction false} CleanupSpellsDropsLineFeeds(s: string)
    ensures Without(CleanupSpells(s), '\n') == Without(s, '\n')
    ensures |CleanupSpells(s)| == |s| - PairCount(s, ';', '\n')
    decreases |s|
  {
    if s != [] {
      MatchPair(s, ';', '\n');
      assert [s[0]] + s[1..] == s;
      WithoutCons(s[0], s[1..], '\n');
      if MatchAt(s, ";\n", 0) {
        CleanupSpellsDropsLineFeeds(s[2..]);
        var r := CleanupSpells(s[2..]);
        assert CleanupSpells(s) == [';'] + r;
        WithoutCons(';', r, '\n');
        assert [s[1]] + s[2..] == s[1..];
        WithoutCons(s[1], s[2..], '\n');
        assert [] + Without(s[2..], '\n') == Without(s[2..], '\n');
      } else {
        CleanupSpellsDropsLineFeeds(s[1..]);
        var r := CleanupSpells(s[1..]);
        assert CleanupSpells(s) == [s[0]] + r;
        WithoutCons(s[0], r, '\n');
      }
    }
  }

  /** CLEANUP_LINES deletes both characters of every backslash-newline
      pair and nothing else. */
  lemma {:induction false} CleanupLinesDropsPairs(s: string)
    ensures Without(Without(CleanupLines(s), '\\'), '\n') == Without(Without(s, '\\'), '\n')
    ensures |CleanupLines(s)| == |s| - 2 * PairCount(s, '\\', '\n')
    decreases |s|
  {
    if s != [] {
      MatchPair(s, '\\', '\n');
      if MatchAt(s, "\\\n", 0) {
        CleanupLinesDropsPairs(s[2..]);
        assert s[1..][1..] == s[2..];
        assert CleanupLines(s) == CleanupLines(s[2..]);
        WithoutCons(s[0], s[1..], '\\');
        assert [s[0]] + s[1..] == s;
        assert [s[1]] + s[2..] == s[1..];
        WithoutCons(s[1], s[2..], '\\');
        WithoutCons(s[1], Without(s[2..], '\\'), '\n');
        assert Without(s, '\\') == Without(s[1..], '\\');
        assert Without(s[1..], '\\') == [s[1]] + Without(s[2..], '\\');
      } else {
        CleanupLinesDropsPairs(s[1..]);
        var r := CleanupLines(s[1..]);
        assert CleanupLines(s) == [s[0]] + r;
        assert [s[0]] + s[1..] == s;
        WithoutCons(s[0], r, '\\');
        WithoutCons(s[0], s[1..], '\\');
        if s[0] != '\\' {
          WithoutCons(s[0], Without(r, '\\'), '\n');
          WithoutCons(s[0], Without(s[1..], '\\'), '\n');
        } else {
          assert Without([s[0]] + r, '\\') == Without(r, '\\');
          assert Without(s, '\\') == Without(s[1..], '\\');
        }
      }
    }
  }

  /** Position by position: the characters of `s` from `i` on, leaving
      out each line feed that directly follows a ';' of `s`. */
  function DropAfter(s: string, i: nat): string
    requires i <= |s|
    decreases |s| - i
  {
    if i == |s| then []
    else (if s[i] == '\n' && i > 0 && s[i - 1] == ';' then [] else [s[i]]) + DropAfter(s, i + 1)
  }

  /** Whether position `i` of `s` belongs to a backslash-newline pair. */
  predicate InPair(s: string, i: nat)
    requires i < |s|
  {
    (s[i] == '\\' && i + 1 < |s| && s[i + 1] == '\n') || (s[i] == '\n' && i > 0 && s[i - 1] == '\\')
  }

  /** Position by position: the characters of `s` from `i` on that do not
      belong to a backslash-newline pair. */
  function DropPairs(s: string, i: nat): string
    requires i <= |s|
    decreases |s| - i
  {
    if i == |s| then [] else (if InPair(s, i) then [] else [s[i]]) + DropPairs(s, i + 1)
  }

  /** CLEANUP_SPELLS keeps every character except the line feeds that
      directly follow a ';'. */
  lemma CleanupSpellsIsDropAfter(s: string)
    ensures CleanupSpells(s) == DropAfter(s, 0)
  {
    assert s[0..] == s;
    CleanupSpellsFrom(s, 0);
  }

  lemma {:induction false} CleanupSpellsFrom(s: string, k: nat)
    requires k <= |s|
    requires k == 0 || k == |s| || !(s[k - 1] == ';' && s[k] == '\n')
    ensures CleanupSpells(s[k..]) == DropAfter(s, k)
    decreases |s| - k
  {
    if k < |s| {
      if k + 1 < |s| && s[k] == ';' && s[k + 1] == '\n' {
        SpellsStepPair(s, k);
        CleanupSpellsFrom(s, k + 2);
      } else {
        SpellsStepOther(s, k);
        CleanupSpellsFrom(s, k + 1);
      }
    }
  }

  lemma SpellsStepPair(s: string, k: nat)
    requires k + 1 < |s| && s[k] == ';' && s[k + 1] == '\n'
    ensures CleanupSpells(s[k..]) == ";" + CleanupSpells(s[k + 2..])
    ensures DropAfter(s, k) == [';'] + DropAfter(s, k + 2)
  {
    var t := s[k..];
    MatchPair(t, ';', '\n');
    assert t[2..] == s[k + 2..];
    assert DropAfter(s, k + 1) == DropAfter(s, k + 2);
  }

  lemma SpellsStepOther(s: string, k: nat)
    requires k < |s| && !(k + 1 < |s| && s[k] == ';' && s[k + 1] == '\n')
    requires k == 0 || !(s[k - 1] == ';' && s[k] == '\n')
    ensures CleanupSpells(s[k..]) == [s[k]] + CleanupSpells(s[k + 1..])
    ensures DropAfter(s, k) == [s[k]] + DropAfter(s, k + 1)
  {
    var t := s[k..];
    MatchPair(t, ';', '\n');
    assert t[1..] == s[k + 1..];
  }

  /** CLEANUP_LINES keeps exactly the characters outside backslash-newline
      pairs. */
  lemma CleanupLinesIsDropPairs(s: string)
    ensures CleanupLines(s) == DropPairs(s, 0)
  {
    assert s[0..] == s;
    CleanupLinesFrom(s, 0);
  }

  lemma {:induction false} CleanupLinesFrom(s: string, k: nat)
    requires k <= |s|
    requires k == 0 || k == |s| || !(s[k - 1] == '\\' && s[k] == '\n')
    ensures CleanupLines(s[k..]) == DropPairs(s, k)
    decreases |s| - k
  {
    if k < |s| {
      if k + 1 < |s| && s[k] == '\\' && s[k + 1] == '\n' {
        LinesStepPair(s, k);
        CleanupLinesFrom(s, k + 2);
      } else {
        LinesStepOther(s, k);
        CleanupLinesFrom(s, k + 1);
      }
    }
  }

  lemma LinesStepPair(s: string, k: nat)
    requires k + 1 < |s| && s[k] == '\\' && s[k + 1] == '\n'
    ensures CleanupLines(s[k..]) == CleanupLines(s[k + 2..])
    ensures DropPairs(s, k) == DropPairs(s, k + 2)
  {
    var t := s[k..];
    MatchPair(t, '\\', '\n');
    assert t[2..] == s[k + 2..];
    assert InPair(s, k) && InPair(s, k + 1);
  }

  lemma LinesStepOther(s: string, k: nat)
    requires k < |s| && !(k + 1 < |s| && s[k] == '\\' && s[k + 1] == '\n')
    requires k == 0 || !(s[k - 1] == '\\' && s[k] == '\n')
    ensures CleanupLines(s[k..]) == [s[k]] + CleanupLines(s[k + 1..])
    ensures DropPairs(s, k) == [s[k]] + DropPairs(s, k + 1)
  {
    var t := s[k..];
    MatchPair(t, '\\', '\n');
    assert t[1..] == s[k + 1..];
    assert !InPair(s, k);
  }

  /** A line feed that does not follow ';' stays, even when a later one
      goes. */
  lemma CleanupSpellsKeepsEarlierFeed()
    ensures CleanupSpells("a\n;\n") == "a\n;"
  {
    CleanupSpellsIsDropAfter("a\n;\n");
  }

  /** A line feed after an ordinary character stays, even when a later
      backslash-newline pair goes. */
  lemma CleanupLinesKeepsLoneFeed()
    ensures CleanupLines("\\a\n\\\n") == "\\a\n"
  {
    CleanupLinesIsDropPairs("\\a\n\\\n");
  }

  lemma WithoutCons(x: char, t: string, c: char)
    ensures Without([x] + t, c) == (if x == c then [] else [x]) + Without(t, c)
  {
    assert ([x] + t)[1..] == t;
  }

  lemma {:induction false} WithoutAppend(s: string, t: string, c: char)
    ensures Without(s + t, c) == Without(s, c) + Without(t, c)
  {
    if s == [] {
      assert s + t == t;
    } else {
      WithoutAppend(s[1..], t, c);
      assert [s[0]] + (s[1..] + t) == s + t;
      WithoutCons(s[0], s[1..] + t, c);
      assert [s[0]] + s[1..] == s;
      WithoutCons(s[0], s[1..], c);
      var h := if s[0] == c then [] else [s[0]];
      assert h + (Without(s[1..], c) + Without(t, c)) == (h + Without(s[1..], c)) + Without(t, c);
    }
  }

  /** The order matters: cleaning lines first would let a ';' that ends a
      continued line swallow the next line feed. */
  lemma SpellsBeforeLines()
    ensures CleanupData(";\\\n\n") == ";\n"
    ensures CleanupSpells(CleanupLines(";\\\n\n")) == ";"
  {
    var s := ";\\\n\n";
    MatchPair(s, ';', '\n');
    MatchPair(s[1..], ';', '\n');
    MatchPair(s[2..], ';', '\n');
    MatchPair(s[3..], ';', '\n');
    assert CleanupSpells(s) == s;
    MatchPair(s, '\\', '\n');
    MatchPair(s[1..], '\\', '\n');
    MatchPair(s[3..], '\\', '\n');
    assert s[1..][2..] == "\n";
    assert CleanupLines(s) == ";\n";
    MatchPair(";\n", ';', '\n');
    assert ";\n"[2..] == [];
  }

  // ---------------------------------------------------------------------
  // cleanup_mons_line

  /** The last piece of `s.split(c)`: the text after the last `c`. */
  function LastPiece(s: string, c: char): (r: string)
    ensures c !in r
  {
    var ps := Split(s, c);
    ps[|ps| - 1]
  }

  /** The last piece is a suffix of `s`, preceded by `c` unless it is the
      whole string, which it is exactly when `s` has no `c`. */
  lemma {:induction false} LastPieceSuffix(s: string, c: char)
    ensures var r := LastPiece(s, c);
      |r| <= |s| && r == s[|s| - |r|..]
      && (|Split(s, c)| == 1 <==> |r| == |s|)
      && (|r| < |s| ==> s[|s| - |r| - 1] == c)
  {
    if s != [] {
      var t := s[1..];
      LastPieceSuffix(t, c);
      LastPieceCons(s, c);
      var rest := Split(t, c);
      var r := LastPiece(t, c);
      assert r == t[|t| - |r|..];
      assert t[|t| - |r|..] == s[|s| - |r|..];
      if s[0] == c {
        if |r| < |t| {
          assert t[|t| - |r| - 1] == s[|s| - |r| - 1];
        }
      } else if |rest| == 1 {
        assert r == t;
        assert [s[0]] + t == s;
      } else {
        assert t[|t| - |r| - 1] == s[|s| - |r| - 1];
      }
    }
  }

  /** The last piece of a nonempty string, from that of its tail. */
  lemma LastPieceCons(s: string, c: char)
    requires s != []
    ensures var rest := Split(s[1..], c);
      |Split(s, c)| == (if s[0] == c then 1 + |rest| else |rest|)
      && LastPiece(s, c) == if s[0] != c && |rest| == 1 then [s[0]] + rest[0] else LastPiece(s[1..], c)
  {
    var rest := Split(s[1..], c);
    if s[0] == c {
      assert Split(s, c) == [""] + rest;
    } else {
      assert Split(s, c) == [[s[0]] + rest[0]] + rest[1..];
    }
  }

  /** The piece after the last '=' when the string has an '=' at `k` and
      none after it. */
  lemma LastPieceAfter(s: string, c: char, k: nat)
    requires k < |s| && s[k] == c && c !in s[k + 1..]
    ensures LastPiece(s, c) == s[k + 1..]
  {
    LastPieceSuffix(s, c);
    var r := LastPiece(s, c);
    var m := |s| - |r|;
    assert forall i :: m <= i < |s| ==> s[i] == r[i - m];
    assert forall i :: k + 1 <= i < |s| ==> s[i] == s[k + 1..][i - k - 1];
  }

  lemma LastPieceWithin(s: string, c: char)
    ensures CharsWithin(LastPiece(s, c), s)
  {
    LastPieceSuffix(s, c);
    var r := LastPiece(s, c);
    assert forall i :: 0 <= i < |r| ==> r[i] == s[|s| - |r| + i];
  }

  /** `cleanup_mons_line` once the KMONS prefix has been dealt with. */
  function Tidy(l: string): (r: string)
    ensures r == [] || (!IsSpace(r[0]) && !IsSpace(r[|r| - 1]))
    ensures NoAdjacentSpaces(r)
    ensures CharsWithin(r, l)
  {
    ReplaceAllDeletes(l, "MONS:");
    Strip(CollapseWhitespace(ReplaceAll(l, "MONS:", "")))
  }

  /** `cleanup_mons_line`: strip; for a KMONS line keep what follows the
      last '='; delete "MONS:"; collapse whitespace; strip. */
  function CleanupMonsLine(line: string): (r: string)
    ensures r == [] || (!IsSpace(r[0]) && !IsSpace(r[|r| - 1]))
    ensures NoAdjacentSpaces(r)
    ensures CharsWithin(r, line)
  {
    var l := Strip(line);
    CleanupWithin(line);
    if StartsWith(l, "KMONS:") then Tidy(Strip(LastPiece(l, '='))) else Tidy(l)
  }

  /** Either way `cleanup_mons_line` goes, only characters of the line
      come out. */
  lemma CleanupWithin(line: string)
    ensures CharsWithin(Tidy(Strip(LastPiece(Strip(line), '='))), line)
    ensures CharsWithin(Tidy(Strip(line)), line)
  {
    var l := Strip(line);
    var p := LastPiece(l, '=');
    LastPieceWithin(l, '=');
    CharsWithinTrans(Strip(p), p, l);
    CharsWithinTrans(Tidy(Strip(p)), Strip(p), l);
    CharsWithinTrans(Tidy(Strip(p)), l, line);
    CharsWithinTrans(Tidy(l), l, line);
  }

  /** Outside KMONS lines, cleaning changes only whitespace: the visible
      text is that of the stripped line with every "MONS:" deleted. */
  lemma CleanupMonsLineVisible(line: string)
    requires !StartsWith(Strip(line), "KMONS:")
    ensures Visible(CleanupMonsLine(line)) == Visible(ReplaceAll(Strip(line), "MONS:", ""))
  {
    var m := ReplaceAll(Strip(line), "MONS:", "");
    StripKeepsVisible(CollapseWhitespace(m));
    CollapseKeepsVisible(m);
  }

  /** A KMONS line is cleaned as the text after its last '=' alone, and
      no '=' survives. */
  lemma KmonsKeepsLastAssignment(line: string, k: nat)
    requires StartsWith(Strip(line), "KMONS:")
    requires k < |Strip(line)| && Strip(line)[k] == '=' && '=' !in Strip(line)[k + 1..]
    ensures CleanupMonsLine(line) == CleanupMonsLine(Strip(line)[k + 1..])
    ensures '=' !in CleanupMonsLine(line)
  {
    var t := Strip(line)[k + 1..];
    LastPieceAfter(Strip(line), '=', k);
    CleanupKmons(line);
    CleanupWithoutEquals(t);
    var r := CleanupMonsLine(t);
    forall i | 0 <= i < |r| ensures r[i] != '=' {
      assert r[i] in t;
    }
  }

  lemma CleanupKmons(line: string)
    requires StartsWith(Strip(line), "KMONS:")
    ensures CleanupMonsLine(line) == Tidy(Strip(LastPiece(Strip(line), '=')))
  {
  }

  /** Without '=', the KMONS step changes nothing. */
  lemma CleanupWithoutEquals(t: string)
    requires '=' !in t
    ensures CleanupMonsLine(t) == Tidy(Strip(t))
  {
    var u := Strip(t);
    forall i | 0 <= i < |u| ensures u[i] != '=' {
      assert u[i] in t;
    }
    if StartsWith(u, "KMONS:") {
      SplitAbsent(u, '=');
      StripStripped(u);
    }
  }

  /** A KMONS line without '=' is kept whole, prefix included. */
  lemma KmonsWithoutAssignment(line: string)
    requires StartsWith(Strip(line), "KMONS:") && '=' !in Strip(line)
    ensures CleanupMonsLine(line) == Tidy(Strip(line))
  {
    CleanupKmons(line);
    WholePieceTidy(Strip(line));
  }

  lemma WholePieceTidy(l: string)
    requires '=' !in l && (l == [] || (!IsSpace(l[0]) && !IsSpace(l[|l| - 1])))
    ensures Tidy(Strip(LastPiece(l, '='))) == Tidy(l)
  {
    LastPieceAbsent(l, '=');
    StripStripped(l);
  }

  /** Without the separator the last piece is the whole string. */
  lemma LastPieceAbsent(s: string, c: char)
    requires c !in s
    ensures LastPiece(s, c) == s
  {
    SplitAbsent(s, c);
  }
}
