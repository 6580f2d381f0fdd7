/** `shorten_spell_name` (monster-main.cc:284-299): the display form of a
    spell or ability title. The rules run in this order on the lower-cased
    title: drop a possessive with the word after it, move an " of " clause
    to the front, strip a leading "summon ", and rewrite a trailing "bolt"
    as a "b." prefix. The last rule compares with `size_t` arithmetic that
    wraps, which is modelled exactly. */
module SpellNames {
  import opened Text

  /** `std::string::size_type` holds values modulo 2^64. */
  const SizeMod: int := 0x1_0000_0000_0000_0000

  /** `std::string::npos`, the largest `size_type`. */
  const Npos: nat := 0xFFFF_FFFF_FFFF_FFFF

  /** `a - b` computed in `size_type`: wraps around below zero. */
  function SizeSub(a: nat, b: nat): (r: nat)
    ensures r < SizeMod
    ensures a < SizeMod && b <= a ==> r == a - b
    ensures a < b ==> b - a <= SizeMod ==> r == SizeMod - (b - a)
  {
    (a - b) % SizeMod
  }

  /** `s.find(p)` as a `size_type`: the first index of `p`, or npos. */
  function Find(s: string, p: string): (r: nat)
    ensures r == Npos || MatchAt(s, p, r)
    ensures r != Npos ==> forall j: nat :: j < r ==> !MatchAt(s, p, j)
    ensures (exists j :: MatchAt(s, p, j)) ==> r != Npos || |s| > Npos
  {
    match FindFrom(s, p, 0)
    case Some(i) => i
    case None => Npos
  }

  /** `s.substr(pos, n)`: at most `n` characters starting at `pos`. */
  function Substr(s: string, pos: nat, n: nat): (r: string)
    requires pos <= |s|
    ensures |r| == (if n < |s| - pos then n else |s| - pos)
    ensures r == s[pos..pos + |r|]
  {
    if n > |s| - pos then s[pos..] else s[pos..pos + n]
  }

  /** Rule 1: with an apostrophe, drop everything up to and including the
      first space at or after it. */
  function DropPossessive(name: string): string
  {
    match FindChar(name, '\'', 0)
    case None => name
    case Some(apos) =>
      match FindChar(name, ' ', apos)
      case None => name
      case Some(sp) => name[sp + 1..]
  }

  /** Rule 2: "x of y" becomes "y x", split at the first " of ". */
  function SwapOf(name: string): string
  {
    match FindFrom(name, " of ", 0)
    case None => name
    case Some(pos) => name[pos + 4..] + " " + name[..pos]
  }

  /** Rule 3: a leading "summon " goes, except in "summon undead". */
  function DropSummon(name: string): string
  {
    if FindFrom(name, "summon ", 0) == Some(0) && name != "summon undead" then name[7..]
    else name
  }

  /** Rule 4, as written: `name.find("bolt") == name.length() - 4` in
      `size_type`, then "b." + `name.substr(0, name.length() - 5)`. */
  function AbbreviateBolt(name: string): string
  {
    if Find(name, "bolt") == SizeSub(|name|, 4) then "b." + Substr(name, 0, SizeSub(|name|, 5))
    else name
  }

  function ShortenSpellName(title: string): string
  {
    AbbreviateBolt(DropSummon(SwapOf(DropPossessive(Lower(title)))))
  }

  // ---------------------------------------------------------------------
  // The output is lower case

  lemma DropPossessiveNoUpper(name: string)
    requires NoUpper(name)
    ensures NoUpper(DropPossessive(name))
  {
    match FindChar(name, '\'', 0)
    case None =>
    case Some(apos) =>
      match FindChar(name, ' ', apos)
      case None =>
      case Some(sp) =>
        var r := DropPossessive(name);
        assert r == name[sp + 1..];
        forall i | 0 <= i < |r| ensures !IsUpper(r[i]) {
          assert r[i] == name[sp + 1 + i];
        }
  }

  lemma SwapOfNoUpper(name: string)
    requires NoUpper(name)
    ensures NoUpper(SwapOf(name))
  {
    match FindFrom(name, " of ", 0)
    case None =>
    case Some(pos) =>
      var r := SwapOf(name);
      var a, b := name[pos + 4..], name[..pos];
      assert r == a + " " + b;
      forall i | 0 <= i < |r| ensures !IsUpper(r[i]) {
        if i < |a| {
          assert r[i] == name[pos + 4 + i];
        } else if i > |a| {
          assert r[i] == name[i - |a| - 1];
        }
      }
  }

  lemma AbbreviateBoltNoUpper(name: string)
    requires NoUpper(name)
    ensures NoUpper(AbbreviateBolt(name))
  {
    var r := AbbreviateBolt(name);
    if r != name {
      forall i | 0 <= i < |r| ensures !IsUpper(r[i]) {
        if i >= 2 {
          assert r[i] == name[i - 2];
        }
      }
    }
  }

  /** Every shortened name is lower case. */
  lemma ShortenIsLowerCase(title: string)
    ensures NoUpper(ShortenSpellName(title))
  {
    var n0 := Lower(title);
    DropPossessiveNoUpper(n0);
    var n1 := DropPossessive(n0);
    SwapOfNoUpper(n1);
    var n2 := SwapOf(n1);
    AbbreviateBoltNoUpper(DropSummon(n2));
  }

  // ---------------------------------------------------------------------
  // Rule 1: possessives

  /** "a'b c" loses everything up to the first space after the apostrophe. */
  lemma DropPossessiveSplits(a: string, b: string, c: string)
    requires '\'' !in a && ' ' !in b
    ensures DropPossessive(a + "'" + b + " " + c) == c
  {
    var name := a + "'" + b + " " + c;
    forall j | 0 <= j < |a| ensures name[j] != '\'' {
      assert name[j] == a[j];
    }
    assert name[|a|] == '\'';
    assert FindChar(name, '\'', 0) == Some(|a|);
    var sp := |a| + 1 + |b|;
    forall j | |a| < j < sp ensures name[j] != ' ' {
      assert name[j] == b[j - |a| - 1];
    }
    assert name[sp] == ' ';
    assert FindChar(name, ' ', |a|) == Some(sp);
    assert name[sp + 1..] == c;
  }

  /** Without an apostrophe nothing changes. */
  lemma DropPossessiveNoApostrophe(name: string)
    requires '\'' !in name
    ensures DropPossessive(name) == name
  {
  }

  /** Without a space after the first apostrophe (at `k`) nothing changes. */
  lemma DropPossessiveNoSpace(name: string, k: nat)
    requires k < |name| && name[k] == '\'' && '\'' !in name[..k] && ' ' !in name[k..]
    ensures DropPossessive(name) == name
  {
    forall j | 0 <= j < k ensures name[j] != '\'' {
      assert name[j] == name[..k][j];
    }
    assert FindChar(name, '\'', 0) == Some(k);
    forall j | k <= j < |name| ensures name[j] != ' ' {
      assert name[j] == name[k..][j - k];
    }
  }

  // ---------------------------------------------------------------------
  // Rule 2: " of " clauses

  /** "x of y" becomes "y x" when the " of " after x is the first one. */
  lemma SwapOfSplits(x: string, y: string)
    requires forall j: nat :: j < |x| ==> !MatchAt(x + " of " + y, " of ", j)
    ensures SwapOf(x + " of " + y) == y + " " + x
  {
    var name := x + " of " + y;
    assert name[|x|..|x| + 4] == " of ";
    assert MatchAt(name, " of ", |x|);
    assert FindFrom(name, " of ", 0) == Some(|x|);
    assert name[|x| + 4..] == y;
    assert name[..|x|] == x;
  }

  /** In particular "x of y" with a one-word x becomes "y x". */
  lemma SwapOfOneWord(x: string, y: string)
    requires ' ' !in x
    ensures SwapOf(x + " of " + y) == y + " " + x
  {
    var name := x + " of " + y;
    forall j: nat | j < |x| ensures !MatchAt(name, " of ", j) {
      MatchAtHead(name, " of ", j);
      assert name[j] == x[j];
    }
    SwapOfSplits(x, y);
  }

  lemma SwapOfKeeps(name: string)
    requires forall j: nat :: !MatchAt(name, " of ", j)
    ensures SwapOf(name) == name
  {
  }

  // ---------------------------------------------------------------------
  // Rule 3: "summon "

  /** A leading "summon " is dropped, unless the name is "summon undead". */
  lemma DropSummonIff(name: string)
    ensures DropSummon(name) == if StartsWith(name, "summon ") && name != "summon undead" then name[7..] else name
  {
    if StartsWith(name, "summon ") {
      assert MatchAt(name, "summon ", 0);
    }
  }

  // ---------------------------------------------------------------------
  // Rule 4: "bolt", including the wrap-around cases

  /** A name of exactly three characters compares `npos == npos` and so
      gains the prefix: "ice" becomes "b.ice". */
  lemma AbbreviateThreeCharacters(name: string)
    requires |name| == 3
    ensures AbbreviateBolt(name) == "b." + name
  {
    assert FindFrom(name, "bolt", 0) == None;
  }

  /** The name "bolt" itself becomes "b.bolt": `substr(0, npos)` is all of it. */
  lemma AbbreviateBoltAlone()
    ensures AbbreviateBolt("bolt") == "b.bolt"
  {
    assert MatchAt("bolt", "bolt", 0);
    assert FindFrom("bolt", "bolt", 0) == Some(0);
  }

  /** A longer name whose only "bolt" is at its end loses the last five
      characters (the word and the space before it) and gains "b.". */
  lemma AbbreviateTrailingBolt(name: string)
    requires 5 <= |name| < SizeMod
    requires EndsWith(name, "bolt")
    requires forall j: nat :: j < |name| - 4 ==> !MatchAt(name, "bolt", j)
    ensures AbbreviateBolt(name) == "b." + name[..|name| - 5]
  {
    MatchAtEnd(name, "bolt");
    assert FindFrom(name, "bolt", 0) == Some(|name| - 4);
  }

  /** Names of other lengths that do not end in "bolt" are left alone. */
  lemma AbbreviateKeeps(name: string)
    requires |name| != 3 && |name| < SizeMod
    requires !EndsWith(name, "bolt")
    ensures AbbreviateBolt(name) == name
  {
    if |name| >= 4 {
      MatchAtEnd(name, "bolt");
    }
  }

  // ---------------------------------------------------------------------
  // Whole names

  lemma ZinsFuryLower()
    ensures Lower("Zin's Fury") == "zin" + "'" + "s" + " " + "fury"
  {
  }

  lemma ZinsFuryDrop()
    ensures DropPossessive(Lower("Zin's Fury")) == "fury"
  {
    ZinsFuryLower();
    DropPossessiveSplits("zin", "s", "fury");
  }

  lemma FuryKept()
    ensures AbbreviateBolt(DropSummon(SwapOf("fury"))) == "fury"
  {
    NoMatchWithoutChar("fury", " of ", 0);
    ShortenFixedPoint("fury");
  }

  /** "Zin's Fury" loses the possessive and the word it is attached to. */
  lemma ExampleZinsFury()
    ensures ShortenSpellName("Zin's Fury") == "fury"
  {
    ZinsFuryDrop();
    FuryKept();
  }

  lemma BoltOfFireLower()
    ensures DropPossessive(Lower("Bolt of Fire")) == "bolt of fire"
  {
    assert Lower("Bolt of Fire") == "bolt of fire";
    DropPossessiveNoApostrophe("bolt of fire");
  }

  lemma BoltOfFireWords()
    ensures "bolt" + " of " + "fire" == "bolt of fire"
  {
  }

  lemma BoltOfFireSwap()
    ensures SwapOf("bolt of fire") == "fire bolt"
  {
    BoltOfFireWords();
    SwapOfOneWord("bolt", "fire");
  }

  lemma BoltOfFireBack()
    ensures AbbreviateBolt(DropSummon("fire bolt")) == "b.fire"
  {
    FireBoltNotSummon();
    FireBoltAbbreviated();
  }

  lemma FireBoltNotSummon()
    ensures DropSummon("fire bolt") == "fire bolt"
  {
    NoMatchWithoutChar("fire bolt", "summon ", 1);
    DropSummonIff("fire bolt");
  }

  lemma FireBoltAbbreviated()
    ensures AbbreviateBolt("fire bolt") == "b.fire"
  {
    assert "fire" + " bolt" == "fire bolt";
    AbbreviateWordBolt("fire");
  }

  /** A word without 'b' followed by " bolt" becomes "b." and the word. */
  lemma AbbreviateWordBolt(x: string)
    requires 'b' !in x && |x| + 5 < SizeMod
    ensures AbbreviateBolt(x + " bolt") == "b." + x
  {
    var name := x + " bolt";
    forall j: nat | j < |name| - 4 ensures !MatchAt(name, "bolt", j) {
      MatchAtHead(name, "bolt", j);
      if j < |x| {
        assert name[j] == x[j];
      } else {
        assert name[j] == ' ';
      }
    }
    assert name[|name| - 4..] == "bolt";
    AbbreviateTrailingBolt(name);
    assert name[..|name| - 5] == x;
  }

  /** "Bolt of Fire" swaps to "fire bolt" and is then abbreviated. */
  lemma ExampleBoltOfFire()
    ensures ShortenSpellName("Bolt of Fire") == "b.fire"
  {
    BoltOfFireLower();
    BoltOfFireSwap();
    BoltOfFireBack();
  }

  /** "summon undead" is the one summoning that keeps its verb. */
  lemma ExampleSummonUndead()
    ensures ShortenSpellName("Summon Undead") == "summon undead"
  {
    SummonUndeadLower();
    SummonUndeadFixed();
    var lowered := Lower("Summon Undead");
    assert ShortenSpellName("Summon Undead") == ShortenSpellName(lowered);
  }

  lemma SummonUndeadLower()
    ensures Lower("Summon Undead") == "summon undead"
  {
  }

  lemma SummonUndeadFixed()
    ensures ShortenSpellName("summon undead") == "summon undead"
  {
    NoMatchWithoutChar("summon undead", " of ", 2);
    ShortenFixedPoint("summon undead");
  }

  /** The torment heuristic's beam name "symbol of torment" displays as
      "torment symbol". */
  lemma ExampleSymbolOfTorment()
    ensures ShortenSpellName("symbol of torment") == "torment symbol"
  {
    TormentLower();
    TormentSwap();
    TormentBack();
  }

  lemma TormentLower()
    ensures DropPossessive(Lower("symbol of torment")) == "symbol of torment"
  {
    assert Lower("symbol of torment") == "symbol of torment";
    DropPossessiveNoApostrophe("symbol of torment");
  }

  lemma TormentWords()
    ensures "symbol" + " of " + "torment" == "symbol of torment"
  {
  }

  lemma TormentSwap()
    ensures SwapOf("symbol of torment") == "torment symbol"
  {
    TormentWords();
    SwapOfOneWord("symbol", "torment");
    assert "torment" + " " + "symbol" == "torment symbol";
  }

  lemma TormentBack()
    ensures AbbreviateBolt(DropSummon("torment symbol")) == "torment symbol"
  {
    NoMatchWithoutChar("torment symbol", "summon ", 1);
    DropSummonIff("torment symbol");
    AbbreviateKeeps("torment symbol");
  }

  lemma ExampleBlink()
    ensures ShortenSpellName("blink") == "blink"
  {
    NoMatchWithoutChar("blink", " of ", 0);
    ShortenFixedPoint("blink");
  }

  /** Shortening is not idempotent: a second possessive is dropped on a
      second pass. */
  lemma NotIdempotent()
    ensures ShortenSpellName("a's b's c") == "b's c"
    ensures ShortenSpellName(ShortenSpellName("a's b's c")) == "c"
  {
    FirstPossessivePass();
    SecondPossessivePass();
  }

  lemma FirstPossessivePass()
    ensures ShortenSpellName("a's b's c") == "b's c"
  {
    FirstPossessiveDropped();
    PossessiveRestKept();
  }

  lemma FirstPossessiveDropped()
    ensures DropPossessive(Lower("a's b's c")) == "b's c"
  {
    assert Lower("a's b's c") == "a" + "'" + "s" + " " + "b's c";
    DropPossessiveSplits("a", "s", "b's c");
  }

  lemma PossessiveRestKept()
    ensures AbbreviateBolt(DropSummon(SwapOf("b's c"))) == "b's c"
  {
    NoMatchWithoutChar("b's c", " of ", 2);
    SwapOfKeeps("b's c");
    NoMatchWithoutChar("b's c", "summon ", 1);
    DropSummonIff("b's c");
    AbbreviateKeeps("b's c");
  }

  lemma SecondPossessivePass()
    ensures ShortenSpellName("b's c") == "c"
  {
    SecondPossessiveDropped();
    NoMatchWithoutChar("c", " of ", 0);
    ShortenFixedPoint("c");
  }

  lemma SecondPossessiveDropped()
    ensures DropPossessive(Lower("b's c")) == "c"
  {
    assert Lower("b's c") == "b" + "'" + "s" + " " + "c";
    DropPossessiveSplits("b", "s", "c");
  }

  /** A lower-case name that none of the four rules touches is kept. */
  lemma ShortenFixedPoint(name: string)
    requires NoUpper(name) && '\'' !in name && forall j: nat :: !MatchAt(name, " of ", j)
    requires !StartsWith(name, "summon ") || name == "summon undead"
    requires |name| != 3 && |name| < SizeMod && !EndsWith(name, "bolt")
    ensures ShortenSpellName(name) == name
  {
    assert Lower(name) == name;
    DropPossessiveNoApostrophe(name);
    DropSummonIff(name);
    AbbreviateKeeps(name);
  }
}
