/** The spell and ability part of the report (monster-main.cc:301-410):
    the ability a special-ability trial records, the sorted set of
    abilities over fifty trials, the list of distinct spells in slot order
    with the draconian breath first, and the "abilities; set / set" text.
    Engine queries (spell titles, damage strings, the breath's origin
    spell) are parameters. A `std::set<std::string>` is a strictly
    increasing sequence of strings. */
module Spells {
  import opened Text
  import opened SpellNames
  import opened Dice

  // ---------------------------------------------------------------------
  // std::set<std::string>

  /** `std::string`'s `<`: lexicographic by character code, a proper
      prefix first. */
  predicate Less(a: string, b: string)
    decreases |a|
  {
    if a == [] then b != []
    else if b == [] then false
    else if a[0] != b[0] then a[0] < b[0]
    else Less(a[1..], b[1..])
  }

  lemma {:induction false} LessIrreflexive(a: string)
    ensures !Less(a, a)
    decreases |a|
  {
    if a != [] {
      LessIrreflexive(a[1..]);
    }
  }

  lemma {:induction false} LessTransitive(a: string, b: string, c: string)
    requires Less(a, b) && Less(b, c)
    ensures Less(a, c)
    decreases |a|
  {
    if a != [] && a[0] == b[0] && b[0] == c[0] {
      LessTransitive(a[1..], b[1..], c[1..]);
    }
  }

  /** Any two different strings are ordered one way or the other. */
  lemma {:induction false} LessTotal(a: string, b: string)
    requires a != b
    ensures Less(a, b) || Less(b, a)
    decreases |a|
  {
    if a != [] && b != [] && a[0] == b[0] {
      assert a == [a[0]] + a[1..] && b == [b[0]] + b[1..];
      LessTotal(a[1..], b[1..]);
    }
  }

  /** Strictly increasing: the iteration order of a `std::set`, without
      repetitions. */
  ghost predicate Sorted(xs: seq<string>) {
    forall i, j :: 0 <= i < j < |xs| ==> Less(xs[i], xs[j])
  }

  /** `std::set::insert`. */
  function Insert(xs: seq<string>, x: string): (ys: seq<string>)
    requires Sorted(xs)
    ensures Sorted(ys)
    ensures forall y :: y in ys <==> y in xs || y == x
    decreases |xs|
  {
    if xs == [] then [x]
    else if x == xs[0] then xs
    else if Less(x, xs[0]) then
      assert Sorted([x] + xs) by {
        forall j | 0 < j < |xs| ensures Less(x, xs[j]) {
          LessTransitive(x, xs[0], xs[j]);
        }
      }
      [x] + xs
    else
      var rest := Insert(xs[1..], x);
      assert Sorted([xs[0]] + rest) by {
        LessTotal(x, xs[0]);
        forall j | 0 <= j < |rest| ensures Less(xs[0], rest[j]) {
          assert rest[j] in rest;
        }
      }
      [xs[0]] + rest
  }

  /** The set that results from inserting `names` one by one. */
  function Collect(names: seq<string>): (s: seq<string>)
    ensures Sorted(s)
    ensures forall y :: y in s <==> y in names
  {
    if names == [] then []
    else
      var init := names[..|names| - 1];
      assert names == init + [names[|names| - 1]];
      Insert(Collect(init), names[|names| - 1])
  }

  lemma CollectSnoc(names: seq<string>, x: string)
    ensures Collect(names + [x]) == Insert(Collect(names), x)
  {
    assert (names + [x])[..|names|] == names;
  }

  // ---------------------------------------------------------------------
  // Special abilities

  /** The name `mons_record_ability` gives the trial's beam: a torment
      (the player left at half health plus one) overrides a blink (the
      monster moved), which overrides the beam's own name. */
  function AbilityName(moved: bool, hp: int, playerMaxHp: int, beamName: string): string
  {
    if hp == TruncDiv(playerMaxHp, 2) + 1 then "symbol of torment"
    else if moved then "blink"
    else beamName
  }

  /** What one trial records, if anything: the shortened name, and when
      the beam has dice, the dice in parentheses. */
  function RecordedAbility(moved: bool, hp: int, playerMaxHp: int, beamName: string,
                           damage: (int, int), armourSlotSpan: int): Option<string>
  {
    var name := AbilityName(moved, hp, playerMaxHp, beamName);
    if name == "" then None
    else Some(AbilityText(ShortenSpellName(name), damage, armourSlotSpan))
  }

  /** The recorded text of a shortened ability: the dice follow in
      parentheses when the beam has some. */
  function AbilityText(ability: string, damage: (int, int), armourSlotSpan: int): (r: string)
    ensures StartsWith(r, ability)
  {
    if damage.0 != 0 && damage.1 != 0 then
      var dice := " (" + DiceString(damage.0, damage.1) + AcidExtra(ability, armourSlotSpan) + ")";
      PrefixOfAppend(ability, dice);
      ability + dice
    else ability
  }

  /** The extra dice of an acid splash: `armourSlotSpan` is
      EQ_MAX_ARMOUR - EQ_MIN_ARMOUR, and the splash adds that plus two d5,
      one more than the armour slots. */
  function AcidExtra(ability: string, armourSlotSpan: int): string
  {
    if ability == "acid splash" then "+" + DiceString(armourSlotSpan + 2, 5) else ""
  }

  lemma PrefixOfAppend(a: string, b: string)
    ensures StartsWith(a + b, a)
  {
    assert (a + b)[..|a|] == a;
  }

  /** A trial records nothing exactly when the beam is unnamed and neither
      a torment nor a blink happened. */
  lemma NoAbilityIff(moved: bool, hp: int, playerMaxHp: int, beamName: string,
                     damage: (int, int), armourSlotSpan: int)
    ensures RecordedAbility(moved, hp, playerMaxHp, beamName, damage, armourSlotSpan).None?
        <==> beamName == "" && !moved && hp != TruncDiv(playerMaxHp, 2) + 1
  {
  }

  /** A torment is recorded as the torment, whether or not the monster
      also moved. */
  lemma TormentOverridesBlink(moved: bool, hp: int, playerMaxHp: int, beamName: string,
                              damage: (int, int), armourSlotSpan: int)
    requires hp == TruncDiv(playerMaxHp, 2) + 1
    ensures var r := RecordedAbility(moved, hp, playerMaxHp, beamName, damage, armourSlotSpan);
      r.Some? && StartsWith(r.value, "torment symbol")
  {
    ExampleSymbolOfTorment();
  }

  /** Without a torment, a move is recorded as a blink. */
  lemma MoveIsBlink(hp: int, playerMaxHp: int, beamName: string, damage: (int, int), armourSlotSpan: int)
    requires hp != TruncDiv(playerMaxHp, 2) + 1
    ensures var r := RecordedAbility(true, hp, playerMaxHp, beamName, damage, armourSlotSpan);
      r.Some? && StartsWith(r.value, "blink")
  {
    ExampleBlink();
  }

  /** "acid splash" is already in its shortest form. */
  lemma AcidSplashKept()
    ensures ShortenSpellName("acid splash") == "acid splash"
  {
    NoMatchWithoutChar("acid splash", " of ", 2);
    NoMatchWithoutChar("acid splash", "summon ", 1);
    ShortenFixedPoint("acid splash");
  }

  /** A beam that shortens to "acid splash" and has dice shows its own
      dice plus the armour dice. */
  lemma AcidSplashExtra(beamName: string, hp: int, playerMaxHp: int, damage: (int, int), armourSlotSpan: int)
    requires beamName != "" && ShortenSpellName(beamName) == "acid splash"
    requires hp != TruncDiv(playerMaxHp, 2) + 1
    requires damage.0 != 0 && damage.1 != 0
    ensures RecordedAbility(false, hp, playerMaxHp, beamName, damage, armourSlotSpan)
         == Some("acid splash" + (" (" + DiceString(damage.0, damage.1) + ("+" + DiceString(armourSlotSpan + 2, 5)) + ")"))
  {
  }

  /** The names the trials recorded, in trial order. */
  function Recorded(tries: seq<Option<string>>): seq<string>
  {
    if tries == [] then []
    else
      var last := tries[|tries| - 1];
      Recorded(tries[..|tries| - 1]) + (if last.Some? then [last.value] else [])
  }

  lemma {:induction false} RecordedNames(tries: seq<Option<string>>)
    ensures forall y :: y in Recorded(tries) <==> Some(y) in tries
  {
    if tries != [] {
      var init := tries[..|tries| - 1];
      RecordedNames(init);
      assert tries == init + [tries[|tries| - 1]];
    }
  }

  lemma RecordedSnoc(tries: seq<Option<string>>, i: nat)
    requires i < |tries|
    ensures Recorded(tries[..i + 1])
         == if tries[i].Some? then Recorded(tries[..i]) + [tries[i].value] else Recorded(tries[..i])
  {
    assert tries[..i + 1][..i] == tries[..i];
    if tries[i].None? {
      assert Recorded(tries[..i]) + [] == Recorded(tries[..i]);
    }
  }

  const AbilityTries: nat := 50

  /** How `mons_special_ability_set` and `mi_draconian_breath_spell` see
      the monster's genus. */
  datatype Draconian = NotDraconian | BaseDraconian | YellowDraconian | ColouredDraconian

  /** The ability text: nothing for a draconian other than a yellow one,
      otherwise the distinct recorded abilities in set order, joined by
      ", ". */
  function AbilitySet(kind: Draconian, tries: seq<Option<string>>): string
  {
    if kind == BaseDraconian || kind == ColouredDraconian then ""
    else Join(Collect(Recorded(tries)), ", ")
  }

  /** Each ability a trial recorded is listed exactly once, in set order. */
  lemma AbilitySetLists(kind: Draconian, tries: seq<Option<string>>)
    requires kind == NotDraconian || kind == YellowDraconian
    ensures exists s :: AbilitySet(kind, tries) == Join(s, ", ") && Sorted(s)
              && forall y :: y in s <==> Some(y) in tries
  {
    RecordedNames(tries);
    var s := Collect(Recorded(tries));
    assert AbilitySet(kind, tries) == Join(s, ", ");
  }

  /** `mons_special_ability_set`, given what each of the fifty trials
      recorded. */
  method MonsSpecialAbilitySet(kind: Draconian, tries: seq<Option<string>>) returns (r: string)
    requires |tries| == AbilityTries
    ensures r == AbilitySet(kind, tries)
  {
    if kind == BaseDraconian || kind == ColouredDraconian {
      return "";
    }
    var abilities: seq<string> := [];
    var i := 0;
    while i < AbilityTries
      invariant 0 <= i <= AbilityTries
      invariant abilities == Collect(Recorded(tries[..i]))
    {
      RecordedSnoc(tries, i);
      if tries[i].Some? {
        CollectSnoc(Recorded(tries[..i]), tries[i].value);
        abilities := Insert(abilities, tries[i].value);
      }
      i := i + 1;
    }
    assert tries[..AbilityTries] == tries;
    if abilities == [] {
      return "";
    }
    r := Join(abilities, ", ");
  }

  // ---------------------------------------------------------------------
  // Spells

  /** `spell_type`: no spell, the draconian breath, or any other spell. */
  datatype Spell = NoSpell | DraconianBreath | OtherSpell(id: nat)

  /** `mi_draconian_breath_spell`: only a coloured draconian breathes. */
  function BreathSpell(kind: Draconian): Spell
  {
    if kind == ColouredDraconian then DraconianBreath else NoSpell
  }

  /** Each spell of `sps` once, at its first occurrence, without `NoSpell`. */
  function Distinct(sps: seq<Spell>): (d: seq<Spell>)
    ensures forall x :: x in d <==> x in sps && x != NoSpell
    ensures forall i, j :: 0 <= i < j < |d| ==> d[i] != d[j]
  {
    if sps == [] then []
    else
      var init := sps[..|sps| - 1];
      var x := sps[|sps| - 1];
      assert sps == init + [x];
      var d := Distinct(init);
      if x == NoSpell || x in d then d else d + [x]
  }

  lemma DistinctSnoc(sps: seq<Spell>, i: nat)
    requires i < |sps|
    ensures Distinct(sps[..i + 1])
         == if sps[i] == NoSpell || sps[i] in Distinct(sps[..i]) then Distinct(sps[..i]) else Distinct(sps[..i]) + [sps[i]]
  {
    assert sps[..i + 1][..i] == sps[..i];
  }

  /** A real first spell leads the list. */
  lemma {:induction false} DistinctFirst(sps: seq<Spell>)
    requires sps != [] && sps[0] != NoSpell
    ensures Distinct(sps) != [] && Distinct(sps)[0] == sps[0]
  {
    if |sps| > 1 {
      var init := sps[..|sps| - 1];
      DistinctFirst(init);
    }
  }

  /** The first index at which `x` occurs. */
  function FirstIndex(sps: seq<Spell>, x: Spell): (k: nat)
    requires x in sps
    ensures k < |sps| && sps[k] == x && x !in sps[..k]
  {
    if sps[0] == x then 0
    else
      assert sps == [sps[0]] + sps[1..];
      1 + FirstIndex(sps[1..], x)
  }

  lemma FirstIndexPrefix(sps: seq<Spell>, n: nat, x: Spell)
    requires n <= |sps| && x in sps[..n]
    ensures FirstIndex(sps[..n], x) == FirstIndex(sps, x)
  {
    var k := FirstIndex(sps[..n], x);
    assert sps[..n][..k] == sps[..k];
  }

  /** The spells are listed in the order of their first occurrences. */
  lemma {:induction false} DistinctInOrder(sps: seq<Spell>, i: nat, j: nat)
    requires i < j < |Distinct(sps)|
    ensures FirstIndex(sps, Distinct(sps)[i]) < FirstIndex(sps, Distinct(sps)[j])
  {
    var init := sps[..|sps| - 1];
    var x := sps[|sps| - 1];
    var d0 := Distinct(init);
    var d := Distinct(sps);
    assert sps[..|init|] == init;
    assert d[i] == d0[i] && d[i] in init;
    FirstIndexPrefix(sps, |init|, d[i]);
    if j < |d0| {
      assert d[j] == d0[j] && d[j] in init;
      FirstIndexPrefix(sps, |init|, d[j]);
      DistinctInOrder(init, i, j);
    } else {
      assert d[j] == x && x !in init;
    }
  }

  /** The text one listed spell contributes: its shortened title (the
      origin spell's title for the breath) and its damage text. */
  function SpellText(sp: Spell, title: Spell -> string, breathTitle: string, damage: Spell -> string): string
  {
    ShortenSpellName(if sp == DraconianBreath then breathTitle else title(sp)) + damage(sp)
  }

  function SpellTexts(sps: seq<Spell>, title: Spell -> string, breathTitle: string,
                      damage: Spell -> string): (r: seq<string>)
    ensures |r| == |sps|
    ensures forall i :: 0 <= i < |sps| ==> r[i] == SpellText(sps[i], title, breathTitle, damage)
  {
    if sps == [] then []
    else [SpellText(sps[0], title, breathTitle, damage)] + SpellTexts(sps[1..], title, breathTitle, damage)
  }

  /** The spell list of a monster with a breath (`kind`) and its slots. */
  function SpellSet(kind: Draconian, slots: seq<Spell>, title: Spell -> string, breathTitle: string,
                    damage: Spell -> string): string
  {
    Glue(SpellTexts(Distinct([BreathSpell(kind)] + slots), title, breathTitle, damage), ", ")
  }

  /** A breathing draconian's breath is listed first. */
  lemma BreathListedFirst(slots: seq<Spell>, title: Spell -> string, breathTitle: string, damage: Spell -> string)
    ensures var d := Distinct([DraconianBreath] + slots);
      d != [] && d[0] == DraconianBreath
      && SpellTexts(d, title, breathTitle, damage)[0] == ShortenSpellName(breathTitle) + damage(DraconianBreath)
  {
    DistinctFirst([DraconianBreath] + slots);
  }

  /** Listing one more spell adds its text at the end. */
  lemma SpellTextsSnoc(d: seq<Spell>, sp: Spell, title: Spell -> string, breathTitle: string,
                       damage: Spell -> string)
    ensures SpellTexts(d + [sp], title, breathTitle, damage)
         == SpellTexts(d, title, breathTitle, damage) + [SpellText(sp, title, breathTitle, damage)]
  {
  }

  /** One pass of `mons_spell_set`'s loop: the spell is listed, with its
      text after ", ", unless it is no spell or was seen before. */
  method ListSpell(sp: Spell, seen: set<Spell>, spells: string, title: Spell -> string, breathTitle: string,
                   damage: Spell -> string, ghost listed: seq<Spell>)
    returns (seen': set<Spell>, spells': string)
    requires forall x :: x in seen <==> x in listed
    requires spells == Glue(SpellTexts(listed, title, breathTitle, damage), ", ")
    ensures var listed' := if sp == NoSpell || sp in listed then listed else listed + [sp];
      (forall x :: x in seen' <==> x in listed')
      && spells' == Glue(SpellTexts(listed', title, breathTitle, damage), ", ")
  {
    seen', spells' := seen, spells;
    if sp != NoSpell && sp !in seen {
      seen' := seen + {sp};
      var rawname := title(sp);
      if sp == DraconianBreath {
        rawname := breathTitle;
      }
      var name := ShortenSpellName(rawname);
      SpellTextsSnoc(listed, sp, title, breathTitle, damage);
      GlueSnoc(SpellTexts(listed, title, breathTitle, damage), name + damage(sp), ", ");
      if spells' != "" {
        spells' := spells' + ", ";
      }
      spells' := spells' + (name + damage(sp));
    }
  }

  /** `mons_spell_set`: the breath slot (-1), then the regular slots; a
      spell is listed the first time it is seen. */
  method MonsSpellSet(kind: Draconian, slots: seq<Spell>, title: Spell -> string, breathTitle: string,
                      damage: Spell -> string) returns (spells: string)
    ensures spells == SpellSet(kind, slots, title, breathTitle, damage)
  {
    ghost var all := [BreathSpell(kind)] + slots;
    ghost var listed: seq<Spell> := [];
    var seen: set<Spell> := {};
    spells := "";
    var i := -1;
    assert all[..0] == [];
    while i < |slots|
      invariant -1 <= i <= |slots|
      invariant listed == Distinct(all[..i + 1])
      invariant forall x :: x in seen <==> x in listed
      invariant spells == Glue(SpellTexts(listed, title, breathTitle, damage), ", ")
    {
      var sp := if i == -1 then BreathSpell(kind) else slots[i];
      assert all[i + 1] == sp;
      DistinctSnoc(all, i + 1);
      seen, spells := ListSpell(sp, seen, spells, title, breathTitle, damage, listed);
      listed := Distinct(all[..i + 2]);
      i := i + 1;
    }
    assert all[..|slots| + 1] == all;
  }

  /** `record_spell_set`: a nonempty spell list joins the set. */
  function RecordSpellSet(sets: seq<string>, spellSet: string): (r: seq<string>)
    requires Sorted(sets)
    ensures Sorted(r)
    ensures forall y :: y in r <==> y in sets || (y == spellSet && spellSet != "")
  {
    if spellSet == "" then sets else Insert(sets, spellSet)
  }

  // ---------------------------------------------------------------------
  // Spells and abilities together

  /** The abilities, then (when both are present) "; ", then the spell
      sets separated by " / ". */
  function SpellsAbilities(abilities: string, spellSets: seq<string>): string
  {
    if spellSets == [] then abilities
    else (if abilities == "" then "" else abilities + "; ") + Join(spellSets, " / ")
  }

  lemma SpellsAbilitiesSnoc(abilities: string, spellSets: seq<string>, s: string)
    ensures SpellsAbilities(abilities, spellSets + [s])
         == (if spellSets != [] then SpellsAbilities(abilities, spellSets) + " / "
             else if abilities != "" then abilities + "; " else "") + s
  {
    JoinSnoc(spellSets, s, " / ");
  }

  /** `mons_spells_abilities`: "(random)" for shapeshifters and
      pandemonium lords. */
  method MonsSpellsAbilities(shapeshifter: bool, pandemoniumLord: bool, kind: Draconian,
                             tries: seq<Option<string>>, spellSets: seq<string>)
    returns (r: string)
    requires |tries| == AbilityTries
    ensures r == if shapeshifter || pandemoniumLord then "(random)"
                 else SpellsAbilities(AbilitySet(kind, tries), spellSets)
  {
    if shapeshifter || pandemoniumLord {
      return "(random)";
    }
    var first := true;
    r := MonsSpecialAbilitySet(kind, tries);
    ghost var abilities := r;
    var i := 0;
    assert spellSets[..0] == [];
    while i < |spellSets|
      invariant 0 <= i <= |spellSets|
      invariant first <==> i == 0
      invariant r == SpellsAbilities(abilities, spellSets[..i])
    {
      assert spellSets[..i + 1] == spellSets[..i] + [spellSets[i]];
      SpellsAbilitiesSnoc(abilities, spellSets[..i], spellSets[i]);
      if !first {
        r := r + " / ";
      } else if r != "" {
        r := r + "; ";
      }
      first := false;
      r := r + spellSets[i];
      i := i + 1;
    }
    assert spellSets[..|spellSets|] == spellSets;
  }

  /** The abilities lead and the spell sets close the text, and "; "
      separates them only when both are present. */
  lemma SpellsAbilitiesParts(abilities: string, spellSets: seq<string>)
    ensures StartsWith(SpellsAbilities(abilities, spellSets), abilities)
    ensures EndsWith(SpellsAbilities(abilities, spellSets), Join(spellSets, " / "))
    ensures abilities != "" && spellSets != [] ==>
      SpellsAbilities(abilities, spellSets)[|abilities|..|abilities| + 2] == "; "
  {
    var r := SpellsAbilities(abilities, spellSets);
    if spellSets == [] {
      assert Join(spellSets, " / ") == "";
    } else if abilities != "" {
      assert r == abilities + "; " + Join(spellSets, " / ");
    }
  }
}
