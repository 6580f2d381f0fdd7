/** Damage text of the report: `dice_def_string` (monster-main.cc:248-251),
    the fixed and computed damage of a few special spells (253-282), the
    `damage_flavour` overloads (442-452) and the damage ranges of the
    elemental melee flavours (694-698, 717-728). Engine queries (the
    spell's beam, `stepdown_value`) are inputs. */
module Dice {
  import opened Text

  /** "dS" for a single die, "NdS" otherwise. */
  function DiceString(num: int, size: int): string
  {
    if num == 1 then "d" + IntToString(size)
    else IntToString(num) + "d" + IntToString(size)
  }

  /** Reads a dice string back: digits (none meaning one die), 'd', digits. */
  ghost function ParseDice(s: string): Option<(nat, nat)>
  {
    match FindChar(s, 'd', 0)
    case None => None
    case Some(i) =>
      if AllDigits(s[..i]) && AllDigits(s[i + 1..]) && i + 1 < |s| then
        Some((if i == 0 then 1 else ParseNat(s[..i]), ParseNat(s[i + 1..])))
      else None
  }

  lemma ParseDicePieces(a: string, b: string)
    requires AllDigits(a) && AllDigits(b) && b != []
    ensures ParseDice(a + "d" + b) == Some((if a == [] then 1 else ParseNat(a), ParseNat(b)))
  {
    var s := a + "d" + b;
    assert FindChar(s, 'd', 0) == Some(|a|) by {
      forall j | 0 <= j < |a| ensures s[j] != 'd' {
        assert s[j] == a[j] && IsDigit(a[j]);
      }
      assert s[|a|] == 'd';
    }
    assert s[..|a|] == a;
    assert s[|a| + 1..] == b;
  }

  /** Every rendered dice string reads back as the dice it shows. */
  lemma DiceRoundTrip(num: nat, size: nat)
    ensures ParseDice(DiceString(num, size)) == Some((num, size))
  {
    var b := NatToString(size);
    ParseNatToString(size);
    if num == 1 {
      assert DiceString(num, size) == [] + "d" + b;
      ParseDicePieces([], b);
    } else {
      ParseNatToString(num);
      ParseDicePieces(NatToString(num), b);
    }
  }

  /** The count is written exactly when it is not one. */
  lemma DiceCountShownIff(num: nat, size: int)
    ensures DiceString(num, size)[0] == 'd' <==> num == 1
  {
    if num != 1 {
      assert DiceString(num, size)[0] == NatToString(num)[0];
      assert IsDigit(NatToString(num)[0]);
    }
  }

  // ---------------------------------------------------------------------
  // Spell damage

  /** An orb of destruction rolls eight dice of a quarter of its power. */
  function IoodDice(power: int): (d: (int, int))
    ensures d.0 == 8
    ensures Abs(d.1) == Abs(power) / 4
    ensures (power >= 0 ==> d.1 >= 0) && (power <= 0 ==> d.1 <= 0)
  {
    (8, TruncDiv(power, 4))
  }

  const SmitingDamage: string := "7-17"

  /** Airstrike: zero up to ten plus twice the hit dice. */
  function AirstrikeDamage(hd: int): string
  {
    "0-" + IntToString(10 + 2 * hd)
  }

  lemma AirstrikeUpperBound(hd: nat)
    ensures StartsWith(AirstrikeDamage(hd), "0-")
    ensures ParseNat(AirstrikeDamage(hd)[2..]) == 10 + 2 * hd
  {
    ParseNatToString(10 + 2 * hd);
    assert AirstrikeDamage(hd)[2..] == NatToString(10 + 2 * hd);
  }

  datatype SpellKind = Smiting | Airstrike | Iood | OtherSpell

  /** `mons_human_readable_spell_damage_string`: smiting and airstrike
      have fixed texts; an orb's dice replace its beam's; otherwise the
      beam's dice are shown when both the count and the size are nonzero. */
  function SpellDamageString(kind: SpellKind, beamDice: (int, int), hd: int, ioodPower: int): string
  {
    if kind == Smiting then " (" + SmitingDamage + ")"
    else if kind == Airstrike then " (" + AirstrikeDamage(hd) + ")"
    else
      var d := if kind == Iood then IoodDice(ioodPower) else beamDice;
      if d.1 != 0 && d.0 != 0 then " (" + DiceString(d.0, d.1) + ")" else ""
  }

  /** Damage text is absent exactly when the dice have no count or no size. */
  lemma SpellDamageEmptyIff(kind: SpellKind, beamDice: (int, int), hd: int, ioodPower: int)
    ensures SpellDamageString(kind, beamDice, hd, ioodPower) == "" <==>
      match kind
      case Smiting => false
      case Airstrike => false
      case Iood => -4 < ioodPower < 4
      case OtherSpell => beamDice.0 == 0 || beamDice.1 == 0
  {
    if kind == Iood {
      var d := IoodDice(ioodPower);
      assert d.1 == 0 <==> -4 < ioodPower < 4;
    }
  }

  /** Shown dice are in parentheses after a space and read back exactly. */
  lemma SpellDamageDice(beamDice: (nat, nat), hd: int, ioodPower: int)
    requires beamDice.0 != 0 && beamDice.1 != 0
    ensures var s := SpellDamageString(OtherSpell, beamDice, hd, ioodPower);
      StartsWith(s, " (") && EndsWith(s, ")")
      && ParseDice(s[2..|s| - 1]) == Some(beamDice)
  {
    var s := SpellDamageString(OtherSpell, beamDice, hd, ioodPower);
    var d := DiceString(beamDice.0, beamDice.1);
    assert s == " (" + d + ")";
    assert s[2..|s| - 1] == d;
    DiceRoundTrip(beamDice.0, beamDice.1);
  }

  // ---------------------------------------------------------------------
  // Attack flavours

  /** "(name:damage)". */
  function DamageFlavour(name: string, damage: string): string
  {
    "(" + name + ":" + damage + ")"
  }

  /** "(name:low-high)", formatted directly. */
  function DamageFlavourRange(name: string, low: int, high: int): string
  {
    "(" + name + ":" + IntToString(low) + "-" + IntToString(high) + ")"
  }

  /** The two overloads agree on a range written as "low-high". */
  lemma DamageFlavourOverloadsAgree(name: string, low: int, high: int)
    ensures DamageFlavourRange(name, low, high) == DamageFlavour(name, IntToString(low) + "-" + IntToString(high))
  {
  }

  function Max(a: int, b: int): int {
    if a >= b then a else b
  }

  /** Cold: hit dice up to three times hit dice less one. */
  function ColdRange(hd: int): (int, int) {
    (hd, 3 * hd - 1)
  }

  /** Electricity: hit dice plus up to half the hit dice (truncated) less one, never less than nothing. */
  function ElecRange(hd: int): (int, int) {
    (hd, hd + Max(TruncDiv(hd, 2) - 1, 0))
  }

  /** Fire: hit dice up to twice hit dice less one. */
  function FireRange(hd: int): (int, int) {
    (hd, hd * 2 - 1)
  }

  /** For a monster with at least one hit die every range is well formed,
      starts at the hit dice, and cold reaches furthest, then fire, then
      electricity. */
  lemma ElementalRangesOrdered(hd: int)
    requires hd >= 1
    ensures ColdRange(hd).0 == FireRange(hd).0 == ElecRange(hd).0 == hd
    ensures ElecRange(hd).0 <= ElecRange(hd).1 <= FireRange(hd).1 <= ColdRange(hd).1
  {
  }
}
