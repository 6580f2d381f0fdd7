/** The report's string accumulators (monster-main.cc): action costs and
    speed (156-209), flags (211-224), resistances and vulnerabilities
    (124-154, 881-947), and the health (647-653) and chunk (951-976)
    fields. A `std::string&` accumulator is a method that takes the old
    string and returns the new one; a ghost list of the pieces recorded
    so far ties each string to its declarative description. */
module Fragments {
  import opened Text
  import opened Colours

  // ---------------------------------------------------------------------
  // Action costs and speed

  /** "desc: N%", where N is ten times the energy cost. */
  function CostText(desc: string, cost: int): string
  {
    desc + ": " + IntToString(cost * 10) + "%"
  }

  /** The qualifier a cost contributes: none at the normal cost of 10. */
  function CostPiece(desc: string, cost: int): seq<string>
  {
    if cost != 10 then [CostText(desc, cost)] else []
  }

  /** The qualifiers a sequence of (description, cost) pairs contributes. */
  function Shown(costs: seq<(string, int)>): seq<string>
  {
    if costs == [] then []
    else Shown(costs[..|costs| - 1]) + CostPiece(costs[|costs| - 1].0, costs[|costs| - 1].1)
  }

  lemma ShownSnoc(costs: seq<(string, int)>, desc: string, cost: int)
    ensures Shown(costs + [(desc, cost)]) == Shown(costs) + CostPiece(desc, cost)
  {
    assert (costs + [(desc, cost)])[..|costs|] == costs;
  }

  lemma {:induction false} ShownNonEmpty(costs: seq<(string, int)>)
    ensures NonEmptyPieces(Shown(costs))
  {
    if costs != [] {
      ShownNonEmpty(costs[..|costs| - 1]);
    }
  }

  /** Only the costs that differ from 10 are shown. */
  lemma {:induction false} ShownEmptyIff(costs: seq<(string, int)>)
    ensures Shown(costs) == [] <==> forall i :: 0 <= i < |costs| ==> costs[i].1 == 10
  {
    if costs != [] {
      var init := costs[..|costs| - 1];
      ShownEmptyIff(init);
      if forall i :: 0 <= i < |costs| ==> costs[i].1 == 10 {
        assert forall i :: 0 <= i < |init| ==> init[i].1 == 10 by {
          forall i | 0 <= i < |init| ensures init[i].1 == 10 {
            assert init[i] == costs[i];
          }
        }
      }
      if Shown(costs) == [] {
        forall i | 0 <= i < |costs| ensures costs[i].1 == 10 {
          if i < |init| {
            assert init[i] == costs[i];
          }
        }
      }
    }
  }

  /** `monster_action_cost`: appends the cost's qualifier, separated by
      "; " from earlier ones, unless the cost is the normal 10. */
  method MonsterActionCost(qual: string, cost: int, desc: string, ghost shown: seq<string>)
    returns (qual': string)
    requires NonEmptyPieces(shown) && qual == Join(shown, "; ")
    ensures NonEmptyPieces(shown + CostPiece(desc, cost))
    ensures qual' == Join(shown + CostPiece(desc, cost), "; ")
  {
    qual' := qual;
    if cost != 10 {
      var buf := CostText(desc, cost);
      JoinEmptyIff(shown, "; ");
      JoinSnoc(shown, buf, "; ");
      if qual' != "" {
        qual' := qual' + "; ";
      }
      qual' := qual' + buf;
    } else {
      assert shown + [] == shown;
    }
  }

  /** A monster's energy cost for each kind of action (10 is normal). */
  datatype EnergyUsage = EnergyUsage(
    move: int, swim: int, attack: int, missile: int, spell: int, special: int, item: int)

  /** Every action that is not movement costs the same, abnormal, amount. */
  predicate UniformAction(e: EnergyUsage) {
    e.attack != 10 && e.attack == e.missile && e.attack == e.spell
    && e.attack == e.special && e.attack == e.item
  }

  /** The costs `monster_speed` considers, in the order it considers them:
      "act" standing for all non-movement actions when they agree, then
      move, swim when it differs from move, and otherwise the five actions
      one by one. */
  function ActionCosts(e: EnergyUsage): seq<(string, int)>
  {
    (if UniformAction(e) then [("act", e.attack)] else [])
    + [("move", e.move)]
    + (if e.swim != e.move then [("swim", e.swim)] else [])
    + (if UniformAction(e) then []
       else [("atk", e.attack), ("msl", e.missile), ("spell", e.spell),
             ("special", e.special), ("item", e.item)])
  }

  function Descriptions(costs: seq<(string, int)>): seq<string>
  {
    seq(|costs|, i requires 0 <= i < |costs| => costs[i].0)
  }

  /** The speed itself: "min-max" when the trials disagreed, else the one value. */
  function SpeedRange(speedMin: int, speedMax: int): string
  {
    if speedMax != speedMin then IntToString(speedMin) + "-" + IntToString(speedMax)
    else IntToString(speedMax)
  }

  /** " (q1; q2; ...)" after the speed, or nothing without qualifiers. */
  function Qualified(qualifiers: seq<string>): string
  {
    if qualifiers == [] then "" else " (" + Join(qualifiers, "; ") + ")"
  }

  /** The qualifiers of the five non-movement actions, in order. */
  function ActionPieces(e: EnergyUsage): seq<string>
  {
    CostPiece("atk", e.attack) + CostPiece("msl", e.missile) + CostPiece("spell", e.spell)
    + CostPiece("special", e.special) + CostPiece("item", e.item)
  }

  /** The qualifiers `monster_speed` shows, group by group. */
  function Qualifiers(e: EnergyUsage): seq<string>
  {
    (if UniformAction(e) then CostPiece("act", e.attack) else [])
    + CostPiece("move", e.move)
    + (if e.swim != e.move then CostPiece("swim", e.swim) else [])
    + (if UniformAction(e) then [] else ActionPieces(e))
  }

  lemma ActionPiecesAfter(m: seq<string>, e: EnergyUsage)
    ensures m + CostPiece("atk", e.attack) + CostPiece("msl", e.missile) + CostPiece("spell", e.spell)
      + CostPiece("special", e.special) + CostPiece("item", e.item) == m + ActionPieces(e)
  {
  }

  lemma QualifiersByGroup(e: EnergyUsage, acts: seq<string>, moved: seq<string>, shown: seq<string>)
    requires acts == if UniformAction(e) then CostPiece("act", e.attack) else []
    requires moved == acts + CostPiece("move", e.move)
                    + (if e.swim != e.move then CostPiece("swim", e.swim) else [])
    requires UniformAction(e) ==> shown == moved
    requires !UniformAction(e) ==> shown == moved + ActionPieces(e)
    ensures shown == Qualifiers(e)
  {
  }

  /** `monster_speed`. */
  method MonsterSpeed(e: EnergyUsage, speedMin: int, speedMax: int) returns (speed: string)
    ensures speed == SpeedRange(speedMin, speedMax) + Qualified(Qualifiers(e))
  {
    speed := SpeedRange(speedMin, speedMax);
    var qualifiers := "";
    ghost var shown: seq<string> := [];

    var skipAction := false;
    if e.attack != 10 && e.attack == e.missile && e.attack == e.spell
      && e.attack == e.special && e.attack == e.item
    {
      assert shown == [] + [];
      qualifiers := MonsterActionCost(qualifiers, e.attack, "act", shown);
      shown := shown + CostPiece("act", e.attack);
      skipAction := true;
    }
    ghost var acts := shown;

    qualifiers := MonsterActionCost(qualifiers, e.move, "move", shown);
    shown := shown + CostPiece("move", e.move);
    if e.swim != e.move {
      qualifiers := MonsterActionCost(qualifiers, e.swim, "swim", shown);
      shown := shown + CostPiece("swim", e.swim);
    } else {
      assert shown == shown + [];
    }
    ghost var moved := shown;
    if !skipAction {
      qualifiers := MonsterActionCost(qualifiers, e.attack, "atk", shown);
      shown := shown + CostPiece("atk", e.attack);
      qualifiers := MonsterActionCost(qualifiers, e.missile, "msl", shown);
      shown := shown + CostPiece("msl", e.missile);
      qualifiers := MonsterActionCost(qualifiers, e.spell, "spell", shown);
      shown := shown + CostPiece("spell", e.spell);
      qualifiers := MonsterActionCost(qualifiers, e.special, "special", shown);
      shown := shown + CostPiece("special", e.special);
      qualifiers := MonsterActionCost(qualifiers, e.item, "item", shown);
      shown := shown + CostPiece("item", e.item);
      ActionPiecesAfter(moved, e);
    }
    QualifiersByGroup(e, acts, moved, shown);

    JoinEmptyIff(shown, "; ");
    if qualifiers != "" {
      speed := speed + (" (" + qualifiers + ")");
    } else {
      assert speed == speed + "";
    }
  }

  lemma {:induction false} ShownAppend(a: seq<(string, int)>, b: seq<(string, int)>)
    ensures Shown(a + b) == Shown(a) + Shown(b)
    decreases |b|
  {
    if b == [] {
      assert a + b == a;
    } else {
      var init := b[..|b| - 1];
      var last := b[|b| - 1];
      assert b == init + [last];
      assert a + b == (a + init) + [last];
      calc {
        Shown(a + b);
        Shown((a + init) + [last]);
        { ShownSnoc(a + init, last.0, last.1); }
        Shown(a + init) + CostPiece(last.0, last.1);
        { ShownAppend(a, init); }
        Shown(a) + Shown(init) + CostPiece(last.0, last.1);
        { ShownSnoc(init, last.0, last.1); }
        Shown(a) + Shown(b);
      }
    }
  }

  lemma ShownSingle(desc: string, cost: int)
    ensures Shown([(desc, cost)]) == CostPiece(desc, cost)
  {
    ShownSnoc([], desc, cost);
    assert [] + [(desc, cost)] == [(desc, cost)];
  }

  /** What `monster_speed` shows, group by group, is exactly the shown
      costs of the pairs it considers, in order. */
  lemma QualifiersAreShownCosts(e: EnergyUsage)
    ensures Qualifiers(e) == Shown(ActionCosts(e))
  {
    var acts: seq<(string, int)> := if UniformAction(e) then [("act", e.attack)] else [];
    var swim: seq<(string, int)> := if e.swim != e.move then [("swim", e.swim)] else [];
    var five: seq<(string, int)> :=
      [("atk", e.attack), ("msl", e.missile), ("spell", e.spell), ("special", e.special), ("item", e.item)];
    var rest: seq<(string, int)> := if UniformAction(e) then [] else five;
    assert ActionCosts(e) == acts + [("move", e.move)] + swim + rest;
    ShownAppend(acts + [("move", e.move)] + swim, rest);
    ShownAppend(acts + [("move", e.move)], swim);
    ShownAppend(acts, [("move", e.move)]);
    ShownSingle("move", e.move);
    if UniformAction(e) {
      ShownSingle("act", e.attack);
    }
    if e.swim != e.move {
      ShownSingle("swim", e.swim);
    }
    if !UniformAction(e) {
      assert five == [("atk", e.attack)] + [("msl", e.missile)] + [("spell", e.spell)]
        + [("special", e.special)] + [("item", e.item)];
      ShownAppend([("atk", e.attack)] + [("msl", e.missile)] + [("spell", e.spell)] + [("special", e.special)], [("item", e.item)]);
      ShownAppend([("atk", e.attack)] + [("msl", e.missile)] + [("spell", e.spell)], [("special", e.special)]);
      ShownAppend([("atk", e.attack)] + [("msl", e.missile)], [("spell", e.spell)]);
      ShownAppend([("atk", e.attack)], [("msl", e.missile)]);
      ShownSingle("atk", e.attack);
      ShownSingle("msl", e.missile);
      ShownSingle("spell", e.spell);
      ShownSingle("special", e.special);
      ShownSingle("item", e.item);
    }
  }

  /** "act" replaces the five separate actions exactly when they share one
      abnormal cost; swim is listed exactly when it differs from move. */
  lemma ActionCostsChoice(e: EnergyUsage)
    ensures "act" in Descriptions(ActionCosts(e)) <==> UniformAction(e)
    ensures "atk" in Descriptions(ActionCosts(e)) <==> !UniformAction(e)
    ensures "item" in Descriptions(ActionCosts(e)) <==> !UniformAction(e)
    ensures "swim" in Descriptions(ActionCosts(e)) <==> e.swim != e.move
    ensures "move" in Descriptions(ActionCosts(e))
  {
    var c := ActionCosts(e);
    var d := Descriptions(c);
    var k := if UniformAction(e) then 1 else 0;
    assert d[k] == "move";
    if UniformAction(e) {
      assert d[0] == "act";
    }
    if e.swim != e.move {
      assert d[k + 1] == "swim";
    }
    if !UniformAction(e) {
      var s := if e.swim != e.move then 1 else 0;
      assert d[1 + s] == "atk";
      assert d[5 + s] == "item";
    }
  }

  /** No parenthesised qualifiers exactly when every cost is the normal 10. */
  lemma NoQualifiersIff(e: EnergyUsage)
    ensures Qualified(Qualifiers(e)) == "" <==> e == EnergyUsage(10, 10, 10, 10, 10, 10, 10)
  {
    QualifiersAreShownCosts(e);
    var c := ActionCosts(e);
    ShownEmptyIff(c);
    var k := if UniformAction(e) then 1 else 0;
    assert c[k] == ("move", e.move);
    if UniformAction(e) {
      assert c[0].1 == e.attack;
    } else if forall i :: 0 <= i < |c| ==> c[i].1 == 10 {
      var s := if e.swim != e.move then 1 else 0;
      assert c[1 + s] == ("atk", e.attack);
      assert c[2 + s] == ("msl", e.missile);
      assert c[3 + s] == ("spell", e.spell);
      assert c[4 + s] == ("special", e.special);
      assert c[5 + s] == ("item", e.item);
    }
  }

  /** For nonnegative speeds a dash appears exactly when min and max differ. */
  lemma SpeedRangeDashIff(speedMin: nat, speedMax: nat)
    ensures '-' in SpeedRange(speedMin, speedMax) <==> speedMin != speedMax
  {
    NatToStringHasNoMinus(speedMin);
    NatToStringHasNoMinus(speedMax);
    var r := SpeedRange(speedMin, speedMax);
    if speedMin != speedMax {
      assert r[|NatToString(speedMin)|] == '-';
    }
  }

  // ---------------------------------------------------------------------
  // Flags

  const FlagsCaption: string := " | Flags: "

  /** `mons_flag`: the first flag opens the section, later ones follow ", ". */
  method MonsFlag(flag: string, newflag: string, ghost shown: seq<string>) returns (flag': string)
    requires flag == Section(FlagsCaption, ", ", shown)
    ensures flag' == Section(FlagsCaption, ", ", shown + [newflag])
  {
    SectionEmptyIff(FlagsCaption, ", ", shown);
    SectionSnoc(FlagsCaption, ", ", shown, newflag);
    if flag == "" {
      flag' := FlagsCaption;
    } else {
      flag' := flag + ", ";
    }
    flag' := flag' + newflag;
  }

  /** `mons_check_flag`: records the flag only when it is set. */
  method MonsCheckFlag(isSet: bool, flag: string, newflag: string, ghost shown: seq<string>)
    returns (flag': string)
    requires flag == Section(FlagsCaption, ", ", shown)
    ensures flag' == Section(FlagsCaption, ", ", shown + (if isSet then [newflag] else []))
  {
    flag' := flag;
    if isSet {
      flag' := MonsFlag(flag, newflag, shown);
    } else {
      assert shown + [] == shown;
    }
  }

  // ---------------------------------------------------------------------
  // Resistances and vulnerabilities

  /** `record_resvul` brightens a dark, non-black colour for a
      vulnerability, a triple resistance, or a single resistance shown in
      brown. */
  function Boost(color: int, rval: int, caption: string): int
  {
    if color != 0 && (rval == 3 || (rval == 1 && color == Brown) || caption == "Vul") && color <= 7
    then color + 8
    else color
  }

  function Pluses(n: nat): string
  {
    if n == 0 then "" else Pluses(n - 1) + "+"
  }

  /** The resistance's name followed by one '+' per level, for levels two
      and three only. */
  function ResistToken(name: string, rval: int): string
  {
    name + Pluses(if 1 < rval <= 3 then rval else 0)
  }

  function ResvulPiece(color: int, name: string, caption: string, rval: int, tty: bool): string
    requires IsBasicColour(color)
  {
    Colour(Boost(color, rval, caption), ResistToken(name, rval), false, tty)
  }

  function Caption(caption: string): string
  {
    " | " + caption + ": "
  }

  /** `record_resvul`. */
  method RecordResvul(color: int, name: string, caption: string, str: string, rval: int,
                      tty: bool, ghost shown: seq<string>)
    returns (str': string)
    requires IsBasicColour(color)
    requires str == Section(Caption(caption), ", ", shown)
    ensures str' == Section(Caption(caption), ", ", shown + [ResvulPiece(color, name, caption, rval, tty)])
  {
    if str == "" {
      str' := Caption(caption);
    } else {
      str' := str + ", ";
    }

    var c := color;
    if c != 0 && (rval == 3 || (rval == 1 && c == Brown) || caption == "Vul") && c <= 7 {
      c := c + 8;
    }

    var token := name;
    if rval > 1 && rval <= 3 {
      var n := rval;
      while n > 0
        invariant 0 <= n <= rval
        invariant token == name + Pluses(rval - n)
      {
        assert name + Pluses(rval - n) + "+" == name + (Pluses(rval - n) + "+");
        token := token + "+";
        n := n - 1;
      }
    } else {
      assert token == name + Pluses(0);
    }
    assert c == Boost(color, rval, caption) && token == ResistToken(name, rval);
    str' := str' + Colour(c, token, false, tty);
    SectionEmptyIff(Caption(caption), ", ", shown);
    SectionSnoc(Caption(caption), ", ", shown, ResvulPiece(color, name, caption, rval, tty));
  }

  /** What a resistance level contributes to the "Res" and "Vul" sections. */
  function ResPiece(color: int, name: string, rval: int, tty: bool): seq<string>
    requires IsBasicColour(color)
  {
    if rval > 0 then [ResvulPiece(color, name, "Res", rval, tty)] else []
  }

  function VulPiece(color: int, name: string, rval: int, tty: bool): seq<string>
    requires IsBasicColour(color)
  {
    if rval < 0 then [ResvulPiece(color, name, "Vul", -rval, tty)] else []
  }

  /** `record_resist`: a positive level is a resistance, a negative one a
      vulnerability of that magnitude, and zero records nothing. */
  method RecordResist(color: int, name: string, res: string, vul: string, rval: int, tty: bool,
                      ghost resShown: seq<string>, ghost vulShown: seq<string>)
    returns (res': string, vul': string)
    requires IsBasicColour(color)
    requires res == Section(Caption("Res"), ", ", resShown)
    requires vul == Section(Caption("Vul"), ", ", vulShown)
    ensures res' == Section(Caption("Res"), ", ", resShown + ResPiece(color, name, rval, tty))
    ensures vul' == Section(Caption("Vul"), ", ", vulShown + VulPiece(color, name, rval, tty))
  {
    res', vul' := res, vul;
    if rval > 0 {
      res' := RecordResvul(color, name, "Res", res, rval, tty, resShown);
      assert vulShown + [] == vulShown;
    } else if rval < 0 {
      vul' := RecordResvul(color, name, "Vul", vul, -rval, tty, vulShown);
      assert resShown + [] == resShown;
    } else {
      assert resShown + [] == resShown && vulShown + [] == vulShown;
    }
  }

  /** One `res`/`res2` line of the report: colour, name and level. */
  datatype ResistEntry = ResistEntry(colour: int, name: string, level: int)

  /** The monster's resistance levels, as the engine reports them. */
  datatype Resistances = Resistances(
    hellfire: int, fire: int, cold: int, elec: int, poison: int, acid: int,
    steam: int, asphyx: int, drown: int, rot: int, neg: int, holy: int,
    torm: int, wind: int)

  /** The resistances in report order. Fire is listed only when the
      monster's table entry (not the reported levels) has no hellfire
      resistance. */
  function ResistEntries(entryHellfire: int, r: Resistances): seq<ResistEntry>
  {
    [ResistEntry(Red, "hellfire", r.hellfire)]
    + (if entryHellfire <= 0 then [ResistEntry(Red, "fire", r.fire)] else [])
    + [ResistEntry(Blue, "cold", r.cold), ResistEntry(Cyan, "elec", r.elec),
       ResistEntry(Green, "poison", r.poison), ResistEntry(Brown, "acid", r.acid),
       ResistEntry(Black, "steam", r.steam), ResistEntry(Black, "asphyx", r.asphyx),
       ResistEntry(LightBlue, "drown", r.drown), ResistEntry(LightRed, "rot", r.rot),
       ResistEntry(LightMagenta, "neg", r.neg), ResistEntry(Yellow, "holy", r.holy),
       ResistEntry(LightMagenta, "torm", r.torm), ResistEntry(LightBlue, "wind", r.wind)]
  }

  ghost predicate BasicColours(es: seq<ResistEntry>) {
    forall i :: 0 <= i < |es| ==> IsBasicColour(es[i].colour)
  }

  function ResPieces(es: seq<ResistEntry>, tty: bool): seq<string>
    requires BasicColours(es)
  {
    if es == [] then []
    else
      var e := es[|es| - 1];
      ResPieces(es[..|es| - 1], tty) + ResPiece(e.colour, e.name, e.level, tty)
  }

  function VulPieces(es: seq<ResistEntry>, tty: bool): seq<string>
    requires BasicColours(es)
  {
    if es == [] then []
    else
      var e := es[|es| - 1];
      VulPieces(es[..|es| - 1], tty) + VulPiece(e.colour, e.name, e.level, tty)
  }

  lemma PiecesSnoc(es: seq<ResistEntry>, i: nat, tty: bool)
    requires BasicColours(es) && i < |es|
    ensures ResPieces(es[..i + 1], tty) == ResPieces(es[..i], tty) + ResPiece(es[i].colour, es[i].name, es[i].level, tty)
    ensures VulPieces(es[..i + 1], tty) == VulPieces(es[..i], tty) + VulPiece(es[i].colour, es[i].name, es[i].level, tty)
  {
    assert es[..i + 1][..i] == es[..i];
  }

  /** One `res`/`res2` call: records the entry at position `i`. */
  method RecordEntry(es: seq<ResistEntry>, i: nat, res: string, vul: string, tty: bool, ghost shown0: seq<string>)
    returns (res': string, vul': string)
    requires BasicColours(es) && i < |es|
    requires res == Section(Caption("Res"), ", ", shown0 + ResPieces(es[..i], tty))
    requires vul == Section(Caption("Vul"), ", ", VulPieces(es[..i], tty))
    ensures res' == Section(Caption("Res"), ", ", shown0 + ResPieces(es[..i + 1], tty))
    ensures vul' == Section(Caption("Vul"), ", ", VulPieces(es[..i + 1], tty))
  {
    var e := es[i];
    res', vul' := RecordResist(e.colour, e.name, res, vul, e.level, tty,
                               shown0 + ResPieces(es[..i], tty), VulPieces(es[..i], tty));
    PiecesSnoc(es, i, tty);
    assert shown0 + ResPieces(es[..i], tty) + ResPiece(e.colour, e.name, e.level, tty)
        == shown0 + ResPieces(es[..i + 1], tty);
  }

  /** The `res`/`res2` calls, one per entry in order. */
  method RecordResistances(res0: string, es: seq<ResistEntry>, tty: bool, ghost shown0: seq<string>)
    returns (res: string, vul: string)
    requires BasicColours(es)
    requires res0 == Section(Caption("Res"), ", ", shown0)
    ensures res == Section(Caption("Res"), ", ", shown0 + ResPieces(es, tty))
    ensures vul == Section(Caption("Vul"), ", ", VulPieces(es, tty))
  {
    res, vul := res0, "";
    var i := 0;
    assert es[..0] == [];
    assert shown0 + ResPieces(es[..0], tty) == shown0;
    assert vul == Section(Caption("Vul"), ", ", VulPieces(es[..0], tty));
    while i < |es|
      invariant 0 <= i <= |es|
      invariant res == Section(Caption("Res"), ", ", shown0 + ResPieces(es[..i], tty))
      invariant vul == Section(Caption("Vul"), ", ", VulPieces(es[..i], tty))
    {
      res, vul := RecordEntry(es, i, res, vul, tty, shown0);
      i := i + 1;
    }
    assert es[..|es|] == es;
  }

  /** `(short int) x`: the low sixteen bits, read as two's complement. */
  function ToShort(x: int): (r: int)
    ensures -32768 <= r < 32768
    ensures (r - x) % 65536 == 0
    ensures -32768 <= x < 32768 ==> r == x
  {
    (x + 32768) % 65536 - 32768
  }

  /** The number shown for a magic resistance: for a negative table value
      it scales with the hit dice, (short) hd * rm * 4 / 3 negated, with
      C's truncating division; otherwise it is the value as a short. */
  function MagicAmount(resistMagic: int, hd: int): int
  {
    if resistMagic < 0 then TruncDiv(ToShort(hd) * resistMagic * 4, 3) * -1
    else ToShort(resistMagic)
  }

  /** The magic-resistance piece of the "Res" section: immune at 5000,
      none at 0. */
  function MagicPieces(resistMagic: int, hd: int, tty: bool): seq<string>
  {
    if resistMagic == 5000 then [Colour(LightMagenta, "magic(immune)", false, tty)]
    else if resistMagic != 0 then
      [Colour(Magenta, "magic(" + IntToString(MagicAmount(resistMagic, hd)) + ")", false, tty)]
    else []
  }

  lemma FirstResistance(piece: string)
    ensures Section(Caption("Res"), ", ", [piece]) == " | Res: " + piece
  {
  }

  /** The resistance part of the report (881-947): magic resistance first,
      then the levels in report order. */
  method ResistanceReport(resistMagic: int, hd: int, entryHellfire: int, r: Resistances, tty: bool)
    returns (res: string, vul: string)
    ensures res == Section(Caption("Res"), ", ",
                           MagicPieces(resistMagic, hd, tty) + ResPieces(ResistEntries(entryHellfire, r), tty))
    ensures vul == Section(Caption("Vul"), ", ", VulPieces(ResistEntries(entryHellfire, r), tty))
  {
    res := "";
    if resistMagic == 5000 {
      if res == "" {
        res := " | Res: ";
      } else {
        res := res + ", ";
      }
      res := res + Colour(LightMagenta, "magic(immune)", false, tty);
      FirstResistance(Colour(LightMagenta, "magic(immune)", false, tty));
    } else if resistMagic < 0 {
      if res == "" {
        res := " | Res: ";
      } else {
        res := res + ", ";
      }
      res := res + Colour(Magenta, "magic(" + IntToString(TruncDiv(ToShort(hd) * resistMagic * 4, 3) * -1) + ")", false, tty);
      FirstResistance(Colour(Magenta, "magic(" + IntToString(MagicAmount(resistMagic, hd)) + ")", false, tty));
    } else if resistMagic > 0 {
      if res == "" {
        res := " | Res: ";
      } else {
        res := res + ", ";
      }
      res := res + Colour(Magenta, "magic(" + IntToString(ToShort(resistMagic)) + ")", false, tty);
      FirstResistance(Colour(Magenta, "magic(" + IntToString(MagicAmount(resistMagic, hd)) + ")", false, tty));
    }
    res, vul := RecordResistances(res, ResistEntries(entryHellfire, r), tty, MagicPieces(resistMagic, hd, tty));
  }

  /** Fire is reported exactly when the table entry lacks hellfire
      resistance; hellfire always comes first. */
  lemma FireSuppressedIff(entryHellfire: int, r: Resistances)
    ensures ResistEntries(entryHellfire, r)[0].name == "hellfire"
    ensures (exists i :: 0 <= i < |ResistEntries(entryHellfire, r)| && ResistEntries(entryHellfire, r)[i].name == "fire")
        <==> entryHellfire <= 0
  {
    var es := ResistEntries(entryHellfire, r);
    if entryHellfire <= 0 {
      assert es[1].name == "fire";
    }
  }

  function PositiveLevels(es: seq<ResistEntry>): nat
  {
    if es == [] then 0 else PositiveLevels(es[..|es| - 1]) + (if es[|es| - 1].level > 0 then 1 else 0)
  }

  function NegativeLevels(es: seq<ResistEntry>): nat
  {
    if es == [] then 0 else NegativeLevels(es[..|es| - 1]) + (if es[|es| - 1].level < 0 then 1 else 0)
  }

  /** One resistance piece per positive level, one vulnerability piece per
      negative level, nothing for a zero level. */
  lemma {:induction false} ResistPieceCounts(es: seq<ResistEntry>, tty: bool)
    requires BasicColours(es)
    ensures |ResPieces(es, tty)| == PositiveLevels(es)
    ensures |VulPieces(es, tty)| == NegativeLevels(es)
  {
    if es != [] {
      ResistPieceCounts(es[..|es| - 1], tty);
    }
  }

  /** Boosting moves a dark colour to its bright counterpart and nothing else. */
  lemma BoostBrightens(color: int, rval: int, caption: string)
    requires IsBasicColour(color)
    ensures IsBasicColour(Boost(color, rval, caption))
    ensures Boost(color, rval, caption) != color ==> 1 <= color <= 7 && Boost(color, rval, caption) == color + 8
    ensures caption == "Vul" && 1 <= color <= 7 ==> Boost(color, rval, caption) == color + 8
    ensures rval == 3 && 1 <= color <= 7 ==> Boost(color, rval, caption) == color + 8
    ensures caption == "Res" && rval == 1 && color != Brown ==> Boost(color, rval, caption) == color
    ensures color == Black || color >= DarkGrey ==> Boost(color, rval, caption) == color
  {
  }

  /** Levels two and three append that many '+' signs; others append none. */
  lemma ResistTokenPluses(name: string, rval: int)
    ensures StartsWith(ResistToken(name, rval), name)
    ensures |ResistToken(name, rval)| == |name| + (if rval == 2 || rval == 3 then rval else 0)
    ensures forall i :: |name| <= i < |ResistToken(name, rval)| ==> ResistToken(name, rval)[i] == '+'
  {
  }

  /** Magic resistance is reported unless the table value is zero. */
  lemma MagicAbsentIff(resistMagic: int, hd: int, tty: bool)
    ensures MagicPieces(resistMagic, hd, tty) == [] <==> resistMagic == 0
  {
  }

  /** For a negative table value and a hit-dice count that fits a short,
      the number shown is four thirds of hit dice times the magnitude,
      rounded down. */
  lemma MagicAmountNegative(resistMagic: int, hd: int)
    requires resistMagic < 0 && 0 <= hd < 32768
    ensures MagicAmount(resistMagic, hd) == hd * -resistMagic * 4 / 3
    ensures MagicAmount(resistMagic, hd) >= 0
  {
    var x := hd * resistMagic * 4;
    assert x <= 0 by {
      assert hd * resistMagic <= 0;
    }
    assert -x == hd * -resistMagic * 4;
  }

  /** A positive table value that fits a short is shown as it is. */
  lemma MagicAmountPositive(resistMagic: int, hd: int)
    requires 0 < resistMagic < 32768
    ensures MagicAmount(resistMagic, hd) == resistMagic
  {
  }

  // ---------------------------------------------------------------------
  // Health and chunks

  /** "lo-hi" when the lowest hit points seen are below the highest, else "lo". */
  function HealthText(hpLow: int, hpHigh: int): string
  {
    if hpLow < hpHigh then IntToString(hpLow) + "-" + IntToString(hpHigh)
    else IntToString(hpLow)
  }

  lemma HealthDashIff(hpLow: nat, hpHigh: nat)
    ensures '-' in HealthText(hpLow, hpHigh) <==> hpLow < hpHigh
  {
    NatToStringHasNoMinus(hpLow);
    NatToStringHasNoMinus(hpHigh);
    if hpLow < hpHigh {
      assert HealthText(hpLow, hpHigh)[|NatToString(hpLow)|] == '-';
    }
  }

  /** For an ordered pair the health and speed formats coincide, although
      one tests `<` and prints the low end, the other tests `!=` and
      prints the high end. */
  lemma HealthMatchesSpeedFormat(lo: int, hi: int)
    requires lo <= hi
    ensures HealthText(lo, hi) == SpeedRange(lo, hi)
  {
  }

  datatype CorpseEffect =
    NoCorpse | Clean | Contaminated | Poisonous | PoisonContam | Rot | MutagenRandom | OtherEffect

  function ChunkKind(ce: CorpseEffect, tty: bool): string
  {
    match ce
    case Contaminated => Colour(Brown, "contaminated", false, tty)
    case Poisonous => Colour(LightGreen, "poisonous", false, tty)
    case PoisonContam => Colour(LightGreen, "poison", false, tty) + "+" + Colour(Brown, "contam", false, tty)
    case Rot => Colour(LightRed, "rot", false, tty)
    case MutagenRandom => Colour(Magenta, "mutagenic", false, tty)
    case _ => "???"
  }

  /** The chunks field, printed only for monsters that leave a corpse
      with an effect. */
  function ChunksText(weight: int, ce: CorpseEffect, tty: bool): string
  {
    if weight != 0 && ce != NoCorpse && ce != Clean then " | Chunks: " + ChunkKind(ce, tty) else ""
  }

  lemma ChunksShownIff(weight: int, ce: CorpseEffect, tty: bool)
    ensures ChunksText(weight, ce, tty) != "" <==> weight != 0 && ce != NoCorpse && ce != Clean
    ensures ChunksText(weight, ce, tty) != "" ==> StartsWith(ChunksText(weight, ce, tty), " | Chunks: ")
    ensures weight != 0 && ce == OtherEffect ==> ChunksText(weight, ce, tty) == " | Chunks: ???"
  {
  }
}
