/** How the driver turns the requested name into a monster spec
    (monster-main.cc:511-554) and how it rebinds a draconian request to the
    colour the game chose (454-472). The monster-list parser
    (`mons_list::add_mons` followed by `get_monster(0)`), the vault lookup
    and the monster type of a spec are parameters. */
module Resolution {
  import opened Text

  /** What `mons_list::add_mons` reports: an error text, empty on success,
      and the spec `get_monster(0)` then returns. */
  datatype AddResult<Spec> = AddResult(err: string, spec: Spec)

  /** The first canned report whose name is exactly `target`. */
  function CannedReport(target: string, canned: seq<(string, string)>): (r: Option<string>)
    ensures r.Some? <==> exists i :: 0 <= i < |canned| && canned[i].0 == target
  {
    if canned == [] then None
    else if canned[0].0 == target then Some(canned[0].1)
    else
      assert forall i :: 1 <= i < |canned| ==> canned[i] == canned[1..][i - 1];
      CannedReport(target, canned[1..])
  }

  /** The report found is the one at the first matching index. */
  lemma {:induction false} CannedReportFirst(target: string, canned: seq<(string, string)>, k: nat)
    requires k < |canned| && canned[k].0 == target
    requires forall i :: 0 <= i < k ==> canned[i].0 != target
    ensures CannedReport(target, canned) == Some(canned[k].1)
  {
    if k > 0 {
      CannedReportFirst(target, canned[1..], k - 1);
    }
  }

  /** The canned-report scan of `main`. */
  method FindCanned(target: string, canned: seq<(string, string)>) returns (r: Option<string>)
    ensures r == CannedReport(target, canned)
  {
    var i := 0;
    while i < |canned|
      invariant 0 <= i <= |canned|
      invariant forall j :: 0 <= j < i ==> canned[j].0 != target
    {
      if canned[i].0 == target {
        CannedReportFirst(target, canned, i);
        return Some(canned[i].1);
      }
      i := i + 1;
    }
    r := None;
  }

  /** The parse as `main` leaves it: the error still standing, the target
      (with "the " in front once a retry was made) and the spec read back. */
  datatype Parsed<Spec> = Parsed(err: string, target: string, spec: Spec)

  /** The primary parse and its "the " retry. `emptySpec` is what
      `get_monster(0)` returns when nothing was added. */
  function ParseWithRetry<Spec>(target: string, addMons: string -> AddResult<Spec>, emptySpec: Spec): (p: Parsed<Spec>)
    ensures addMons(target).err == "" ==> p == Parsed("", target, addMons(target).spec)
    ensures addMons(target).err != "" ==>
      p.target == "the " + target
      && (p.err == "" <==> addMons("the " + target).err == "")
      && (p.err != "" ==> p.err == addMons(target).err && p.spec == emptySpec)
      && (p.err == "" ==> p.spec == addMons("the " + target).spec)
  {
    var first := addMons(target);
    if first.err == "" then Parsed("", target, first.spec)
    else
      var test := addMons("the " + target);
      if test.err == "" then Parsed("", "the " + target, test.spec)
      else Parsed(first.err, "the " + target, emptySpec)
  }

  /** A spec names a real monster: a type in range that is not the
      player ghost. */
  predicate ValidType(t: int, numMonsters: int, playerGhost: int)
  {
    !(t < 0 || t >= numMonsters || t == playerGhost)
  }

  datatype Resolved<Spec> =
    | Canned(report: string)
    | Unknown(message: string)
    | Found(spec: Spec, target: string, vaultMonster: bool)

  /** The outcome of resolving `target`: a canned report, the error that
      is printed before exiting, or the spec to generate. */
  function Resolution<Spec>(target: string, canned: seq<(string, string)>, addMons: string -> AddResult<Spec>,
                            emptySpec: Spec, vault: string -> Spec, typeOf: Spec -> int,
                            numMonsters: int, playerGhost: int): Resolved<Spec>
  {
    match CannedReport(target, canned)
    case Some(report) => Canned(report)
    case None =>
      var p := ParseWithRetry(target, addMons, emptySpec);
      if ValidType(typeOf(p.spec), numMonsters, playerGhost) && p.err == "" then Found(p.spec, p.target, false)
      else if ValidType(typeOf(vault(target)), numMonsters, playerGhost) then Found(vault(target), p.target, true)
      else if p.err == "" then Unknown("unknown monster: \"" + p.target + "\"")
      else Unknown(p.err)
  }

  /** The name resolution of `main`. */
  method ResolveTarget<Spec>(target: string, canned: seq<(string, string)>, addMons: string -> AddResult<Spec>,
                             emptySpec: Spec, vault: string -> Spec, typeOf: Spec -> int,
                             numMonsters: int, playerGhost: int)
    returns (r: Resolved<Spec>)
    ensures r == Resolution(target, canned, addMons, emptySpec, vault, typeOf, numMonsters, playerGhost)
  {
    var report := FindCanned(target, canned);
    if report.Some? {
      return Canned(report.value);
    }

    var origTarget := target;
    var target := target;
    var result := addMons(target);
    var err := result.err;
    var spec := if err == "" then result.spec else emptySpec;
    if err != "" {
      target := "the " + target;
      var test := addMons(target);
      if test.err == "" {
        err := test.err;
        spec := test.spec;
      }
    }

    var specType := typeOf(spec);
    var vaultMonster := false;
    if (specType < 0 || specType >= numMonsters || specType == playerGhost) || err != "" {
      spec := vault(origTarget);
      specType := typeOf(spec);
      if specType < 0 || specType >= numMonsters || specType == playerGhost {
        if err == "" {
          return Unknown("unknown monster: \"" + target + "\"");
        } else {
          return Unknown(err);
        }
      }
      vaultMonster := true;
    }
    return Found(spec, target, vaultMonster);
  }

  /** An exact canned name short-circuits everything else. */
  lemma CannedShortCircuits<Spec>(target: string, canned: seq<(string, string)>, addMons: string -> AddResult<Spec>,
                                  emptySpec: Spec, vault: string -> Spec, typeOf: Spec -> int,
                                  numMonsters: int, playerGhost: int, k: nat)
    requires k < |canned| && canned[k].0 == target
    ensures Resolution(target, canned, addMons, emptySpec, vault, typeOf, numMonsters, playerGhost).Canned?
  {
  }

  /** A found spec always names a real monster, and it comes from the
      vault lookup exactly when the parse left an error or an invalid
      type. */
  lemma FoundIsValid<Spec>(target: string, canned: seq<(string, string)>, addMons: string -> AddResult<Spec>,
                           emptySpec: Spec, vault: string -> Spec, typeOf: Spec -> int,
                           numMonsters: int, playerGhost: int)
    ensures var r := Resolution(target, canned, addMons, emptySpec, vault, typeOf, numMonsters, playerGhost);
      var p := ParseWithRetry(target, addMons, emptySpec);
      r.Found? ==>
        ValidType(typeOf(r.spec), numMonsters, playerGhost)
        && (r.vaultMonster <==> !(ValidType(typeOf(p.spec), numMonsters, playerGhost) && p.err == ""))
        && (r.vaultMonster ==> r.spec == vault(target))
  {
  }

  /** Resolution fails only when the parse and the vault lookup both fail;
      the message is the parse error, or "unknown monster" when the error
      was cleared by the retry. */
  lemma UnknownMessage<Spec>(target: string, canned: seq<(string, string)>, addMons: string -> AddResult<Spec>,
                             emptySpec: Spec, vault: string -> Spec, typeOf: Spec -> int,
                             numMonsters: int, playerGhost: int)
    ensures var r := Resolution(target, canned, addMons, emptySpec, vault, typeOf, numMonsters, playerGhost);
      var p := ParseWithRetry(target, addMons, emptySpec);
      r.Unknown? <==>
        CannedReport(target, canned).None?
        && !(ValidType(typeOf(p.spec), numMonsters, playerGhost) && p.err == "")
        && !ValidType(typeOf(vault(target)), numMonsters, playerGhost)
    ensures var r := Resolution(target, canned, addMons, emptySpec, vault, typeOf, numMonsters, playerGhost);
      var p := ParseWithRetry(target, addMons, emptySpec);
      r.Unknown? ==>
        (p.err != "" ==> r.message == addMons(target).err)
        && (p.err == "" ==> r.message == "unknown monster: \"" + p.target + "\"")
  {
  }

  /** The retried name appears in the "unknown monster" message: a name
      that parses only with "the " but names no real monster is reported
      under the retried name. */
  lemma RetriedNameReported<Spec>(target: string, addMons: string -> AddResult<Spec>,
                                  emptySpec: Spec, vault: string -> Spec, typeOf: Spec -> int,
                                  numMonsters: int, playerGhost: int)
    requires addMons(target).err != "" && addMons("the " + target).err == ""
    requires !ValidType(typeOf(addMons("the " + target).spec), numMonsters, playerGhost)
    requires !ValidType(typeOf(vault(target)), numMonsters, playerGhost)
    ensures Resolution(target, [], addMons, emptySpec, vault, typeOf, numMonsters, playerGhost)
         == Unknown("unknown monster: \"the " + target + "\"")
  {
    assert "unknown monster: \"" + ("the " + target) + "\"" == "unknown monster: \"the " + target + "\"";
  }

  // ---------------------------------------------------------------------
  // Rebinding a draconian request

  /** `requested_name->find("draconian") == 0`: the request starts with
      "draconian". */
  lemma DraconianPrefix(requested: string)
    ensures FindFrom(requested, "draconian", 0) == Some(0) <==> StartsWith(requested, "draconian")
  {
  }

  /** `rebind_mspec`'s effect on the requested name and the spec. */
  function Rebound<Spec>(requested: string, actual: string, spec: Spec,
                         addMons: string -> AddResult<Spec>): (r: (string, Spec))
  {
    if requested != actual && FindFrom(requested, "draconian", 0) == Some(0) && addMons(actual).err == ""
    then (actual, addMons(actual).spec)
    else (requested, spec)
  }

  /** The name and spec change only for a draconian request that the game
      answered with another monster whose name parses; then both follow
      the actual monster. */
  lemma ReboundIff<Spec>(requested: string, actual: string, spec: Spec, addMons: string -> AddResult<Spec>)
    ensures var r := Rebound(requested, actual, spec, addMons);
      (r == (actual, addMons(actual).spec) && r.0 != requested)
      <==> (requested != actual && StartsWith(requested, "draconian") && addMons(actual).err == "")
    ensures var r := Rebound(requested, actual, spec, addMons);
      r.0 == requested ==> r.1 == spec
  {
    DraconianPrefix(requested);
  }

  /** Rebinding twice to the same monster changes nothing more. */
  lemma ReboundIdempotent<Spec>(requested: string, actual: string, spec: Spec, addMons: string -> AddResult<Spec>)
    ensures var r := Rebound(requested, actual, spec, addMons);
      Rebound(r.0, actual, r.1, addMons) == r
  {
  }

  /** `rebind_mspec`. */
  method RebindMspec<Spec>(requested: string, actual: string, spec: Spec, addMons: string -> AddResult<Spec>)
    returns (requested': string, spec': Spec)
    ensures (requested', spec') == Rebound(requested, actual, spec, addMons)
  {
    requested', spec' := requested, spec;
    if requested != actual && FindFrom(requested, "draconian", 0) == Some(0) {
      var result := addMons(actual);
      if result.err == "" {
        spec' := result.spec;
        requested' := actual;
      }
    }
  }
}
