/** The averaging loop of `main` (monster-main.cc:558-601) and
    `set_min_max` (412-417). Each of the thousand trials is given as a
    sample: what the generated monster looked like, the spell list the
    engine reported for it, and whether the next monster could be
    generated. Sums are unbounded integers; the `long` and `int`
    accumulators of the source do not overflow for real monster data. */
module Trials {
  import opened Text
  import opened Spells
  import opened Resolution

  const NTrials: nat := 1000

  function Min(a: int, b: int): int {
    if a <= b then a else b
  }

  function Max(a: int, b: int): int {
    if a >= b then a else b
  }

  /** `set_min_max`: 0 stands for "nothing recorded yet". */
  method SetMinMax(num: int, min: int, max: int) returns (min': int, max': int)
    ensures min' == if min == 0 then num else Min(min, num)
    ensures max' == if max == 0 then num else Max(max, num)
  {
    min', max' := min, max;
    if min' == 0 || num < min' {
      min' := num;
    }
    if max' == 0 || num > max' {
      max' := num;
    }
  }

  /** The (min, max) pair after `set_min_max` has seen `xs` in order,
      starting from (0, 0). */
  function Tracked(xs: seq<int>): (int, int)
  {
    if xs == [] then (0, 0)
    else
      var t := Tracked(xs[..|xs| - 1]);
      var x := xs[|xs| - 1];
      (if t.0 == 0 then x else Min(t.0, x), if t.1 == 0 then x else Max(t.1, x))
  }

  function SeqMin(xs: seq<int>): int
    requires xs != []
  {
    if |xs| == 1 then xs[0] else Min(SeqMin(xs[..|xs| - 1]), xs[|xs| - 1])
  }

  function SeqMax(xs: seq<int>): int
    requires xs != []
  {
    if |xs| == 1 then xs[0] else Max(SeqMax(xs[..|xs| - 1]), xs[|xs| - 1])
  }

  /** With no zero sample, the tracked pair is the true minimum and
      maximum: each is a sample and bounds every sample. */
  lemma {:induction false} TrackedIsRange(xs: seq<int>)
    requires xs != [] && forall i :: 0 <= i < |xs| ==> xs[i] != 0
    ensures Tracked(xs) == (SeqMin(xs), SeqMax(xs))
    ensures Tracked(xs).0 in xs && Tracked(xs).1 in xs
    ensures forall i :: 0 <= i < |xs| ==> Tracked(xs).0 <= xs[i] <= Tracked(xs).1
  {
    var init := xs[..|xs| - 1];
    if |xs| > 1 {
      TrackedIsRange(init);
    }
    assert xs == init + [xs[|xs| - 1]];
  }

  /** A zero sample is taken for "unset": the next sample replaces it. */
  lemma ZeroSampleForgotten()
    ensures Tracked([10, 0, 5]) == (5, 10)
  {
    assert [10, 0, 5][..2] == [10, 0];
    assert [10, 0][..1] == [10];
  }

  /** One generated monster, as the loop sees it. */
  datatype Sample = Sample(
    name: string,        // `mp->name(DESC_PLAIN, true)`
    zombified: bool,     // `mons_class_is_zombified(mp->type)`
    spellSet: string,    // `mons_spell_set(mp)`
    xp: int, ac: int, ev: int, speed: int, hp: int,
    recreated: bool)     // `mi_create_monster(spec) != -1` after this trial

  function Xp(s: Sample): int { s.xp }
  function Ac(s: Sample): int { s.ac }
  function Ev(s: Sample): int { s.ev }
  function Speed(s: Sample): int { s.speed }
  function Hp(s: Sample): int { s.hp }

  function Project(ss: seq<Sample>, f: Sample -> int): (r: seq<int>)
    ensures |r| == |ss|
    ensures forall i :: 0 <= i < |ss| ==> r[i] == f(ss[i])
  {
    if ss == [] then [] else Project(ss[..|ss| - 1], f) + [f(ss[|ss| - 1])]
  }

  function Sum(xs: seq<int>): int
  {
    if xs == [] then 0 else Sum(xs[..|xs| - 1]) + xs[|xs| - 1]
  }

  /** The spell lists `record_spell_set` offers: those of monsters that
      are not zombies. */
  function OfferedSpellSets(ss: seq<Sample>): seq<string>
  {
    if ss == [] then []
    else
      var s := ss[|ss| - 1];
      OfferedSpellSets(ss[..|ss| - 1]) + (if s.zombified || s.spellSet == "" then [] else [s.spellSet])
  }

  /** The request and spec after rebinding to each trial's monster in turn. */
  function RebindAll<Spec>(target: string, spec: Spec, ss: seq<Sample>, addMons: string -> AddResult<Spec>): (string, Spec)
  {
    if ss == [] then (target, spec)
    else
      var r := RebindAll(target, spec, ss[..|ss| - 1], addMons);
      Rebound(r.0, ss[|ss| - 1].name, r.1, addMons)
  }

  /** What the loop leaves behind: the three means, the speed and hit
      point ranges, the set of spell lists, and the request and spec as
      rebound. */
  datatype Stats<Spec> = Stats(
    exper: int, ac: int, ev: int,
    speedMin: int, speedMax: int, hpMin: int, hpMax: int,
    spellSets: seq<string>, target: string, spec: Spec)

  datatype TrialOutcome<Spec> =
    | Completed(stats: Stats<Spec>)
    | GenerationFailed(message: string)

  /** The first trial after which no monster could be generated. */
  function FirstFailure(ss: seq<Sample>): (k: Option<nat>)
    ensures k.Some? ==> k.value < |ss| && !ss[k.value].recreated
                        && forall j :: 0 <= j < k.value ==> ss[j].recreated
    ensures k.None? ==> forall j :: 0 <= j < |ss| ==> ss[j].recreated
  {
    if ss == [] then None
    else if !ss[0].recreated then Some(0)
    else match FirstFailure(ss[1..])
      case None => None
      case Some(k) => Some(k + 1)
  }

  /** The loop's outcome over the samples. */
  function Trials<Spec>(samples: seq<Sample>, target: string, spec: Spec, addMons: string -> AddResult<Spec>): TrialOutcome<Spec>
  {
    match FirstFailure(samples)
    case Some(k) =>
      GenerationFailed("Unexpected failure generating monster for " + RebindAll(target, spec, samples[..k + 1], addMons).0)
    case None =>
      var speeds := Tracked(Project(samples, Speed));
      var hps := Tracked(Project(samples, Hp));
      var r := RebindAll(target, spec, samples, addMons);
      Completed(Stats(
        TruncDiv(Sum(Project(samples, Xp)), NTrials),
        TruncDiv(Sum(Project(samples, Ac)), NTrials),
        TruncDiv(Sum(Project(samples, Ev)), NTrials),
        speeds.0, speeds.1, hps.0, hps.1,
        Collect(OfferedSpellSets(samples)), r.0, r.1))
  }

  /** The state the loop carries from one trial to the next. */
  datatype Running<Spec> = Running(
    exper: int, mac: int, mev: int,
    speedMin: int, speedMax: int, hpMin: int, hpMax: int,
    spellSets: seq<string>, target: string, spec: Spec)

  /** The state before the first trial. */
  function Start<Spec>(target: string, spec: Spec): Running<Spec> {
    Running(0, 0, 0, 0, 0, 0, 0, [], target, spec)
  }

  /** One trial as the loop performs it. */
  function Step<Spec>(run: Running<Spec>, s: Sample, addMons: string -> AddResult<Spec>): (run': Running<Spec>)
    requires Sorted(run.spellSets)
    ensures Sorted(run'.spellSets)
  {
    var t := Rebound(run.target, s.name, run.spec, addMons);
    Running(run.exper + s.xp, run.mac + s.ac, run.mev + s.ev,
            if run.speedMin == 0 then s.speed else Min(run.speedMin, s.speed),
            if run.speedMax == 0 then s.speed else Max(run.speedMax, s.speed),
            if run.hpMin == 0 then s.hp else Min(run.hpMin, s.hp),
            if run.hpMax == 0 then s.hp else Max(run.hpMax, s.hp),
            if s.zombified then run.spellSets else RecordSpellSet(run.spellSets, s.spellSet),
            t.0, t.1)
  }

  /** The state after the trials `ss`, one step at a time. */
  function After<Spec>(ss: seq<Sample>, target: string, spec: Spec, addMons: string -> AddResult<Spec>): (run: Running<Spec>)
    ensures Sorted(run.spellSets)
  {
    if ss == [] then Start(target, spec)
    else Step(After(ss[..|ss| - 1], target, spec, addMons), ss[|ss| - 1], addMons)
  }

  lemma AfterSnoc<Spec>(ss: seq<Sample>, s: Sample, target: string, spec: Spec, addMons: string -> AddResult<Spec>)
    ensures After(ss + [s], target, spec, addMons) == Step(After(ss, target, spec, addMons), s, addMons)
  {
    assert (ss + [s])[..|ss|] == ss;
  }

  lemma AfterNext<Spec>(samples: seq<Sample>, i: nat, target: string, spec: Spec, addMons: string -> AddResult<Spec>)
    requires i < |samples|
    ensures After(samples[..i + 1], target, spec, addMons) == Step(After(samples[..i], target, spec, addMons), samples[i], addMons)
  {
    AfterSnoc(samples[..i], samples[i], target, spec, addMons);
    assert samples[..i + 1] == samples[..i] + [samples[i]];
  }

  lemma ProjectSnoc(ss: seq<Sample>, s: Sample, f: Sample -> int)
    ensures Project(ss + [s], f) == Project(ss, f) + [f(s)]
  {
    assert (ss + [s])[..|ss|] == ss;
  }

  /** The three sums of the running state are the sums over the trials. */
  lemma {:induction false} AfterSums<Spec>(ss: seq<Sample>, target: string, spec: Spec, addMons: string -> AddResult<Spec>)
    ensures var run := After(ss, target, spec, addMons);
      run.exper == Sum(Project(ss, Xp)) && run.mac == Sum(Project(ss, Ac)) && run.mev == Sum(Project(ss, Ev))
  {
    if ss != [] {
      var init, s := ss[..|ss| - 1], ss[|ss| - 1];
      AfterSums(init, target, spec, addMons);
      assert ss == init + [s];
      ProjectSnoc(init, s, Xp);
      ProjectSnoc(init, s, Ac);
      ProjectSnoc(init, s, Ev);
      assert (Project(init, Xp) + [s.xp])[..|init|] == Project(init, Xp);
      assert (Project(init, Ac) + [s.ac])[..|init|] == Project(init, Ac);
      assert (Project(init, Ev) + [s.ev])[..|init|] == Project(init, Ev);
    }
  }

  /** The speed and hit point ranges of the running state are what
      `set_min_max` makes of the trials' values. */
  lemma {:induction false} AfterRanges<Spec>(ss: seq<Sample>, target: string, spec: Spec, addMons: string -> AddResult<Spec>)
    ensures var run := After(ss, target, spec, addMons);
      (run.speedMin, run.speedMax) == Tracked(Project(ss, Speed))
      && (run.hpMin, run.hpMax) == Tracked(Project(ss, Hp))
  {
    if ss != [] {
      var init, s := ss[..|ss| - 1], ss[|ss| - 1];
      AfterRanges(init, target, spec, addMons);
      assert ss == init + [s];
      ProjectSnoc(init, s, Speed);
      ProjectSnoc(init, s, Hp);
      assert (Project(init, Speed) + [s.speed])[..|init|] == Project(init, Speed);
      assert (Project(init, Hp) + [s.hp])[..|init|] == Project(init, Hp);
    }
  }

  lemma OfferedSnoc(ss: seq<Sample>, s: Sample)
    ensures Collect(OfferedSpellSets(ss + [s]))
         == if s.zombified then Collect(OfferedSpellSets(ss))
            else RecordSpellSet(Collect(OfferedSpellSets(ss)), s.spellSet)
  {
    var all := ss + [s];
    assert all[..|ss|] == ss;
    if s.zombified || s.spellSet == "" {
      assert OfferedSpellSets(all) == OfferedSpellSets(ss) + [];
      assert OfferedSpellSets(ss) + [] == OfferedSpellSets(ss);
    } else {
      assert OfferedSpellSets(all) == OfferedSpellSets(ss) + [s.spellSet];
      CollectSnoc(OfferedSpellSets(ss), s.spellSet);
    }
  }

  /** The set of spell lists in the running state is the set of those
      the trials offered. */
  lemma {:induction false} AfterSpellSets<Spec>(ss: seq<Sample>, target: string, spec: Spec, addMons: string -> AddResult<Spec>)
    ensures After(ss, target, spec, addMons).spellSets == Collect(OfferedSpellSets(ss))
  {
    if ss != [] {
      var init, s := ss[..|ss| - 1], ss[|ss| - 1];
      AfterSpellSets(init, target, spec, addMons);
      assert ss == init + [s];
      OfferedSnoc(init, s);
    }
  }

  /** The request and spec of the running state are those rebound to
      each trial's monster in turn. */
  lemma {:induction false} AfterRebinds<Spec>(ss: seq<Sample>, target: string, spec: Spec, addMons: string -> AddResult<Spec>)
    ensures var run := After(ss, target, spec, addMons);
      (run.target, run.spec) == RebindAll(target, spec, ss, addMons)
  {
    if ss != [] {
      AfterRebinds(ss[..|ss| - 1], target, spec, addMons);
    }
  }

  /** `record_spell_set`, skipped for zombies. */
  method RecordSpells(sets: seq<string>, s: Sample) returns (sets': seq<string>)
    requires Sorted(sets)
    ensures Sorted(sets')
    ensures forall x :: x in sets' <==> x in sets || (!s.zombified && x == s.spellSet && x != "")
  {
    sets' := sets;
    if !s.zombified {
      sets' := RecordSpellSet(sets, s.spellSet);
    }
  }

  /** One trial of the loop: record the spell list, add to the sums, widen
      the ranges, and rebind the request to the monster generated. */
  method RecordTrial<Spec>(run: Running<Spec>, s: Sample, addMons: string -> AddResult<Spec>)
    returns (run': Running<Spec>)
    requires Sorted(run.spellSets)
    ensures run' == Step(run, s, addMons)
  {
    var spellSets := run.spellSets;
    if !s.zombified {
      spellSets := RecordSpellSet(spellSets, s.spellSet);
    }
    var speedMin, speedMax := SetMinMax(s.speed, run.speedMin, run.speedMax);
    var hpMin, hpMax := SetMinMax(s.hp, run.hpMin, run.hpMax);
    var target', spec' := RebindMspec(run.target, s.name, run.spec, addMons);
    run' := Running(run.exper + s.xp, run.mac + s.ac, run.mev + s.ev,
                    speedMin, speedMax, hpMin, hpMax, spellSets, target', spec');
  }

  /** The averaging loop of `main`. */
  method RunTrials<Spec>(samples: seq<Sample>, target: string, spec: Spec, addMons: string -> AddResult<Spec>)
    returns (r: TrialOutcome<Spec>)
    requires |samples| == NTrials
    ensures r == Trials(samples, target, spec, addMons)
  {
    var run := Start(target, spec);
    assert samples[..0] == [];
    var i := 0;
    while i < NTrials
      invariant 0 <= i <= NTrials
      invariant run == After(samples[..i], target, spec, addMons)
      invariant forall j :: 0 <= j < i ==> samples[j].recreated
    {
      AfterNext(samples, i, target, spec, addMons);
      run := RecordTrial(run, samples[i], addMons);
      if !samples[i].recreated {
        TrialsFailed(samples, target, spec, addMons, i);
        return GenerationFailed("Unexpected failure generating monster for " + run.target);
      }
      i := i + 1;
    }
    assert samples[..NTrials] == samples;
    TrialsCompleted(samples, target, spec, addMons);
    r := Completed(Stats(TruncDiv(run.exper, NTrials), TruncDiv(run.mac, NTrials), TruncDiv(run.mev, NTrials),
                         run.speedMin, run.speedMax, run.hpMin, run.hpMax, run.spellSets, run.target, run.spec));
  }

  /** A failed generation reports the request as the loop has rebound it. */
  lemma TrialsFailed<Spec>(samples: seq<Sample>, target: string, spec: Spec, addMons: string -> AddResult<Spec>, k: nat)
    requires k < |samples| && !samples[k].recreated
    requires forall j :: 0 <= j < k ==> samples[j].recreated
    ensures Trials(samples, target, spec, addMons)
         == GenerationFailed("Unexpected failure generating monster for " + After(samples[..k + 1], target, spec, addMons).target)
  {
    FailureNamesRebound(samples, target, spec, addMons, k);
    AfterRebinds(samples[..k + 1], target, spec, addMons);
  }

  /** With every trial generating its successor, the outcome is the
      running state after all samples, with the sums divided. */
  lemma TrialsCompleted<Spec>(samples: seq<Sample>, target: string, spec: Spec, addMons: string -> AddResult<Spec>)
    requires forall j :: 0 <= j < |samples| ==> samples[j].recreated
    ensures var run := After(samples, target, spec, addMons);
      Trials(samples, target, spec, addMons)
      == Completed(Stats(TruncDiv(run.exper, NTrials), TruncDiv(run.mac, NTrials), TruncDiv(run.mev, NTrials),
                         run.speedMin, run.speedMax, run.hpMin, run.hpMax, run.spellSets, run.target, run.spec))
  {
    AfterSums(samples, target, spec, addMons);
    AfterRanges(samples, target, spec, addMons);
    AfterSpellSets(samples, target, spec, addMons);
    AfterRebinds(samples, target, spec, addMons);
  }

  lemma {:induction false} FirstFailureAt(ss: seq<Sample>, k: nat)
    requires k < |ss| && !ss[k].recreated
    requires forall j :: 0 <= j < k ==> ss[j].recreated
    ensures FirstFailure(ss) == Some(k)
  {
    if k > 0 {
      FirstFailureAt(ss[1..], k - 1);
    }
  }

  /** When every trial completes, the means are the sums over the
      thousand samples divided by a thousand, truncated toward zero. */
  lemma CompletedMeans<Spec>(samples: seq<Sample>, target: string, spec: Spec, addMons: string -> AddResult<Spec>)
    requires forall j :: 0 <= j < |samples| ==> samples[j].recreated
    ensures var r := Trials(samples, target, spec, addMons);
      r.Completed?
      && Abs(r.stats.exper) == Abs(Sum(Project(samples, Xp))) / 1000
      && Abs(r.stats.ac) == Abs(Sum(Project(samples, Ac))) / 1000
      && Abs(r.stats.ev) == Abs(Sum(Project(samples, Ev))) / 1000
      && (Sum(Project(samples, Xp)) >= 0 ==> r.stats.exper >= 0)
      && (Sum(Project(samples, Xp)) <= 0 ==> r.stats.exper <= 0)
      && (Sum(Project(samples, Ac)) >= 0 ==> r.stats.ac >= 0)
      && (Sum(Project(samples, Ac)) <= 0 ==> r.stats.ac <= 0)
      && (Sum(Project(samples, Ev)) >= 0 ==> r.stats.ev >= 0)
      && (Sum(Project(samples, Ev)) <= 0 ==> r.stats.ev <= 0)
  {
    assert FirstFailure(samples).None?;
  }

  /** When every trial completes and no speed or hit point sample is
      zero, the ranges are the least and greatest samples and so bound
      every one of them. */
  lemma CompletedRanges<Spec>(samples: seq<Sample>, target: string, spec: Spec, addMons: string -> AddResult<Spec>)
    requires samples != []
    requires forall j :: 0 <= j < |samples| ==> samples[j].recreated
    requires forall j :: 0 <= j < |samples| ==> samples[j].speed != 0 && samples[j].hp != 0
    ensures var r := Trials(samples, target, spec, addMons);
      r.Completed?
      && r.stats.speedMin == SeqMin(Project(samples, Speed)) && r.stats.speedMax == SeqMax(Project(samples, Speed))
      && r.stats.hpMin == SeqMin(Project(samples, Hp)) && r.stats.hpMax == SeqMax(Project(samples, Hp))
      && (forall j :: 0 <= j < |samples| ==> r.stats.speedMin <= samples[j].speed <= r.stats.speedMax)
      && (forall j :: 0 <= j < |samples| ==> r.stats.hpMin <= samples[j].hp <= r.stats.hpMax)
  {
    CompletedTracks(samples, target, spec, addMons);
    ProjectRange(samples, Speed);
    ProjectRange(samples, Hp);
  }

  lemma CompletedTracks<Spec>(samples: seq<Sample>, target: string, spec: Spec, addMons: string -> AddResult<Spec>)
    requires forall j :: 0 <= j < |samples| ==> samples[j].recreated
    ensures var r := Trials(samples, target, spec, addMons);
      r.Completed?
      && (r.stats.speedMin, r.stats.speedMax) == Tracked(Project(samples, Speed))
      && (r.stats.hpMin, r.stats.hpMax) == Tracked(Project(samples, Hp))
  {
    assert FirstFailure(samples).None?;
  }

  /** The tracked range of one projected quantity, when no sample of it
      is zero, is its least and greatest sample. */
  lemma ProjectRange(ss: seq<Sample>, f: Sample -> int)
    requires ss != [] && forall j :: 0 <= j < |ss| ==> f(ss[j]) != 0
    ensures Tracked(Project(ss, f)) == (SeqMin(Project(ss, f)), SeqMax(Project(ss, f)))
    ensures forall j :: 0 <= j < |ss| ==> Tracked(Project(ss, f)).0 <= f(ss[j]) <= Tracked(Project(ss, f)).1
  {
    var xs := Project(ss, f);
    TrackedIsRange(xs);
    forall j | 0 <= j < |ss| ensures Tracked(xs).0 <= f(ss[j]) <= Tracked(xs).1 {
      assert xs[j] == f(ss[j]);
    }
  }

  /** Every spell list a living monster reported appears once in the
      report's set, and nothing else does. */
  lemma SpellSetsCollected<Spec>(samples: seq<Sample>, target: string, spec: Spec, addMons: string -> AddResult<Spec>)
    requires forall j :: 0 <= j < |samples| ==> samples[j].recreated
    ensures var r := Trials(samples, target, spec, addMons);
      r.Completed? && Sorted(r.stats.spellSets)
      && forall x :: x in r.stats.spellSets <==>
           exists j :: 0 <= j < |samples| && !samples[j].zombified && samples[j].spellSet == x && x != ""
  {
    OfferedSpellSetsAre(samples);
  }

  lemma {:induction false} OfferedSpellSetsAre(ss: seq<Sample>)
    ensures forall x :: x in OfferedSpellSets(ss) <==>
              exists j :: 0 <= j < |ss| && !ss[j].zombified && ss[j].spellSet == x && x != ""
  {
    if ss != [] {
      var init := ss[..|ss| - 1];
      OfferedSpellSetsAre(init);
      forall x ensures x in OfferedSpellSets(ss) <==>
                 exists j :: 0 <= j < |ss| && !ss[j].zombified && ss[j].spellSet == x && x != ""
      {
        if x in OfferedSpellSets(init) {
          var j :| 0 <= j < |init| && !init[j].zombified && init[j].spellSet == x && x != "";
          assert ss[j] == init[j];
        }
        if exists j :: 0 <= j < |ss| && !ss[j].zombified && ss[j].spellSet == x && x != "" {
          var j :| 0 <= j < |ss| && !ss[j].zombified && ss[j].spellSet == x && x != "";
          if j < |init| {
            assert init[j] == ss[j];
          }
        }
      }
    }
  }

  /** A failed generation reports the request as rebound up to and
      including the failing trial. */
  lemma FailureNamesRebound<Spec>(samples: seq<Sample>, target: string, spec: Spec,
                                  addMons: string -> AddResult<Spec>, k: nat)
    requires k < |samples| && !samples[k].recreated
    requires forall j :: 0 <= j < k ==> samples[j].recreated
    ensures Trials(samples, target, spec, addMons)
         == GenerationFailed("Unexpected failure generating monster for "
                             + RebindAll(target, spec, samples[..k + 1], addMons).0)
  {
    FirstFailureAt(samples, k);
  }
}
