/**
 Finding a device's interrupt pad by watching: four flags a pad, standing for everything it was ever
 seen to do.
 */
module GpioCalibration {
  import opened Common
  import opened Words

  const MAX_CANDIDATES: nat := 32
  const NEEDED: nat := 4
  const U32_MAX: nat := 0xFFFF_FFFF

  type Pad = nat

  // What a pad has been seen doing: high and low with a report waiting, high and low with none.
  datatype Seen = Seen(busyHigh: bool, busyLow: bool, idleHigh: bool, idleLow: bool)

  const UNSEEN := Seen(false, false, false, false)

  datatype Answer = Answer(pad: Pad, assertedHigh: bool)

  datatype Calibration = Calibration(pads: seq<Pad>, seen: seq<Seen>, reports: nat, quiet: nat)

  predicate Shape(c: Calibration) {
    |c.seen| == |c.pads| <= MAX_CANDIDATES
  }

  function Fresh(pads: seq<Pad>): Calibration {
    Calibration(pads, seq(|pads|, _ => UNSEEN), 0, 0)
  }

  function SaturatingInc(n: nat): nat {
    if n >= U32_MAX then U32_MAX else n + 1
  }

  // Flags only ever go up: `seen |= flag`.
  function Noted(s: Seen, hadReport: bool, high: bool): Seen {
    match (hadReport, high)
    case (true, true) => s.(busyHigh := true)
    case (true, false) => s.(busyLow := true)
    case (false, true) => s.(idleHigh := true)
    case (false, false) => s.(idleLow := true)
  }

  function Observe(c: Calibration, levels: seq<bool>, hadReport: bool): (r: Calibration)
    requires Shape(c)
    ensures Shape(r) && r.pads == c.pads
  {
    if |levels| != |c.pads| then c
    else
      c.(reports := if hadReport then SaturatingInc(c.reports) else c.reports,
         quiet := if hadReport then c.quiet else SaturatingInc(c.quiet),
         seen := seq(|c.seen|, i requires 0 <= i < |c.seen| => Noted(c.seen[i], hadReport, levels[i])))
  }

  // The flags of a pad that was `high` for reports only, and the opposite for quiet polls only.
  predicate Asserted(s: Seen, high: bool) {
    s == if high then Seen(true, false, false, true) else Seen(false, true, true, false)
  }

  predicate Survives(s: Seen) {
    Asserted(s, true) || Asserted(s, false)
  }

  // The only survivor among pads `from` on, given the survivor found so far; none if there are two.
  function Narrow(c: Calibration, answer: Option<Answer>, from: nat): Option<Answer>
    requires Shape(c) && from <= |c.pads|
    decreases |c.pads| - from
  {
    if from == |c.pads| then answer
    else if !Survives(c.seen[from]) then Narrow(c, answer, from + 1)
    else if answer.Some? then None
    else Narrow(c, Some(Answer(c.pads[from], Asserted(c.seen[from], true))), from + 1)
  }

  function Settled(c: Calibration): Option<Answer>
    requires Shape(c)
  {
    if c.reports < NEEDED || c.quiet < NEEDED then None else Narrow(c, None, 0)
  }

  // ------------------------------------------------------------------------
  // The whole history
  // ------------------------------------------------------------------------

  /** One labelled sample: every pad's level before a poll, and whether the poll found a report. */
  datatype Observation = Observation(levels: seq<bool>, hadReport: bool)

  predicate Watches(history: seq<Observation>, pads: nat) {
    forall o :: o in history ==> |o.levels| == pads
  }

  function After(pads: seq<Pad>, history: seq<Observation>): (c: Calibration)
    requires |pads| <= MAX_CANDIDATES
    ensures Shape(c) && c.pads == pads
    decreases |history|
  {
    if history == [] then Fresh(pads)
    else
      var last := history[|history| - 1];
      Observe(After(pads, history[..|history| - 1]), last.levels, last.hadReport)
  }

  function Count(history: seq<Observation>, hadReport: bool): nat
    decreases |history|
  {
    if history == [] then 0
    else Count(history[..|history| - 1], hadReport) + if history[|history| - 1].hadReport == hadReport then 1 else 0
  }

  // Pad `i` was at some level in some sample with this label.
  ghost predicate Was(history: seq<Observation>, i: nat, hadReport: bool, high: bool) {
    exists k :: 0 <= k < |history| && history[k].hadReport == hadReport
             && i < |history[k].levels| && history[k].levels[i] == high
  }

  ghost function SeenIn(history: seq<Observation>, i: nat): Seen {
    Seen(Was(history, i, true, true), Was(history, i, true, false),
         Was(history, i, false, true), Was(history, i, false, false))
  }

  // In every sample so far, pad `i` was at `level` exactly when a report was waiting.
  ghost predicate Correlates(history: seq<Observation>, i: nat, level: bool) {
    forall k :: 0 <= k < |history| && i < |history[k].levels| ==>
      (history[k].levels[i] == level <==> history[k].hadReport)
  }

  lemma WasAppend(history: seq<Observation>, o: Observation, i: nat, hadReport: bool, high: bool)
    requires i < |o.levels|
    ensures Was(history + [o], i, hadReport, high) <==>
            Was(history, i, hadReport, high) || (o.hadReport == hadReport && o.levels[i] == high)
  {
    var h := history + [o];
    if Was(history, i, hadReport, high) {
      var k :| 0 <= k < |history| && history[k].hadReport == hadReport
               && i < |history[k].levels| && history[k].levels[i] == high;
      assert h[k] == history[k];
    }
    assert h[|history|] == o;
  }

  /** The four flags say exactly what the whole history did, and the counters count it. */
  lemma {:induction false} FlagsSummariseHistory(pads: seq<Pad>, history: seq<Observation>, i: nat)
    requires |pads| <= MAX_CANDIDATES && Watches(history, |pads|) && i < |pads|
    ensures After(pads, history).seen[i] == SeenIn(history, i)
    decreases |history|
  {
    if history != [] {
      var n := |history| - 1;
      var before, o := history[..n], history[n];
      assert history == before + [o];
      assert o in history;
      FlagsSummariseHistory(pads, before, i);
      WasAppend(before, o, i, true, true);
      WasAppend(before, o, i, true, false);
      WasAppend(before, o, i, false, true);
      WasAppend(before, o, i, false, false);
    }
  }

  lemma {:induction false} CountersCount(pads: seq<Pad>, history: seq<Observation>)
    requires |pads| <= MAX_CANDIDATES && Watches(history, |pads|)
    ensures After(pads, history).reports == if Count(history, true) < U32_MAX then Count(history, true) else U32_MAX
    ensures After(pads, history).quiet == if Count(history, false) < U32_MAX then Count(history, false) else U32_MAX
    decreases |history|
  {
    if history != [] {
      assert history[|history| - 1] in history;
      CountersCount(pads, history[..|history| - 1]);
    }
  }

  lemma {:induction false} CountedMeansPresent(history: seq<Observation>, hadReport: bool)
    requires Count(history, hadReport) > 0
    ensures exists k :: 0 <= k < |history| && history[k].hadReport == hadReport
    decreases |history|
  {
    var n := |history| - 1;
    if history[n].hadReport != hadReport {
      CountedMeansPresent(history[..n], hadReport);
      var k :| 0 <= k < n && history[..n][k].hadReport == hadReport;
      assert history[k].hadReport == hadReport;
    }
  }

  lemma CorrelatesIsTwoFlags(history: seq<Observation>, i: nat, level: bool)
    ensures Correlates(history, i, level) <==> !Was(history, i, true, !level) && !Was(history, i, false, level)
  {
    forall k | 0 <= k < |history| && i < |history[k].levels|
      ensures Was(history, i, history[k].hadReport, history[k].levels[i])
    {
    }
  }

  // With samples of both labels, the flags of a survivor are exactly those of a correlated pad.
  lemma SurvivorCorrelates(history: seq<Observation>, i: nat, pads: nat, level: bool)
    requires Watches(history, pads) && i < pads && Count(history, true) > 0 && Count(history, false) > 0
    ensures Asserted(SeenIn(history, i), level) <==> Correlates(history, i, level)
  {
    CorrelatesIsTwoFlags(history, i, level);
    CountedMeansPresent(history, true);
    CountedMeansPresent(history, false);
    var b :| 0 <= b < |history| && history[b].hadReport;
    var q :| 0 <= q < |history| && !history[q].hadReport;
    assert history[b] in history && history[q] in history;
    assert Was(history, i, true, history[b].levels[i]) && Was(history, i, false, history[q].levels[i]);
  }

  // Pad `i` survives, and no other pad from `from` on does.
  ghost predicate SoleSurvivor(c: Calibration, from: nat, i: nat)
    requires Shape(c)
  {
    from <= i < |c.pads| && Survives(c.seen[i]) && forall j :: from <= j < |c.pads| && j != i ==> !Survives(c.seen[j])
  }

  ghost predicate NoSurvivor(c: Calibration, from: nat)
    requires Shape(c)
  {
    forall j :: from <= j < |c.pads| ==> !Survives(c.seen[j])
  }

  function AnswerFor(c: Calibration, i: nat): Answer
    requires Shape(c) && i < |c.pads|
  {
    Answer(c.pads[i], Asserted(c.seen[i], true))
  }

  lemma {:induction false} NarrowKeeps(c: Calibration, answer: Option<Answer>, from: nat)
    requires Shape(c) && from <= |c.pads| && NoSurvivor(c, from)
    ensures Narrow(c, answer, from) == answer
    decreases |c.pads| - from
  {
    if from < |c.pads| { NarrowKeeps(c, answer, from + 1); }
  }

  lemma {:induction false} NarrowFinds(c: Calibration, from: nat, i: nat)
    requires Shape(c) && from <= |c.pads| && SoleSurvivor(c, from, i)
    ensures Narrow(c, None, from) == Some(AnswerFor(c, i))
    decreases |c.pads| - from
  {
    if from == i { NarrowKeeps(c, Some(AnswerFor(c, i)), from + 1); } else { NarrowFinds(c, from + 1, i); }
  }

  lemma {:induction false} NarrowMeans(c: Calibration, answer: Option<Answer>, from: nat) returns (i: nat)
    requires Shape(c) && from <= |c.pads| && Narrow(c, answer, from).Some?
    ensures if answer.Some? then NoSurvivor(c, from) && Narrow(c, answer, from) == answer
            else SoleSurvivor(c, from, i) && Narrow(c, answer, from) == Some(AnswerFor(c, i))
    decreases |c.pads| - from
  {
    i := from;
    if from < |c.pads| {
      if !Survives(c.seen[from]) {
        i := NarrowMeans(c, answer, from + 1);
      } else {
        var _ := NarrowMeans(c, Some(AnswerFor(c, from)), from + 1);
      }
    }
  }

  // Pad `i` follows the reports at the answer's level, and no other pad follows them at either level.
  ghost predicate IsTheLine(pads: seq<Pad>, history: seq<Observation>, i: nat, a: Answer) {
    && i < |pads| && pads[i] == a.pad && Correlates(history, i, a.assertedHigh)
    && forall j :: 0 <= j < |pads| && j != i ==> !Correlates(history, j, true) && !Correlates(history, j, false)
  }

  // Seen through the history, surviving is correlating.
  lemma SurvivesMeansCorrelates(pads: seq<Pad>, history: seq<Observation>, i: nat, level: bool)
    requires |pads| <= MAX_CANDIDATES && Watches(history, |pads|) && i < |pads|
    requires Count(history, true) > 0 && Count(history, false) > 0
    ensures Asserted(After(pads, history).seen[i], level) <==> Correlates(history, i, level)
  {
    FlagsSummariseHistory(pads, history, i);
    SurvivorCorrelates(history, i, |pads|, level);
  }

  lemma LineIsSoleSurvivor(pads: seq<Pad>, history: seq<Observation>, i: nat, a: Answer)
    requires |pads| <= MAX_CANDIDATES && Watches(history, |pads|)
    requires Count(history, true) > 0 && Count(history, false) > 0
    ensures var c := After(pads, history);
            IsTheLine(pads, history, i, a) <==> SoleSurvivor(c, 0, i) && a == AnswerFor(c, i)
  {
    forall j | 0 <= j < |pads|
      ensures Asserted(After(pads, history).seen[j], true) <==> Correlates(history, j, true)
      ensures Asserted(After(pads, history).seen[j], false) <==> Correlates(history, j, false)
    {
      SurvivesMeansCorrelates(pads, history, j, true);
      SurvivesMeansCorrelates(pads, history, j, false);
    }
  }

  /**
   `settled` answers (pad, level) exactly when at least four samples of each label were taken and
   exactly one watched pad was at that level whenever there was a report and never when there was none.
   */
  lemma SettledIsExact(pads: seq<Pad>, history: seq<Observation>, a: Answer)
    requires |pads| <= MAX_CANDIDATES && Watches(history, |pads|)
    ensures Settled(After(pads, history)) == Some(a) <==>
            && Count(history, true) >= 4 && Count(history, false) >= 4
            && exists i :: IsTheLine(pads, history, i, a)
  {
    var c := After(pads, history);
    CountersCount(pads, history);
    if Count(history, true) >= NEEDED && Count(history, false) >= NEEDED {
      if Settled(c) == Some(a) {
        var i := NarrowMeans(c, None, 0);
        LineIsSoleSurvivor(pads, history, i, a);
      }
      forall i: nat | IsTheLine(pads, history, i, a) ensures Settled(c) == Some(a) {
        LineIsSoleSurvivor(pads, history, i, a);
        NarrowFinds(c, 0, i);
      }
    }
  }

  lemma CorrelatesShrinks(history: seq<Observation>, more: seq<Observation>, i: nat, level: bool)
    requires Correlates(history + more, i, level)
    ensures Correlates(history, i, level)
  {
    forall k | 0 <= k < |history| && i < |history[k].levels|
      ensures history[k].levels[i] == level <==> history[k].hadReport
    {
      assert (history + more)[k] == history[k];
    }
  }

  lemma {:induction false} CountGrows(history: seq<Observation>, more: seq<Observation>, hadReport: bool)
    ensures Count(history, hadReport) <= Count(history + more, hadReport)
    decreases |more|
  {
    if more == [] {
      assert history + more == history;
    } else {
      var n := |more| - 1;
      assert (history + more)[..|history + more| - 1] == history + more[..n];
      CountGrows(history, more[..n], hadReport);
    }
  }

  /** Once a pad has been named, watching on can lose it but never name another, nor the other level. */
  lemma AnswerIsStable(pads: seq<Pad>, history: seq<Observation>, more: seq<Observation>, a: Answer, b: Answer)
    requires |pads| <= MAX_CANDIDATES && Watches(history, |pads|) && Watches(more, |pads|)
    requires Settled(After(pads, history)) == Some(a) && Settled(After(pads, history + more)) == Some(b)
    ensures a == b
  {
    var all := history + more;
    forall o | o in all ensures |o.levels| == |pads| {
      assert o in history || o in more;
    }
    SettledIsExact(pads, history, a);
    SettledIsExact(pads, all, b);
    var i: nat :| IsTheLine(pads, history, i, a);
    var j: nat :| IsTheLine(pads, all, j, b);
    CorrelatesShrinks(history, more, j, b.assertedHigh);
    CorrelatesOneWay(history, j, |pads|);
  }

  lemma CorrelatesOneWay(history: seq<Observation>, i: nat, pads: nat)
    requires Watches(history, pads) && i < pads && Count(history, true) > 0 && Count(history, false) > 0
    ensures !(Correlates(history, i, true) && Correlates(history, i, false))
  {
    SurvivorCorrelates(history, i, pads, true);
    SurvivorCorrelates(history, i, pads, false);
  }

  /** A tie is not final: two pads that both follow the reports are told apart as soon as one slips. */
  lemma TieCanResolve(p: Pad, q: Pad)
    ensures var both := [Observation([true, true], true), Observation([false, false], false)];
            var tied := both + both + both + both;
            && Settled(After([p, q], tied)) == None
            && Settled(After([p, q], tied + [Observation([true, false], true)])) == Some(Answer(p, true))
  {
    var on, off := Observation([true, true], true), Observation([false, false], false);
    var tied := [on, off] + [on, off] + [on, off] + [on, off];
    var slip := Observation([true, false], true);
    TiedAfter(p, q, 4);
    assert Alternating(4) == tied;
    var c := After([p, q], tied);
    if Settled(c).Some? { var i := NarrowMeans(c, None, 0); }
    assert (tied + [slip])[..|tied|] == tied;
    var c' := After([p, q], tied + [slip]);
    assert c' == Observe(c, slip.levels, slip.hadReport);
    NarrowFinds(c', 0, 0);
  }

  function Alternating(n: nat): seq<Observation> {
    if n == 0 then []
    else Alternating(n - 1) + [Observation([true, true], true), Observation([false, false], false)]
  }

  lemma {:induction false} TiedAfter(p: Pad, q: Pad, n: nat)
    requires n < 100
    ensures var c := After([p, q], Alternating(n));
            && c.reports == n && c.quiet == n
            && (n > 0 ==> c.seen[0] == c.seen[1] == Seen(true, false, false, true))
            && (n == 0 ==> c.seen[0] == c.seen[1] == UNSEEN)
  {
    if n > 0 {
      TiedAfter(p, q, n - 1);
      var h := Alternating(n);
      var on, off := Observation([true, true], true), Observation([false, false], false);
      assert h[..|h| - 1] == Alternating(n - 1) + [on];
      assert (Alternating(n - 1) + [on])[..|h| - 2] == Alternating(n - 1);
      var c1 := After([p, q], Alternating(n - 1) + [on]);
      assert c1 == Observe(After([p, q], Alternating(n - 1)), on.levels, true);
      assert After([p, q], h) == Observe(c1, off.levels, false);
    }
  }

  // ------------------------------------------------------------------------
  // In place, with the samples as bits
  // ------------------------------------------------------------------------

  /** One set of levels, a bit per watched pad. */
  datatype Sample = Sample(levels: bv32, count: nat)

  function Levels(s: Sample): seq<bool> {
    seq(s.count, i requires 0 <= i < s.count => i < 32 && Has(s.levels, i))
  }

  function LevelsOf(level: Pad -> bool, pads: seq<Pad>): seq<bool> {
    seq(|pads|, i requires 0 <= i < |pads| => level(pads[i]))
  }

  class Calibrator {
    const pads: array<Pad>
    const seen: array<Seen>
    const count: nat
    var reports: nat
    var quiet: nat

    ghost predicate Valid()
      reads this
    {
      pads.Length == MAX_CANDIDATES && seen.Length == MAX_CANDIDATES && count <= MAX_CANDIDATES
    }

    ghost function State(): (c: Calibration)
      requires Valid()
      reads this, pads, seen
      ensures Shape(c)
    {
      Calibration(pads[..count], seen[..count], reports, quiet)
    }

    constructor (watched: seq<Pad>)
      requires |watched| <= MAX_CANDIDATES
      ensures Valid() && fresh(pads) && fresh(seen) && State() == Fresh(watched)
    {
      pads := new Pad[MAX_CANDIDATES](i => if 0 <= i < |watched| then watched[i] else 0);
      seen := new Seen[MAX_CANDIDATES](_ => UNSEEN);
      count := |watched|;
      reports, quiet := 0, 0;
      new;
      assert pads[..count] == watched;
    }

    /** Reads every candidate's level; `level` stands for the pins as they are just before the poll. */
    method TakeSample(level: Pad -> bool) returns (s: Sample)
      requires Valid()
      ensures s.count == count && Levels(s) == LevelsOf(level, pads[..count])
    {
      var levels: bv32 := 0;
      forall i: nat | i < 32 ensures !Has(levels, i) { NoBits(i); }
      for index := 0 to count
        invariant forall i: nat :: i < index ==> Has(levels, i) == level(pads[i])
        invariant forall i: nat :: index <= i < 32 ==> !Has(levels, i)
      {
        if level(pads[index]) {
          var bit := Shifted(index);
          ghost var before := levels;
          levels := levels | bit;
          forall i: nat | i < 32 ensures Has(levels, i) <==> i == index || Has(before, i) {
            SetBit(before, index, i);
          }
        }
      }
      s := Sample(levels, count);
      assert Levels(s) == LevelsOf(level, pads[..count]);
    }

    method Observed(s: Sample, hadReport: bool)
      requires Valid() && s.count <= 32
      modifies this`reports, this`quiet, seen
      ensures Valid() && State() == Observe(old(State()), Levels(s), hadReport)
    {
      ghost var before := State();
      if s.count != count {
        assert |Levels(s)| != |before.pads|;
        return;
      }
      if hadReport {
        reports := SaturatingInc(reports);
      } else {
        quiet := SaturatingInc(quiet);
      }
      ghost var counted := (reports, quiet);
      for index := 0 to count
        invariant (reports, quiet) == counted
        invariant forall i :: 0 <= i < index ==> seen[i] == Noted(old(seen[i]), hadReport, Levels(s)[i])
        invariant forall i :: index <= i < count ==> seen[i] == old(seen[i])
      {
        var bit := Shifted(index);
        var high := HasMask(s.levels, bit);
        seen[index] := Noted(seen[index], hadReport, high);
      }
      assert pads[..count] == before.pads && seen[..count] == Observe(before, Levels(s), hadReport).seen;
    }

    method CheckSettled() returns (answer: Option<Answer>)
      requires Valid()
      ensures answer == Settled(State())
    {
      if reports < NEEDED || quiet < NEEDED {
        return None;
      }
      answer := None;
      for index := 0 to count
        invariant Narrow(State(), None, 0) == Narrow(State(), answer, index)
      {
        var high, low := Asserted(seen[index], true), Asserted(seen[index], false);
        if !high && !low {
          continue;
        }
        if answer.Some? {
          return None;
        }
        answer := Some(Answer(pads[index], high));
      }
    }
  }
}
