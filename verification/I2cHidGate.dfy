/** The readiness gate in front of an I2C-HID device: when the bus is read, and when the gate is given up. */
module I2cHidGate {
  import opened Common
  import opened Words
  import opened GpioCalibration

  const GATE_STRIKES: nat := 3
  const AUDIT_EVERY: nat := 64
  const GIVE_UP_AFTER: nat := 16
  const MAX_INPUT_REPORT: nat := 64

  datatype Mapping = Tabled | Calibrated

  datatype Gate =
    | Blind
    | Learning(calibration: Calibration)
    | Gated(pad: Pad, asserted: bool, mapping: Mapping, skipped: nat, strikes: nat)

  datatype Hid = Hid(gate: Gate, polls: u32, failures: nat)

  /** What the hardware would answer during one poll: the pins, whether the bus works, and a report's length. */
  datatype Reading = Reading(level: Pad -> bool, answers: bool, length: nat)

  datatype Outcome = NotAsked | Quiet | Failed | Answered(hadReport: bool)

  predicate Shaped(s: Hid) {
    s.gate.Learning? ==> Shape(s.gate.calibration)
  }

  // The gate after a poll the bus answered, given the levels read beforehand.
  function Judge(gate: Gate, levels: seq<bool>, audit: bool, hadReport: bool): (g: Gate)
    requires gate.Learning? ==> Shape(gate.calibration)
    ensures g.Learning? ==> Shape(g.calibration)
  {
    match gate
    case Blind => Blind
    case Learning(calibration) =>
      var c := Observe(calibration, levels, hadReport);
      (match Settled(c)
       case Some(a) => Gated(a.pad, a.assertedHigh, Calibrated, 0, 0)
       case None => Learning(c))
    case Gated(_, _, _, _, strikes) =>
      var strikes' := if !audit then strikes else if hadReport then SaturatingInc(strikes) else 0;
      if strikes' >= GATE_STRIKES then Blind else gate.(strikes := strikes')
  }

  function SampleFor(gate: Gate, level: Pad -> bool): seq<bool> {
    if gate.Learning? then LevelsOf(level, gate.calibration.pads) else []
  }

  // A poll counts unless the device was given up on or cannot describe a report.
  predicate Counts(s: Hid, want: nat) {
    s.failures < GIVE_UP_AFTER && want >= 3
  }

  function NextPolls(s: Hid): u32 {
    (s.polls + 1) % U32_MODULUS
  }

  predicate Audits(s: Hid) {
    NextPolls(s) % AUDIT_EVERY == 0
  }

  // The pin is believed: the gate is closed, this is no audit, and the pin says there is nothing.
  predicate PinSaysNo(s: Hid, r: Reading) {
    s.gate.Gated? && !Audits(s) && r.level(s.gate.pad) != s.gate.asserted
  }

  function Poll(s: Hid, want: nat, r: Reading): (res: (Hid, Outcome))
    requires Shaped(s)
    ensures Shaped(res.0)
  {
    if !Counts(s, want) then (s, NotAsked)
    else
      var counted := s.(polls := NextPolls(s));
      if PinSaysNo(s, r) then (counted.(gate := s.gate.(skipped := SaturatingInc(s.gate.skipped))), Quiet)
      else if !r.answers then (counted.(failures := s.failures + 1), Failed)
      else
        var hadReport := 3 <= r.length <= want;
        (counted.(failures := 0, gate := Judge(s.gate, SampleFor(s.gate, r.level), Audits(s), hadReport)),
         Answered(hadReport))
  }

  function Run(s: Hid, want: nat, readings: seq<Reading>): (t: Hid)
    requires Shaped(s)
    ensures Shaped(t)
    decreases |readings|
  {
    if readings == [] then s else Run(Poll(s, want, readings[0]).0, want, readings[1..])
  }

  function Outcomes(s: Hid, want: nat, readings: seq<Reading>): (o: seq<Outcome>)
    requires Shaped(s)
    ensures |o| == |readings|
    decreases |readings|
  {
    if readings == [] then []
    else
      var polled := Poll(s, want, readings[0]);
      [polled.1] + Outcomes(polled.0, want, readings[1..])
  }

  // ------------------------------------------------------------------------
  // The three states
  // ------------------------------------------------------------------------

  /** Blind is for good, and reads the bus on every counted poll. */
  lemma {:induction false} BlindIsAbsorbing(s: Hid, want: nat, readings: seq<Reading>)
    requires s.gate.Blind?
    ensures Run(s, want, readings).gate.Blind?
    ensures forall i :: 0 <= i < |readings| ==> Outcomes(s, want, readings)[i] != Quiet
    decreases |readings|
  {
    if readings != [] { BlindIsAbsorbing(Poll(s, want, readings[0]).0, want, readings[1..]); }
  }

  // The labelled samples a learning run files.
  function Filed(s: Hid, want: nat, readings: seq<Reading>): seq<Observation>
    requires Shaped(s)
    decreases |readings|
  {
    if readings == [] || !s.gate.Learning? then []
    else
      var polled := Poll(s, want, readings[0]);
      (if polled.1.Answered?
       then [Observation(SampleFor(s.gate, readings[0].level), polled.1.hadReport)] else [])
      + Filed(polled.0, want, readings[1..])
  }

  function ObserveAll(c: Calibration, history: seq<Observation>): (r: Calibration)
    requires Shape(c)
    ensures Shape(r)
    decreases |history|
  {
    if history == [] then c else ObserveAll(Observe(c, history[0].levels, history[0].hadReport), history[1..])
  }

  // Everything the samples of a learning run add up to.
  function Learnt(s: Hid, want: nat, readings: seq<Reading>): (c: Calibration)
    requires Shaped(s) && s.gate.Learning?
    ensures Shape(c)
  {
    ObserveAll(s.gate.calibration, Filed(s, want, readings))
  }

  // What a gate that has learnt `c` becomes, if `c` settles.
  function Closed(c: Calibration): Gate
    requires Shape(c) && Settled(c).Some?
  {
    Gated(Settled(c).value.pad, Settled(c).value.assertedHigh, Calibrated, 0, 0)
  }

  lemma LearningPoll(s: Hid, want: nat, r: Reading)
    requires Shaped(s) && s.gate.Learning?
    ensures var t, c := Poll(s, want, r).0, Learnt(s, want, [r]);
            if t.gate.Learning? then t.gate.calibration == c && (Settled(s.gate.calibration).None? ==> Settled(c).None?)
            else Settled(c).Some? && t.gate == Closed(c)
  {
    assert [r][1..] == [];
    var polled := Poll(s, want, r);
    if polled.1.Answered? {
      var o := Observation(SampleFor(s.gate, r.level), polled.1.hadReport);
      assert Filed(s, want, [r]) == [o] + [] == [o];
      assert [o][1..] == [];
      var c := Observe(s.gate.calibration, o.levels, o.hadReport);
      assert ObserveAll(s.gate.calibration, [o]) == ObserveAll(c, []) == c;
    } else {
      assert Filed(s, want, [r]) == [] + [];
    }
  }

  lemma LearntUnfolds(s: Hid, want: nat, readings: seq<Reading>)
    requires Shaped(s) && s.gate.Learning? && readings != []
    ensures var t := Poll(s, want, readings[0]).0;
            t.gate.Learning? ==> Learnt(s, want, readings) == Learnt(t, want, readings[1..])
  {
    var polled := Poll(s, want, readings[0]);
    if polled.0.gate.Learning? {
      var rest := Filed(polled.0, want, readings[1..]);
      if polled.1.Answered? {
        var o := Observation(SampleFor(s.gate, readings[0].level), polled.1.hadReport);
        assert ([o] + rest)[1..] == rest;
      } else {
        assert [] + rest == rest;
      }
    }
  }

  /**
   Learning ends only by settling. At every point of a run that began learning, either the gate is
   still learning exactly what its samples add up to, or there was a poll at which the samples so far
   settled and the gate closed on the pad and level they name.
   */
  lemma {:induction false} LearningEndsBySettling(s: Hid, want: nat, readings: seq<Reading>) returns (n: nat)
    requires Shaped(s) && s.gate.Learning?
    ensures n <= |readings|
    ensures var upTo := Learnt(s, want, readings[..n]);
            if Run(s, want, readings).gate.Learning?
            then n == |readings| && Run(s, want, readings).gate.calibration == upTo
            else Settled(upTo).Some? && Run(s, want, readings[..n]).gate == Closed(upTo)
    // That poll is the first: at every one before it, the samples had not settled.
    ensures Settled(s.gate.calibration).None? ==>
              forall k :: 0 <= k < n || (k == n && Run(s, want, readings).gate.Learning?) ==>
                && Run(s, want, readings[..k]).gate.Learning?
                && Settled(Run(s, want, readings[..k]).gate.calibration).None?
    decreases |readings|
  {
    if readings == [] {
      n := 0;
    } else {
      var first := readings[0];
      var t := Poll(s, want, first).0;
      LearningPoll(s, want, first);
      if t.gate.Learning? {
        var m := LearningEndsBySettling(t, want, readings[1..]);
        n := m + 1;
        assert readings[..n][1..] == readings[1..][..m];
        LearntUnfolds(s, want, readings[..n]);
        forall k | 0 < k <= n ensures Run(s, want, readings[..k]) == Run(t, want, readings[1..][..k - 1]) {
          assert readings[..k][1..] == readings[1..][..k - 1];
        }
      } else {
        n := 1;
        assert readings[..1] == [first];
        assert Run(s, want, [first]) == t;
        ClosedNeverLearns(t, want, readings[1..]);
      }
    }
  }

  // What there is to be learnt from: at each poll the bus answered, the levels of the pads just before it.
  function Labelled(pads: seq<Pad>, want: nat, readings: seq<Reading>): seq<Observation>
    decreases |readings|
  {
    if readings == [] then []
    else LabelOf(pads, want, readings[0]) + Labelled(pads, want, readings[1..])
  }

  function LabelOf(pads: seq<Pad>, want: nat, r: Reading): seq<Observation> {
    if !r.answers then []
    else [Observation(seq(|pads|, i requires 0 <= i < |pads| => r.level(pads[i])), 3 <= r.length <= want)]
  }

  lemma Regroup(a: seq<Observation>, b: seq<Observation>, c: seq<Observation>)
    ensures a + b + c == a + (b + c)
  {
  }

  lemma {:induction false} LabelledSplits(pads: seq<Pad>, want: nat, a: seq<Reading>, b: seq<Reading>)
    ensures Labelled(pads, want, a + b) == Labelled(pads, want, a) + Labelled(pads, want, b)
    decreases |a|
  {
    if a == [] {
      assert a + b == b;
    } else {
      assert (a + b)[1..] == a[1..] + b;
      LabelledSplits(pads, want, a[1..], b);
      Regroup(LabelOf(pads, want, a[0]), Labelled(pads, want, a[1..]), Labelled(pads, want, b));
    }
  }

  lemma {:induction false} LabelledWatches(pads: seq<Pad>, want: nat, readings: seq<Reading>)
    ensures Watches(Labelled(pads, want, readings), |pads|)
    decreases |readings|
  {
    if readings != [] { LabelledWatches(pads, want, readings[1..]); }
  }

  lemma {:induction false} FiledIsLabelled(s: Hid, want: nat, readings: seq<Reading>)
    requires Shaped(s) && s.gate.Learning?
    requires forall k :: 0 <= k < |readings| ==> Outcomes(s, want, readings)[k] != NotAsked
    requires forall k :: 0 <= k < |readings| ==> Run(s, want, readings[..k]).gate.Learning?
    ensures Filed(s, want, readings) == Labelled(s.gate.calibration.pads, want, readings)
    decreases |readings|
  {
    if readings != [] {
      var polled := Poll(s, want, readings[0]);
      assert Outcomes(s, want, readings)[0] == polled.1;
      if |readings| > 1 {
        assert readings[..1][1..] == [];
        assert Run(s, want, readings[..1]) == polled.0;
        forall k | 0 <= k < |readings| - 1
          ensures Run(polled.0, want, readings[1..][..k]).gate.Learning?
          ensures Outcomes(polled.0, want, readings[1..])[k] != NotAsked
        {
          assert readings[..k + 1][1..] == readings[1..][..k];
          assert Run(s, want, readings[..k + 1]).gate.Learning?;
          assert Outcomes(s, want, readings)[k + 1] != NotAsked;
        }
        FiledIsLabelled(polled.0, want, readings[1..]);
      }
    }
  }

  lemma {:induction false} ObservedIsAfter(pads: seq<Pad>, history: seq<Observation>, more: seq<Observation>)
    requires |pads| <= MAX_CANDIDATES
    ensures ObserveAll(After(pads, history), more) == After(pads, history + more)
    decreases |more|
  {
    if more == [] {
      assert history + more == history;
    } else {
      var longer := history + [more[0]];
      assert longer[..|longer| - 1] == history;
      assert longer + more[1..] == history + more;
      ObservedIsAfter(pads, longer, more[1..]);
    }
  }

  lemma OutcomesPrefix(s: Hid, want: nat, readings: seq<Reading>, n: nat, k: nat)
    requires Shaped(s) && k < n <= |readings|
    ensures Outcomes(s, want, readings[..n])[k] == Outcomes(s, want, readings)[k]
  {
    OutcomeAt(s, want, readings, k);
    OutcomeAt(s, want, readings[..n], k);
    assert readings[..n][..k] == readings[..k];
  }

  // While it learns, what it has learnt is what the labelled levels up to there add up to.
  lemma LearntIsAfter(s: Hid, want: nat, readings: seq<Reading>, pads: seq<Pad>, n: nat)
    requires |pads| <= MAX_CANDIDATES && s.gate == Learning(Fresh(pads)) && n <= |readings|
    requires forall k :: 0 <= k < |readings| ==> Outcomes(s, want, readings)[k] != NotAsked
    requires forall k :: 0 <= k < n ==> Run(s, want, readings[..k]).gate.Learning?
    ensures Learnt(s, want, readings[..n]) == After(pads, Labelled(pads, want, readings[..n]))
  {
    var first := readings[..n];
    forall k | 0 <= k < n
      ensures Outcomes(s, want, first)[k] != NotAsked && Run(s, want, first[..k]).gate.Learning?
    {
      OutcomesPrefix(s, want, readings, n, k);
      assert first[..k] == readings[..k];
    }
    FiledIsLabelled(s, want, first);
    ObservedIsAfter(pads, [], Filed(s, want, first));
    assert [] + Filed(s, want, first) == Filed(s, want, first);
  }

  // Whenever the labels up to some poll name a line, it is the one that all of them name.
  lemma NamesTheSameLine(pads: seq<Pad>, want: nat, readings: seq<Reading>, i: nat, a: Answer, n: nat)
    requires |pads| <= MAX_CANDIDATES && n <= |readings|
    requires var history := Labelled(pads, want, readings);
             IsTheLine(pads, history, i, a) && Count(history, true) >= 4 && Count(history, false) >= 4
    ensures Settled(After(pads, Labelled(pads, want, readings))) == Some(a)
    ensures var early := Settled(After(pads, Labelled(pads, want, readings[..n])));
            early == None || early == Some(a)
  {
    LabelledWatches(pads, want, readings);
    LabelledWatches(pads, want, readings[..n]);
    LabelledWatches(pads, want, readings[n..]);
    SettledIsExact(pads, Labelled(pads, want, readings), a);
    assert readings == readings[..n] + readings[n..];
    LabelledSplits(pads, want, readings[..n], readings[n..]);
    var early := Settled(After(pads, Labelled(pads, want, readings[..n])));
    if early.Some? {
      AnswerIsStable(pads, Labelled(pads, want, readings[..n]), Labelled(pads, want, readings[n..]), early.value, a);
    }
  }

  /**
   A device is learnt. If over a run of counted polls one watched pad followed the reports at one level and
   no other pad followed them at either, with four reports and four quiet answers among them, then by its
   end the gate has closed on that pad and that level, whichever poll it closed at.
   */
  lemma LearningFindsTheLine(s: Hid, want: nat, readings: seq<Reading>, pads: seq<Pad>, i: nat, a: Answer)
    returns (n: nat)
    requires |pads| <= MAX_CANDIDATES && s.gate == Learning(Fresh(pads))
    requires forall k :: 0 <= k < |readings| ==> Outcomes(s, want, readings)[k] != NotAsked
    requires var history := Labelled(pads, want, readings);
             IsTheLine(pads, history, i, a) && Count(history, true) >= 4 && Count(history, false) >= 4
    ensures n <= |readings| && Run(s, want, readings[..n]).gate == Gated(a.pad, a.assertedHigh, Calibrated, 0, 0)
    ensures forall k :: 0 <= k < n ==> Run(s, want, readings[..k]).gate.Learning?
  {
    n := LearningEndsBySettling(s, want, readings);
    LearntIsAfter(s, want, readings, pads, n);
    NamesTheSameLine(pads, want, readings, i, a, n);
    assert readings[..|readings|] == readings;
  }

  lemma {:induction false} ClosedNeverLearns(s: Hid, want: nat, readings: seq<Reading>)
    requires !s.gate.Learning?
    ensures !Run(s, want, readings).gate.Learning?
    decreases |readings|
  {
    if readings != [] { ClosedNeverLearns(Poll(s, want, readings[0]).0, want, readings[1..]); }
  }

  // ------------------------------------------------------------------------
  // Strikes
  // ------------------------------------------------------------------------

  // The answers of the audit reads made while the gate stayed closed, in order.
  function AuditAnswers(s: Hid, want: nat, readings: seq<Reading>): seq<bool>
    requires Shaped(s)
    decreases |readings|
  {
    if readings == [] || !s.gate.Gated? then []
    else
      var polled := Poll(s, want, readings[0]);
      (if polled.1.Answered? && Audits(s) then [polled.1.hadReport] else [])
      + AuditAnswers(polled.0, want, readings[1..])
  }

  ghost predicate ThreeInARow(answers: seq<bool>) {
    exists i :: 0 <= i && i + 2 < |answers| && answers[i] && answers[i + 1] && answers[i + 2]
  }

  function Trues(n: nat): seq<bool> {
    seq(n, _ => true)
  }

  lemma FalseBreaksRow(k: nat, rest: seq<bool>)
    requires k < 3
    ensures ThreeInARow(Trues(k) + ([false] + rest)) <==> ThreeInARow(rest)
  {
    var all := Trues(k) + ([false] + rest);
    assert !all[k] && all[k + 1..] == rest;
    forall i | 0 <= i && i + 2 < |rest| && rest[i] && rest[i + 1] && rest[i + 2] ensures ThreeInARow(all) {
      assert all[k + 1 + i] && all[k + 1 + i + 1] && all[k + 1 + i + 2];
    }
    forall i | 0 <= i && i + 2 < |all| && all[i] && all[i + 1] && all[i + 2] ensures ThreeInARow(rest) {
      var j := i - k - 1;
      assert j >= 0;
      assert rest[j] && rest[j + 1] && rest[j + 2];
    }
  }

  // One more audit answer: a quiet one starts over, and the third report in a row is the end.
  lemma RowAfterAnswer(k: nat, answer: bool, rest: seq<bool>)
    requires k < 3
    ensures ThreeInARow(Trues(k) + ([answer] + rest)) <==>
            if !answer then ThreeInARow(Trues(0) + rest) else k + 1 == 3 || ThreeInARow(Trues(k + 1) + rest)
  {
    if !answer {
      FalseBreaksRow(k, rest);
      assert Trues(0) + rest == rest;
    } else {
      assert Trues(k) + ([true] + rest) == Trues(k + 1) + rest;
      var all := Trues(k + 1) + rest;
      if k + 1 == 3 { assert all[0] && all[0 + 1] && all[0 + 2]; }
    }
  }

  lemma FewTruesNoRow(k: nat)
    requires k < 3
    ensures !ThreeInARow(Trues(k) + [])
  {
  }

  // One poll of a closed gate: only an answered audit moves its strikes, and only the third drops it.
  lemma GatedPoll(s: Hid, want: nat, r: Reading)
    requires s.gate.Gated? && s.gate.strikes < GATE_STRIKES
    ensures var t, outcome := Poll(s, want, r).0, Poll(s, want, r).1;
            var struck := outcome.Answered? && Audits(s);
            var strikes := if !struck then s.gate.strikes else if outcome.hadReport then s.gate.strikes + 1 else 0;
            if strikes >= GATE_STRIKES then t.gate.Blind?
            else
              && t.gate.Gated? && t.gate.strikes == strikes
              && t.gate.pad == s.gate.pad && t.gate.asserted == s.gate.asserted
  {
  }

  lemma {:induction false} GateKeepsItsPad(s: Hid, want: nat, readings: seq<Reading>)
    requires s.gate.Gated? && s.gate.strikes < GATE_STRIKES
    ensures var gate := Run(s, want, readings).gate;
            gate.Blind? || (gate.Gated? && gate.pad == s.gate.pad && gate.asserted == s.gate.asserted)
    decreases |readings|
  {
    if readings != [] {
      GatedPoll(s, want, readings[0]);
      var t := Poll(s, want, readings[0]).0;
      if t.gate.Blind? {
        BlindIsAbsorbing(t, want, readings[1..]);
      } else {
        GateKeepsItsPad(t, want, readings[1..]);
      }
    }
  }

  lemma {:induction false} StrikesAreTrailingReports(s: Hid, want: nat, readings: seq<Reading>)
    requires s.gate.Gated? && s.gate.strikes < GATE_STRIKES
    ensures Run(s, want, readings).gate.Blind? <==>
            ThreeInARow(Trues(s.gate.strikes) + AuditAnswers(s, want, readings))
    decreases |readings|
  {
    if readings == [] {
      FewTruesNoRow(s.gate.strikes);
    } else {
      GatedPoll(s, want, readings[0]);
      var t, outcome := Poll(s, want, readings[0]).0, Poll(s, want, readings[0]).1;
      var rest := AuditAnswers(t, want, readings[1..]);
      if outcome.Answered? && Audits(s) {
        RowAfterAnswer(s.gate.strikes, outcome.hadReport, rest);
      } else {
        assert [] + rest == rest;
      }
      if t.gate.Blind? {
        BlindIsAbsorbing(t, want, readings[1..]);
      } else {
        StrikesAreTrailingReports(t, want, readings[1..]);
      }
    }
  }

  /**
   A gate that has just closed falls to Blind exactly when three audit reads the bus answered, in a
   row, each held a report; until then it keeps its pad and level.
   */
  lemma GateFallsOnThreeStrikes(s: Hid, want: nat, readings: seq<Reading>)
    requires s.gate.Gated? && s.gate.strikes == 0
    ensures var gate := Run(s, want, readings).gate;
            && (gate.Blind? <==> ThreeInARow(AuditAnswers(s, want, readings)))
            && (gate.Blind? || (gate.Gated? && gate.pad == s.gate.pad && gate.asserted == s.gate.asserted))
  {
    StrikesAreTrailingReports(s, want, readings);
    GateKeepsItsPad(s, want, readings);
    assert Trues(0) + AuditAnswers(s, want, readings) == AuditAnswers(s, want, readings);
  }

  // ------------------------------------------------------------------------
  // The audit schedule
  // ------------------------------------------------------------------------

  lemma {:induction false} OutcomeAt(s: Hid, want: nat, readings: seq<Reading>, n: nat)
    requires Shaped(s) && n < |readings|
    ensures Outcomes(s, want, readings)[n] == Poll(Run(s, want, readings[..n]), want, readings[n]).1
    decreases n
  {
    if n > 0 {
      assert readings[..n][1..] == readings[1..][..n - 1];
      OutcomeAt(Poll(s, want, readings[0]).0, want, readings[1..], n - 1);
    }
  }

  lemma {:induction false} RunSteps(s: Hid, want: nat, readings: seq<Reading>, n: nat)
    requires Shaped(s) && n < |readings|
    ensures Run(s, want, readings[..n + 1]) == Poll(Run(s, want, readings[..n]), want, readings[n]).0
    decreases n
  {
    if n > 0 {
      assert readings[..n][1..] == readings[1..][..n - 1];
      assert readings[..n + 1][1..] == readings[1..][..n];
      RunSteps(Poll(s, want, readings[0]).0, want, readings[1..], n - 1);
    } else {
      assert readings[..1][1..] == [];
    }
  }

  lemma {:induction false} CountedPolls(s: Hid, want: nat, readings: seq<Reading>, n: nat)
    requires Shaped(s) && n <= |readings|
    requires forall i :: 0 <= i < n ==> Outcomes(s, want, readings)[i] != NotAsked
    ensures Run(s, want, readings[..n]).polls == (s.polls + n) % U32_MODULUS
    decreases n
  {
    if n > 0 {
      CountedPolls(s, want, readings, n - 1);
      OutcomeAt(s, want, readings, n - 1);
      RunSteps(s, want, readings, n - 1);
      assert Outcomes(s, want, readings)[n - 1] != NotAsked;
      WrappedIncrement(s.polls + n - 1);
    }
  }

  lemma WrappedIncrement(total: nat)
    ensures (total % U32_MODULUS + 1) % U32_MODULUS == (total + 1) % U32_MODULUS
  {
  }

  lemma AuditFallsDue(polls: u32, n: nat)
    requires n == AUDIT_EVERY - 1 - polls % AUDIT_EVERY
    ensures ((polls + n) % U32_MODULUS + 1) % U32_MODULUS % AUDIT_EVERY == 0
  {
    WrapKeepsSchedule((polls + n) % U32_MODULUS + 1);
    WrapKeepsSchedule(polls + n);
  }

  /**
   Among any sixty-four counted polls in a row, one goes to the bus whatever the pin says, also when
   the poll counter wraps on the way.
   */
  lemma AnyWindowAudits(s: Hid, want: nat, readings: seq<Reading>) returns (n: nat)
    requires Shaped(s) && |readings| == AUDIT_EVERY
    requires forall i :: 0 <= i < AUDIT_EVERY ==> Outcomes(s, want, readings)[i] != NotAsked
    ensures n < AUDIT_EVERY && Audits(Run(s, want, readings[..n]))
    ensures Outcomes(s, want, readings)[n].Failed? || Outcomes(s, want, readings)[n].Answered?
  {
    n := AUDIT_EVERY - 1 - s.polls % AUDIT_EVERY;
    CountedPolls(s, want, readings, n);
    OutcomeAt(s, want, readings, n);
    AuditFallsDue(s.polls, n);
  }

  // 2^32 is a multiple of the audit period, so wrapping does not shift the schedule.
  lemma WrapKeepsSchedule(total: nat)
    ensures total % U32_MODULUS % AUDIT_EVERY == total % AUDIT_EVERY
  {
  }

  // ------------------------------------------------------------------------
  // What the pin decides
  // ------------------------------------------------------------------------

  /**
   What one poll comes to. It is not made at all after sixteen failures in a row or for a device with no
   room for a report. It leaves the bus alone exactly when the gate is closed, the pad is not at the
   asserted level, and this is not each sixty-fourth poll. Otherwise the answer is a report exactly when
   its length is right; in particular a length of zero is none.
   */
  lemma PollMeans(s: Hid, want: nat, r: Reading)
    requires Shaped(s)
    ensures var t, outcome := Poll(s, want, r).0, Poll(s, want, r).1;
            && (outcome == NotAsked <==> s.failures >= 16 || want < 3)
            && (outcome == NotAsked ==> t == s)
            && (outcome != NotAsked ==> t.polls == (s.polls + 1) % 0x1_0000_0000)
            && (outcome == Quiet <==>
                  && outcome != NotAsked && s.gate.Gated? && (s.polls + 1) % 64 != 0
                  && r.level(s.gate.pad) != s.gate.asserted)
            && (outcome.Answered? ==> outcome.hadReport == (3 <= r.length <= want))
            && (outcome != NotAsked && outcome != Quiet ==> (outcome == Failed <==> !r.answers))
            && t.failures == (if outcome == Failed then s.failures + 1 else if outcome.Answered? then 0 else s.failures)
  {
    WrapKeepsSchedule(s.polls + 1);
  }

  // A bus that always works, behind a pin that is at the asserted level exactly while a report waits.
  predicate RightPin(pad: Pad, asserted: bool, want: nat, readings: seq<Reading>) {
    forall i :: 0 <= i < |readings| ==>
      readings[i].answers && (readings[i].level(pad) == asserted <==> 3 <= readings[i].length <= want)
  }

  lemma {:induction false} BlindReads(s: Hid, want: nat, readings: seq<Reading>, i: nat)
    requires s.gate.Blind? && s.failures < 16 && want >= 3 && i < |readings|
    requires forall j :: 0 <= j < |readings| ==> readings[j].answers
    ensures Outcomes(s, want, readings)[i] == Answered(3 <= readings[i].length <= want)
    decreases i
  {
    PollMeans(s, want, readings[0]);
    if i > 0 { BlindReads(Poll(s, want, readings[0]).0, want, readings[1..], i - 1); }
  }

  // The schedule of audits, one poll on.
  lemma ScheduleMoves(polls: u32, i: nat)
    ensures ((polls + 1) % U32_MODULUS + i + 1) % 64 == (polls + (i + 1) + 1) % 64
  {
    var wrapped := (polls + 1) % U32_MODULUS;
    WrapKeepsSchedule(polls + 1);
    assert wrapped % 64 == (polls + 1) % 64;
    assert (wrapped + (i + 1)) % 64 == (wrapped % 64 + (i + 1)) % 64;
  }

  /**
   Behind a right pin the gate loses nothing and asks for nothing: every waiting report is read on the
   poll that finds it, and while the gate is closed the bus is read to no purpose on audits alone.
   */
  lemma {:induction false} RightPinDelivers(s: Hid, want: nat, readings: seq<Reading>, i: nat)
    requires s.gate.Gated? && s.gate.strikes < 3 && s.failures < 16 && want >= 3 && i < |readings|
    requires RightPin(s.gate.pad, s.gate.asserted, want, readings)
    ensures Outcomes(s, want, readings)[i] ==
            if 3 <= readings[i].length <= want then Answered(true)
            else if Run(s, want, readings[..i]).gate.Gated? && (s.polls + i + 1) % 64 != 0 then Quiet
            else Answered(false)
    decreases i
  {
    var t := Poll(s, want, readings[0]).0;
    PollMeans(s, want, readings[0]);
    GatedPoll(s, want, readings[0]);
    if i > 0 {
      assert readings[..i][1..] == readings[1..][..i - 1];
      if t.gate.Gated? {
        ScheduleMoves(s.polls, i - 1);
        RightPinDelivers(t, want, readings[1..], i - 1);
      } else {
        BlindIsAbsorbing(t, want, readings[1..][..i - 1]);
        BlindReads(t, want, readings[1..], i - 1);
      }
    }
  }

  // ------------------------------------------------------------------------
  // Continuous motion
  // ------------------------------------------------------------------------

  // How many audits come up in the next `n` counted polls.
  function AuditsIn(polls: u32, n: nat): nat {
    (polls % AUDIT_EVERY + n) / AUDIT_EVERY
  }

  lemma OneMorePoll(polls: u32, n: nat)
    requires n > 0
    ensures var next := (polls + 1) % U32_MODULUS;
            AuditsIn(polls, n) == AuditsIn(next, n - 1) + if next % AUDIT_EVERY == 0 then 1 else 0
  {
    WrapKeepsSchedule(polls + 1);
  }

  predicate AlwaysReports(want: nat, readings: seq<Reading>) {
    want >= 3 && forall i :: 0 <= i < |readings| ==> readings[i].answers && 3 <= readings[i].length <= want
  }

  lemma {:induction false} ReportsDropGateAfter(s: Hid, want: nat, readings: seq<Reading>)
    requires s.gate.Gated? && s.gate.strikes < GATE_STRIKES && s.failures < GIVE_UP_AFTER
    requires AlwaysReports(want, readings)
    ensures Run(s, want, readings).gate.Blind? <==>
            s.gate.strikes + AuditsIn(s.polls, |readings|) >= GATE_STRIKES
    decreases |readings|
  {
    if readings != [] {
      OneMorePoll(s.polls, |readings|);
      var t := Poll(s, want, readings[0]).0;
      if t.gate.Gated? {
        ReportsDropGateAfter(t, want, readings[1..]);
      } else {
        BlindIsAbsorbing(t, want, readings[1..]);
      }
    }
  }

  /**
   What counts as a strike is a report found on an audit, announced by the pin or not. So a device that
   reports without pause costs even a faultless gate its place within three audit periods, and a gate
   on the wrong pin survives such a device no longer.
   */
  lemma ContinuousMotionDropsGate(s: Hid, want: nat, readings: seq<Reading>)
    requires s.gate.Gated? && s.gate.strikes < GATE_STRIKES && s.failures < GIVE_UP_AFTER
    requires AlwaysReports(want, readings) && |readings| >= GATE_STRIKES * AUDIT_EVERY
    ensures Run(s, want, readings).gate.Blind?
  {
    ReportsDropGateAfter(s, want, readings);
  }

  // ------------------------------------------------------------------------
  // In place
  // ------------------------------------------------------------------------

  class Driver {
    const maxInputLength: nat
    var gate: Gate
    var polls: u32
    var failures: nat

    function State(): Hid
      reads this
    {
      Hid(gate, polls, failures)
    }

    // No more than the descriptor says, nor than the buffer holds.
    function Want(): (want: nat)
      ensures want <= 64 && want <= maxInputLength && (want == 64 || want == maxInputLength)
    {
      if maxInputLength < MAX_INPUT_REPORT then maxInputLength else MAX_INPUT_REPORT
    }

    constructor (maxInputLength: nat, gate: Gate)
      ensures State() == Hid(gate, 0, 0) && this.maxInputLength == maxInputLength
    {
      this.maxInputLength := maxInputLength;
      this.gate := gate;
      polls, failures := 0, 0;
    }

    /** One poll; the pins are read before the bus, and only the bus's answer is judged. */
    method PollOnce(r: Reading) returns (outcome: Outcome)
      requires Shaped(State())
      modifies this
      ensures (State(), outcome) == Poll(old(State()), Want(), r)
    {
      if failures >= GIVE_UP_AFTER {
        return NotAsked;
      }
      var want := Want();
      if want < 3 {
        return NotAsked;
      }
      polls := (polls + 1) % U32_MODULUS;
      var audit := polls % AUDIT_EVERY == 0;
      var sample := SampleFor(gate, r.level);
      if gate.Gated? && !audit && r.level(gate.pad) != gate.asserted {
        gate := gate.(skipped := SaturatingInc(gate.skipped));
        return Quiet;
      }
      if !r.answers {
        failures := failures + 1;
        return Failed;
      }
      failures := 0;
      var hadReport := r.length >= 3 && r.length <= want;
      JudgePoll(sample, audit, hadReport);
      return Answered(hadReport);
    }

    method JudgePoll(sample: seq<bool>, audit: bool, hadReport: bool)
      requires Shaped(State())
      modifies this`gate
      ensures gate == Judge(old(gate), sample, audit, hadReport)
    {
      var was := gate;
      gate := Blind;
      match was {
        case Blind =>
        case Learning(calibration) =>
          var c := Observe(calibration, sample, hadReport);
          var answer := Settled(c);
          match answer {
            case Some(a) => gate := Gated(a.pad, a.assertedHigh, Calibrated, 0, 0);
            case None => gate := Learning(c);
          }
        case Gated(pad, asserted, mapping, skipped, before) =>
          var strikes := before;
          if audit {
            if hadReport {
              strikes := SaturatingInc(strikes);
            } else {
              strikes := 0;
            }
          }
          if strikes < GATE_STRIKES {
            gate := Gated(pad, asserted, mapping, skipped, strikes);
          }
      }
    }
  }
}
