/**
 Two consequences of the report protocol: a caller with room to spare gets every report whole, and a
 poll the controller does not interrupt is `poll_report` as the driver's methods carry it out in one go.
 */
module XhciReportRuns {
  import opened Common
  import opened Words
  import opened XhciTrb
  import Events = XhciEventRing
  import opened XhciPolling
  import opened XhciReports

  // ------------------------------------------------------------------------
  // Whole reports
  // ------------------------------------------------------------------------

  // Every poll of the device had the same room, and no report was longer.
  ghost predicate SameRoom(port: Port, room: nat) {
    && (forall k :: 0 <= k < |port.asked| ==> port.asked[k] == room)
    && (forall i :: 0 <= i < |port.delivered| ==> port.delivered[i].room == room)
    && (forall i :: 0 <= i < |port.produced| ==> |port.produced[i].report| <= Min(room, REPORT_MAX))
  }

  predicate PhaseRoom(phase: Phase, d: nat, room: nat) {
    match phase
    case Draining(e, len, _) => e == d ==> len == room
    case Deciding(e, len) => e == d ==> len == room
    case Copying(e, len, _) => e == d ==> len == room
    case Arming(e, len) => e == d ==> len == room
    case _ => true
  }

  lemma FinishedSameRoom(v: View, code: byte, room: nat)
    requires Sound(v) && v.port.held.Some? && SameRoom(v.port, room)
    ensures SameRoom(Finished(v.port, code), room)
  {
    HeldIsRead(v);
  }

  lemma ControllerSameRoom(w: World, base: nat, d: nat, room: nat, a: Action)
    requires Inv(w, base) && Allowed(w, a) && !a.Go? && d < w.driver.count
    requires SameRoom(w.ports[d], room) && PhaseRoom(w.phase, d, room)
    requires a.Ask? && a.device == d ==> a.len == room
    ensures SameRoom(Step(w, a).ports[d], room) && PhaseRoom(Step(w, a).phase, d, room)
  {
    if a.Finish? && a.device == d {
      FinishedSameRoom(ViewOf(w, d), a.code, room);
    }
  }

  lemma DriverSameRoom(w: World, d: nat, room: nat)
    requires Shape(w) && !w.phase.AtRest? && d < w.driver.count
    requires SameRoom(w.ports[d], room) && PhaseRoom(w.phase, d, room)
    ensures SameRoom(DriverStep(w).ports[d], room) && PhaseRoom(DriverStep(w).phase, d, room)
  {
  }

  lemma {:induction false} RunSameRoom(w: World, base: nat, actions: seq<Action>, t: World, d: nat, room: nat)
    requires Inv(w, base) && Reaches(w, actions, t) && d < w.driver.count
    requires SameRoom(w.ports[d], room) && PhaseRoom(w.phase, d, room)
    requires forall i :: 0 <= i < |actions| && actions[i].Ask? && actions[i].device == d ==> actions[i].len == room
    ensures Inv(t, base) && d < t.driver.count && SameRoom(t.ports[d], room)
    decreases |actions|
  {
    if actions != [] {
      var a := actions[0];
      StepKeeps(w, base, a);
      if a.Go? { DriverSameRoom(w, d, room); } else { ControllerSameRoom(w, base, d, room, a); }
      RunSameRoom(Step(w, a), base, actions[1..], t, d, room);
    }
  }

  lemma FaithfulIsWhole(given: Delivery, f: Filled)
    requires Faithful(given, f) && |f.report| <= Min(given.room, REPORT_MAX)
    ensures given.bytes == f.report + f.under[|f.report|..Min(given.room, REPORT_MAX)]
  {
  }

  /** A caller that always offers the same room gets every report whole, and past a short one what was there before. */
  lemma ReportsArriveWhole(w: World, base: nat, actions: seq<Action>, t: World, d: nat, room: nat)
    requires Initial(w, base) && Reaches(w, actions, t) && d < w.driver.count
    requires forall i :: 0 <= i < |actions| && actions[i].Ask? && actions[i].device == d ==> actions[i].len == room
    ensures Shape(t) && |t.ports[d].delivered| <= |t.ports[d].produced|
    ensures forall i :: 0 <= i < |t.ports[d].delivered| ==>
              var f := t.ports[d].produced[i];
              && |f.report| <= Min(room, REPORT_MAX) <= |f.under|
              && t.ports[d].delivered[i].bytes == f.report + f.under[|f.report|..Min(room, REPORT_MAX)]
  {
    InitialHolds(w, base);
    assert Unpolled(w, d);
    RunSameRoom(w, base, actions, t, d, room);
    var port := t.ports[d];
    SoundInOrder(ViewOf(t, d));
    forall i | 0 <= i < |port.delivered|
      ensures var f := port.produced[i];
              && |f.report| <= Min(room, REPORT_MAX) <= |f.under|
              && port.delivered[i].bytes == f.report + f.under[|f.report|..Min(room, REPORT_MAX)]
    {
      FaithfulIsWhole(port.delivered[i], port.produced[i]);
    }
  }

  lemma SoundInOrder(v: View)
    requires Sound(v)
    ensures InOrder(v.port)
  {
  }

  // ------------------------------------------------------------------------
  // A poll with the controller standing still
  // ------------------------------------------------------------------------

  function Driven(w: World, n: nat): (t: World)
    requires Shape(w)
    ensures Shape(t)
    decreases n
  {
    if n == 0 || w.phase.AtRest? then w else Driven(DriverStep(w), n - 1)
  }

  lemma DrivenStep(w: World, n: nat)
    requires Shape(w) && !w.phase.AtRest?
    ensures Driven(w, n + 1) == Driven(DriverStep(w), n) && Driven(w, 0) == w
  {
  }

  lemma {:induction false} DrivenOn(w: World, m: nat, n: nat)
    requires Shape(w)
    ensures Driven(w, m + n) == Driven(Driven(w, m), n)
    decreases m
  {
    if m > 0 && !w.phase.AtRest? {
      DrivenStep(w, m - 1);
      DrivenStep(w, m - 1 + n);
      DrivenOn(DriverStep(w), m - 1, n);
    }
  }

  lemma {:induction false} DrivenKeeps(w: World, base: nat, n: nat)
    requires Inv(w, base)
    ensures Inv(Driven(w, n), base)
    decreases n
  {
    if n > 0 && !w.phase.AtRest? {
      StepKeeps(w, base, Go);
      DrivenKeeps(DriverStep(w), base, n - 1);
    }
  }

  /** The end of a poll that began in `w`: the driver as given, and what was delivered to the caller. */
  predicate Ends(w: World, t: World, driver: Driver, delivered: seq<Delivery>)
    requires Shape(w) && Shape(t)
  {
    && !w.phase.AtRest? && t.phase.AtRest? && t.driver == driver
    && t.memory == w.memory && t.posted == w.posted && t.read == w.read
    && t.ports[w.phase.device].delivered == w.ports[w.phase.device].delivered + delivered
  }

  // How many steps the drain takes.
  function DrainSteps(w: World): nat
    requires Shape(w) && w.phase.Draining?
    decreases w.phase.left
  {
    1 + if DriverStep(w).phase.Draining? then DrainSteps(DriverStep(w)) else 0
  }

  lemma {:induction false} QuietDrain(w: World)
    requires Shape(w) && w.phase.Draining?
    ensures var t := Driven(w, DrainSteps(w));
            && t.driver == Drain(w.trbs, w.driver, w.phase.left) && t.phase == Deciding(w.phase.device, w.phase.len)
            && t == w.(driver := t.driver, phase := t.phase, read := t.read, readerLap := t.readerLap)
    decreases w.phase.left
  {
    var w' := DriverStep(w);
    DrivenStep(w, DrainSteps(w) - 1);
    if w'.phase.Draining? {
      DrainUnfolds(w.trbs, w.driver, w.phase.left);
      QuietDrain(w');
    }
  }

  // With no more events unread than the drain reads, it reads them all.
  lemma {:induction false} DrainCatchesUp(w: World, base: nat)
    requires EventsInv(w, base) && w.phase.Draining? && |Unread(w)| <= w.phase.left
    ensures Unread(Driven(w, DrainSteps(w))) == []
    decreases w.phase.left
  {
    DrivenStep(w, DrainSteps(w) - 1);
    DrainReads(w, base);
    if DriverStep(w).phase.Draining? {
      DrainEvents(w, base);
      DrainCatchesUp(DriverStep(w), base);
    }
  }

  lemma {:induction false} QuietCopy(w: World) returns (n: nat)
    requires Shape(w) && w.phase.Copying? && w.phase.copied <= BufferOf(w.memory, w.phase.device)
    ensures Driven(w, n) == w.(phase := w.phase.(copied := BufferOf(w.memory, w.phase.device)[..REPORT_MAX]))
    decreases REPORT_MAX - |w.phase.copied|
  {
    n := 0;
    if |w.phase.copied| < REPORT_MAX {
      n := QuietCopy(DriverStep(w));
      DrivenStep(w, n);
      n := n + 1;
    }
  }

  lemma QuietArm(w: World)
    requires Shape(w) && w.phase.Arming?
    ensures Ends(w, Driven(w, 2), Arm(w.driver, w.phase.device, w.phase.len), [])
  {
    var w' := DriverStep(w);
    DrivenStep(w, 1);
    if !w'.phase.AtRest? { DrivenStep(w', 0); }
  }

  function Cleared(s: Driver, d: nat): Driver
    requires d < |s.devices|
  {
    s.(devices := s.devices[d := s.devices[d].(ready := false)])
  }

  // From the last byte copied to the end of the poll.
  lemma QuietGive(w: World)
    requires Shape(w) && w.phase.Copying? && |w.phase.copied| == REPORT_MAX
    ensures var d, len := w.phase.device, w.phase.len;
            Ends(w, Driven(w, 3), Arm(w.driver, d, len), [Given(w.phase.copied, len)])
  {
    DrivenStep(w, 2);
    QuietArm(DriverStep(w));
  }

  lemma QuietCopyAll(w: World) returns (n: nat)
    requires Shape(w) && w.phase.Copying? && w.phase.copied == []
    ensures var d, len := w.phase.device, w.phase.len;
            Ends(w, Driven(w, n), Arm(w.driver, d, len), [Given(BufferOf(w.memory, d)[..REPORT_MAX], len)])
  {
    n := QuietCopy(w);
    QuietGive(Driven(w, n));
    DrivenOn(w, n, 3);
    n := n + 3;
  }

  lemma QuietDeliver(w: World) returns (n: nat)
    requires Shape(w) && w.phase.Deciding? && w.driver.devices[w.phase.device].ready
    ensures var d, len := w.phase.device, w.phase.len;
            Ends(w, Driven(w, n), Arm(Cleared(w.driver, d), d, len), [Given(BufferOf(w.memory, d)[..REPORT_MAX], len)])
  {
    n := QuietCopyAll(DriverStep(w));
    DrivenStep(w, n);
    n := n + 1;
  }

  lemma QuietDecide(w: World) returns (n: nat)
    requires Shape(w) && w.phase.Deciding?
    ensures var d, len := w.phase.device, w.phase.len;
            var ready := w.driver.devices[d].ready;
            Ends(w, Driven(w, n), Arm(if ready then Cleared(w.driver, d) else w.driver, d, len),
                 if ready then [Given(BufferOf(w.memory, d)[..REPORT_MAX], len)] else [])
  {
    if w.driver.devices[w.phase.device].ready {
      n := QuietDeliver(w);
    } else {
      DrivenStep(w, 2);
      QuietArm(DriverStep(w));
      n := 3;
    }
  }

  lemma PollReportIs(trbs: seq<Trb>, s: Driver, d: nat, len: nat)
    requires |trbs| == RING_LEN && DriverShape(s) && d < s.count
    ensures var t := Drain(trbs, s, RING_LEN);
            t.count == s.count && PollReport(trbs, s, d, len) ==
            if t.devices[d].ready then (Arm(Cleared(t, d), d, len), Some(Min(len, REPORT_MAX)))
            else (Arm(t, d, len), None)
    ensures PollReport(trbs, s, d, len).0.count == s.count && |PollReport(trbs, s, d, len).0.devices| == MAX_DEVICES
    ensures PollReport(trbs, s, d, len).0.devices[d].queued
  {
    DrainKeepsCount(trbs, s, RING_LEN);
  }

  lemma {:induction false} DrainKeepsCount(trbs: seq<Trb>, s: Driver, limit: nat)
    requires |trbs| == RING_LEN && DriverShape(s)
    ensures Drain(trbs, s, limit).count == s.count
    decreases limit
  {
    if limit > 0 {
      var (reader, event) := Events.NextEvent(trbs, s.reader);
      if event != None {
        DrainKeepsCount(trbs, s.(reader := reader, devices := Route(s.devices, s.count, event.value)), limit - 1);
      }
    }
  }

  /** Left alone, the steps are `poll_report`: the same driver, and the same bytes for the caller. */
  lemma QuietPollIsPollReport(w: World, d: nat, len: nat) returns (n: nat)
    requires Shape(w) && w.phase.AtRest? && d < w.driver.count
    ensures var m := DrainSteps(Step(w, Ask(d, len)));
            var drained, t := Driven(Step(w, Ask(d, len)), m), Driven(Step(w, Ask(d, len)), m + n);
            var (driver, got) := PollReport(w.trbs, w.driver, d, len);
            && drained.phase == Deciding(d, len) && drained.ports == w.ports && drained.driver.count == w.driver.count
            && (got.Some? <==> drained.driver.devices[d].ready)
            && Ends(drained, t, driver, if got == None then [] else [Delivery(len, BufferOf(w.memory, d)[..got.value])])
  {
    var asked := Step(w, Ask(d, len));
    var m := DrainSteps(asked);
    QuietDrain(asked);
    n := QuietDecide(Driven(asked, m));
    DrivenOn(asked, m, n);
    PollReportIs(w.trbs, w.driver, d, len);
    GivenIsPrefix(BufferOf(w.memory, d), len);
  }

  lemma GivenIsPrefix(buffer: Report, len: nat)
    requires |buffer| == BUFFER_LEN
    ensures Given(buffer[..REPORT_MAX], len) == Delivery(len, buffer[..Min(len, REPORT_MAX)])
  {
    assert buffer[..REPORT_MAX][..Min(len, REPORT_MAX)] == buffer[..Min(len, REPORT_MAX)];
  }

  // With no completion unread, the flags alone say what is waiting.
  lemma CaughtUp(v: View)
    requires Sound(v) && v.unread == [] && v.stage.Away?
    ensures v.dev.ready <==> |v.port.delivered| < |v.port.produced|
    ensures v.dev.queued ==> InFlight(v.port) == 1 && |v.port.delivered| == |v.port.produced|
  {
  }

  lemma CaughtUpAt(w: World, base: nat, d: nat)
    requires Inv(w, base) && Unread(w) == [] && d < w.driver.count && StageOf(w.phase, d).Away?
    ensures w.driver.devices[d].ready <==> |w.ports[d].delivered| < |w.ports[d].produced|
    ensures w.driver.devices[d].queued ==>
              InFlight(w.ports[d]) == 1 && |w.ports[d].delivered| == |w.ports[d].produced|
  {
    CaughtUp(ViewOf(w, d));
  }

  // After the drain every completion has been read, so the flag it leaves says whether a report waits.
  lemma DrainTells(w: World, base: nat, d: nat, len: nat)
    requires Inv(w, base) && w.phase.AtRest? && d < w.driver.count
    ensures var drained := Driven(Step(w, Ask(d, len)), DrainSteps(Step(w, Ask(d, len))));
            && Unread(drained) == [] && d < drained.driver.count && drained.ports == w.ports
            && (drained.driver.devices[d].ready <==> |w.ports[d].delivered| < |w.ports[d].produced|)
  {
    var asked := Step(w, Ask(d, len));
    StepKeeps(w, base, Ask(d, len));
    DrivenKeeps(asked, base, DrainSteps(asked));
    QuietDrain(asked);
    DrainKeepsCount(w.trbs, w.driver, RING_LEN);
    DrainCatchesUp(asked, base);
    CaughtUpAt(Driven(asked, DrainSteps(asked)), base, d);
  }

  /** Such a poll delivers exactly when a report is waiting. */
  lemma QuietPollDelivers(w: World, base: nat, d: nat, len: nat)
    requires Inv(w, base) && w.phase.AtRest? && d < w.driver.count
    ensures PollReport(w.trbs, w.driver, d, len).1 ==
            if |w.ports[d].delivered| < |w.ports[d].produced| then Some(Min(len, REPORT_MAX)) else None
  {
    DrainTells(w, base, d, len);
    QuietDrain(Step(w, Ask(d, len)));
    PollReportIs(w.trbs, w.driver, d, len);
  }

  lemma EndIsCaughtUp(
      w: World, base: nat, d: nat, len: nat, n: nat, drained: World, driver: Driver, delivered: seq<Delivery>)
    requires Inv(w, base) && w.phase.AtRest? && Shape(drained) && Unread(drained) == []
    requires Ends(drained, Driven(Step(w, Ask(d, len)), n), driver, delivered)
    requires d < driver.count && driver.devices[d].queued
    ensures var port := Driven(Step(w, Ask(d, len)), n).ports[d];
            InFlight(port) == 1 && |port.delivered| == |port.produced|
  {
    StepKeeps(w, base, Ask(d, len));
    DrivenKeeps(Step(w, Ask(d, len)), base, n);
    CaughtUpAt(Driven(Step(w, Ask(d, len)), n), base, d);
  }

  /** And it leaves the device with one block in flight and nothing undelivered. */
  lemma QuietPollRearms(w: World, base: nat, d: nat, len: nat) returns (n: nat)
    requires Inv(w, base) && w.phase.AtRest? && d < w.driver.count
    ensures var t := Driven(Step(w, Ask(d, len)), n);
            && t.phase.AtRest? && t.driver == PollReport(w.trbs, w.driver, d, len).0
            && InFlight(t.ports[d]) == 1 && |t.ports[d].delivered| == |t.ports[d].produced|
  {
    var m := DrainSteps(Step(w, Ask(d, len)));
    var k := QuietPollIsPollReport(w, d, len);
    n := m + k;
    var (driver, got) := PollReport(w.trbs, w.driver, d, len);
    DrainTells(w, base, d, len);
    PollReportIs(w.trbs, w.driver, d, len);
    EndIsCaughtUp(w, base, d, len, n, Driven(Step(w, Ask(d, len)), m), driver,
                  if got == None then [] else [Delivery(len, BufferOf(w.memory, d)[..got.value])]);
  }
}
