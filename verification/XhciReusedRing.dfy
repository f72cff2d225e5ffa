/**
 Polling a device whose ring has been used before: what `enumerate` leaves, and when it does no harm.
 */
module XhciReusedRing {
  import opened Common
  import opened Words
  import opened XhciTrb
  import Events = XhciEventRing
  import opened XhciPolling
  import opened XhciReports
  import opened XhciRingRestart
  import Producers = XhciProducerRing

  // The start of polling with device `d`'s endpoint set at the base of the ring `s` left, the others in step.
  ghost predicate ReusedStart(w: World, base: nat, d: nat, s: Producers.System) {
    && Quiet(w, base) && d < w.driver.count && Producers.Inv(s)
    && (forall e: nat :: e < w.driver.count ==> Unpolled(w, e) && (e != d ==> InStep(w, e)))
    && Line(w.ports[d], RingOf(w.driver, d)) == Restarted(s)
  }

  ghost predicate AlwaysReported(w: World, d: nat)
    requires Shape(w) && d < MAX_DEVICES
  {
    forall actions: seq<Action>, t: World :: Reaches(w, actions, t) ==> Shape(t) && Reported(t, d)
  }

  lemma OneAction(w: World, a: Action)
    requires Shape(w) && Allowed(w, a)
    ensures Reaches(w, [a], Step(w, a))
  {
    assert Reaches(Step(w, a), [a][1..], Step(w, a));
  }

  lemma ThenAction(w: World, first: seq<Action>, t: World, a: Action)
    requires Shape(w) && Reaches(w, first, t) && Shape(t) && Allowed(t, a)
    ensures Reaches(w, first + [a], Step(t, a))
    decreases |first|
  {
    if first == [] {
      OneAction(w, a);
    } else {
      assert (first + [a])[1..] == first[1..] + [a];
      ThenAction(Step(w, first[0]), first[1..], t, a);
    }
  }

  // Asked for a report with no event waiting and none ready, the driver comes to arm in three steps.
  lemma PollArms(w: World, base: nat, d: nat) returns (actions: seq<Action>)
    requires Quiet(w, base) && d < w.driver.count && Unpolled(w, d)
    ensures Shape(w.(phase := Arming(d, 0))) && Reaches(w, actions, w.(phase := Arming(d, 0)))
  {
    var asked := Step(w, Ask(d, 0));
    OneAction(w, Ask(d, 0));
    NothingRead(asked, base);
    ThenAction(w, [Ask(d, 0)], asked, Go);
    var deciding := DriverStep(asked);
    ThenAction(w, [Ask(d, 0)] + [Go], deciding, Go);
    assert DriverStep(deciding) == w.(phase := Arming(d, 0));
    actions := [Ask(d, 0)] + [Go] + [Go];
  }

  lemma ArmPlaces(w: World, d: nat)
    requires Shape(w) && w.phase == Arming(d, 0) && !w.driver.devices[d].queued
    ensures var t, trb := DriverStep(w), ReadTrb(w.driver, d, 0);
            && t.ports[d] == Issued(w.ports[d], RingOf(w.driver, d), trb, 0)
            && RingOf(t.driver, d) == Producers.Issue(RingOf(w.driver, d), trb)
  {
    TransferIsIssue(w.driver, d, ReadTrb(w.driver, d, 0));
  }

  // And places a block in one more.
  lemma PollPlaces(w: World, base: nat, d: nat) returns (actions: seq<Action>, t: World)
    requires Quiet(w, base) && d < w.driver.count && Unpolled(w, d)
    ensures Reaches(w, actions, t) && Shape(t)
    ensures t.ports[d] == Issued(w.ports[d], RingOf(w.driver, d), ReadTrb(w.driver, d, 0), 0)
    ensures RingOf(t.driver, d) == Producers.Issue(RingOf(w.driver, d), ReadTrb(w.driver, d, 0))
  {
    var first := PollArms(w, base, d);
    var arming := w.(phase := Arming(d, 0));
    ThenAction(w, first, arming, Go);
    ArmPlaces(arming, d);
    actions, t := first + [Go], DriverStep(arming);
  }

  lemma NothingRead(w: World, base: nat)
    requires EventsInv(w, base) && w.phase.Draining? && Unread(w) == []
    ensures DriverStep(w) == w.(phase := Deciding(w.phase.device, w.phase.len))
  {
    Events.NextEventReads(w.trbs, w.writer, w.posted, w.writerLap, w.driver.reader, w.read, w.readerLap);
  }

  lemma ReusedFails(w: World, base: nat, d: nat, s: Producers.System)
    requires ReusedStart(w, base, d, s) && |s.issued| % (2 * Producers.LAP) != 0
    ensures !AlwaysReported(w, d)
  {
    LapsOf(s);
    if s.producerLap % 2 == 0 {
      RestartedConsumerRereads(s);
      assert Reaches(w, [], w) && !Reported(w, d);
    } else {
      var trb := ReadTrb(w.driver, d, 0);
      ReadTrbReads(w.driver, d, 0);
      RestartedConsumerMisses(s, trb);
      var actions, t := PollPlaces(w, base, d);
      assert Line(t.ports[d], RingOf(t.driver, d)) == Producers.Step(Restarted(s), Producers.Put(trb));
      assert Reaches(w, actions, t) && !Reported(t, d);
    }
  }

  /**
   A device on a reused ring keeps every promise about its reports, over every run, exactly when a whole
   number of pairs of laps had been placed on the ring.
   */
  lemma ReusedRingKeepsReportsExactly(w: World, base: nat, d: nat, s: Producers.System)
    requires ReusedStart(w, base, d, s)
    ensures AlwaysReported(w, d) <==> |s.issued| % (2 * Producers.LAP) == 0
  {
    if |s.issued| % (2 * Producers.LAP) == 0 {
      RestartedHolds(s);
      assert Initial(w, base);
      forall actions: seq<Action>, t: World | Reaches(w, actions, t) ensures Shape(t) && Reported(t, d) {
        InitialHolds(w, base);
        RunKeeps(w, base, actions, t);
        RunKeepsCount(w, actions, t);
        SoundIsReported(t, base, d);
      }
    } else {
      ReusedFails(w, base, d, s);
    }
  }

  lemma {:induction false} RunKeepsCount(w: World, actions: seq<Action>, t: World)
    requires Shape(w) && Reaches(w, actions, t)
    ensures t.driver.count == w.driver.count
    decreases |actions|
  {
    if actions != [] {
      RunKeepsCount(Step(w, actions[0]), actions[1..], t);
    }
  }

  /**
   What `enumerate` leaves is no such number: after the ten blocks of its control transfers, the
   endpoint's first fetch takes the first of them again.
   */
  lemma EnumeratedDeviceRereads(w: World, base: nat, d: nat, s: Producers.System)
    requires ReusedStart(w, base, d, s) && |s.issued| == EP0_BLOCKS
    ensures Allowed(w, Look(d))
    ensures var t := Step(w, Look(d));
            t.ports[d].held == Some(s.issued[0]) && !(t.ports[d].taken <= t.ports[d].issued)
  {
    assert Unpolled(w, d);
    EnumeratedEndpointRereads(s);
    LookTakes(w.ports[d], RingOf(w.driver, d), BufferOf(w.memory, d), s);
  }

  lemma LookTakes(port: Port, ring: Producers.Producer, buffer: Report, s: Producers.System)
    requires |buffer| == BUFFER_LEN && Producers.Inv(s) && Line(port, ring) == Restarted(s) && |s.issued| > 0
    requires var got := Producers.Fetch(ring.trbs, ring.base, port.consumer).1;
             got.Took? && Stripped(got.trb) == s.issued[0]
    ensures Producers.ProducerShape(ring)
    ensures var next := Looked(port, ring, buffer); next.held == Some(s.issued[0]) && !(next.taken <= next.issued)
  {
    assert |Looked(port, ring, buffer).taken| == |port.issued| + 1;
  }
}
