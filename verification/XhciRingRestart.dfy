/**
 Rings that are used again. `configure_endpoint` sets a new consumer at the base of a ring the driver
 goes on filling; re-enumeration starts the driver's side over too, on memory it does not clear. Each
 works exactly at certain counts of the blocks issued before.
 */
module XhciRingRestart {
  import opened Words
  import opened XhciTrb
  import opened XhciProducerRing

  // A block as the driver composes one.
  predicate Composed(trb: Trb) {
    Unmarked(trb) && KindOf(trb) != TRB_LINK
  }

  // ------------------------------------------------------------------------
  // A new consumer under the same producer
  // ------------------------------------------------------------------------

  // Everything issued so far is behind it; it begins at the base, with cycle state 1.
  function Restarted(s: System): System {
    s.(consumer := Consumer(s.producer.base, 1), taken := s.issued, consumerLap := |s.issued| / LAP)
  }

  ghost predicate AlwaysFifo(r: System) {
    && ProducerShape(r.producer)
    && forall actions: seq<Action>, t: System :: Reaches(r, actions, t) ==> IsFifo(t)
  }

  lemma LapsOf(s: System)
    requires Inv(s)
    ensures |s.issued| == s.producerLap * LAP + s.producer.index
    ensures |s.issued| % (2 * LAP) == 0 <==> s.issued == [] || (s.producerLap % 2 == 1 && s.producer.index == LAP)
    ensures |s.issued| % (2 * LAP) == 1 <==> s.producerLap % 2 == 0 && s.producer.index == 1
    ensures s.issued == [] <==> s.producerLap == 0 && s.producer.index == 0
  {
    PairsOfLaps(s.producerLap, s.producer.index);
  }

  lemma PairsOfLaps(lap: nat, index: nat)
    requires index <= LAP && (lap > 0 ==> index > 0)
    ensures var n := (lap * LAP + index) % (2 * LAP);
            && (n == 0 <==> (lap == 0 && index == 0) || (lap % 2 == 1 && index == LAP))
            && (n == 1 <==> lap % 2 == 0 && index == 1)
  {
    var half, rest := lap / 2, lap % 2 * LAP + index;
    assert lap * LAP + index == half * (2 * LAP) + rest;
    if rest < 2 * LAP {
      RemainderIs(lap * LAP + index, half, rest);
    } else {
      RemainderIs(lap * LAP + index, half + 1, 0);
    }
  }

  lemma RemainderIs(n: nat, q: nat, r: nat)
    requires n == q * (2 * LAP) + r && r < 2 * LAP
    ensures n % (2 * LAP) == r
  {
  }

  lemma RestartedHolds(s: System)
    requires Inv(s) && |s.issued| % (2 * LAP) == 0
    ensures Inv(Restarted(s))
  {
    LapsOf(s);
    if s.issued != [] {
      assert |s.issued| == (s.producerLap + 1) * LAP;
      assert |s.issued| / LAP == s.producerLap + 1;
    }
  }

  // The base slot, once anything has been issued, still has this lap's first block in it.
  lemma BaseSlot(s: System)
    requires Inv(s) && s.issued != []
    ensures s.producer.index > 0 && s.producerLap * LAP < |s.issued| && SlotAt(s.producer.base, s.producer.base) == 0
    ensures s.producer.trbs[0] == Marked(s.issued[s.producerLap * LAP], Parity(s.producerLap))
    ensures CycleOf(s.producer.trbs[0]) == Parity(s.producerLap) && KindOf(s.producer.trbs[0]) != TRB_LINK
    ensures Stripped(s.producer.trbs[0]) == s.issued[s.producerLap * LAP]
  {
    NamesSlot(s.producer.base, 0);
    var k := s.producerLap * LAP + 0;
    MarkedReadsBack(s.issued[k], Parity(s.producerLap));
  }

  /**
   On an even lap its first fetch takes a block issued long ago; on an odd one it sees nothing, and that
   is right only at the very end of the lap.
   */
  lemma RestartedConsumerRereads(s: System)
    requires Inv(s) && s.issued != []
    ensures s.producerLap * LAP < |s.issued|
    ensures var r := Restarted(s);
            var got := Fetch(r.producer.trbs, r.producer.base, r.consumer).1;
            if s.producerLap % 2 == 0 then got.Took? && Stripped(got.trb) == s.issued[s.producerLap * LAP]
            else got.Idle?
  {
    BaseSlot(s);
  }

  lemma ReachesNothing(s: System)
    requires ProducerShape(s.producer)
    ensures Reaches(s, [], s)
  {
  }

  lemma ReachesOne(s: System, a: Action)
    requires ProducerShape(s.producer) && Allowed(s, a)
    ensures ProducerShape(Step(s, a).producer) && Reaches(s, [a], Step(s, a))
  {
    assert Reaches(Step(s, a), [a][1..], Step(s, a));
  }

  // In the middle of an odd lap the next block goes where this consumer is not looking.
  lemma RestartedConsumerMisses(s: System, trb: Trb)
    requires Inv(s) && s.producerLap % 2 == 1 && s.producer.index < LAP && Composed(trb)
    ensures var r := Restarted(s);
            Allowed(r, Put(trb)) && !IsFifo(Step(r, Put(trb)))
  {
    LapsOf(s);
    BaseSlot(s);
    var t := Step(Restarted(s), Put(trb));
    assert t.producer.trbs[0] == s.producer.trbs[0];
  }

  /**
   A consumer set back to the base under a producer that carries on is a FIFO, over every run that
   follows, exactly when a whole number of pairs of laps had been issued.
   */
  lemma RestartedConsumerIsFifoExactly(s: System)
    requires Inv(s)
    ensures AlwaysFifo(Restarted(s)) <==> |s.issued| % (2 * LAP) == 0
  {
    var r := Restarted(s);
    LapsOf(s);
    if |s.issued| % (2 * LAP) == 0 {
      RestartedHolds(s);
      forall actions: seq<Action>, t: System | Reaches(r, actions, t) ensures IsFifo(t) {
        RunKeeps(r, actions, t);
        SoundIsFifo(t);
      }
    } else if s.producerLap % 2 == 0 {
      RestartedConsumerRereads(s);
      ReachesNothing(r);
      assert !IsFifo(r);
    } else {
      RestartedConsumerMisses(s, ZERO_TRB);
      ReachesOne(r, Put(ZERO_TRB));
    }
  }

  // The control transfers of a successful enumeration: two reads of three blocks, two writes of two.
  const EP0_BLOCKS: nat := 3 + 3 + 2 + 2

  /**
   The endpoint of a device just enumerated is not one of these: the ten blocks of its control transfers
   are on the ring, and the first fetch takes the first of them again.
   */
  lemma EnumeratedEndpointRereads(s: System)
    requires Inv(s) && |s.issued| == EP0_BLOCKS
    ensures !AlwaysFifo(Restarted(s))
    ensures var r := Restarted(s);
            var got := Fetch(r.producer.trbs, r.producer.base, r.consumer).1;
            got.Took? && Stripped(got.trb) == s.issued[0]
  {
    LapsOf(s);
    RestartedConsumerRereads(s);
    RestartedConsumerIsFifoExactly(s);
  }

  // ------------------------------------------------------------------------
  // A new consumer and a new producer on old memory
  // ------------------------------------------------------------------------

  // Both sides start over, and the controller does not look before the first block is placed.
  function Renewed(s: System, trb: Trb): System
    requires ProducerShape(s.producer)
  {
    Step(Blank(s), Put(trb))
  }

  function Blank(s: System): System {
    System(s.producer.(index := 0, cycle := 1), [], 0, Consumer(s.producer.base, 1), [], 0)
  }

  /**
   What the caller of a ring relies on: blocks are taken in order, each once, and no others. The link
   may be crossed before the block behind it is placed.
   */
  ghost predicate TakesInOrder(t: System) {
    && ProducerShape(t.producer) && t.taken <= t.issued
    && var (c, got) := Fetch(t.producer.trbs, t.producer.base, t.consumer);
       var final := if got.Followed? then Fetch(t.producer.trbs, t.producer.base, c).1 else got;
       if |t.taken| == |t.issued| then final.Idle?
       else final.Took? && Stripped(final.trb) == t.issued[|t.taken|]
  }

  ghost predicate AlwaysInOrder(s: System)
    requires ProducerShape(s.producer)
  {
    forall trb: Trb, actions: seq<Action>, t: System ::
      Composed(trb) && Reaches(Renewed(s, trb), actions, t) ==> TakesInOrder(t)
  }

  // The memory of a ring on its first lap, but that the link is already the one this lap will end with.
  ghost predicate LinkedEarly(s: System) {
    && s.producerLap == 0 && ProducerShape(s.producer)
    && s.producer.trbs[LAP] == LinkTrb(s.producer.base, 1) && Inv(Unlinked(s))
  }

  function Unlinked(s: System): System
    requires ProducerShape(s.producer)
  {
    s.(producer := s.producer.(trbs := s.producer.trbs[LAP := ZERO_TRB]))
  }

  lemma LinkedEarlyPut(s: System, trb: Trb)
    requires LinkedEarly(s) && Allowed(s, Put(trb))
    ensures var t := Step(s, Put(trb)); if s.producer.index < LAP then LinkedEarly(t) else Inv(t)
  {
    var u := Unlinked(s);
    IssueKeeps(u.producer, u.issued, u.producerLap, trb);
    if s.producer.index < LAP {
      assert Issue(s.producer, trb).trbs[LAP := ZERO_TRB] == Issue(u.producer, trb).trbs;
    } else {
      assert Issue(s.producer, trb).trbs == Issue(u.producer, trb).trbs;
    }
  }

  lemma LinkedEarlyGet(s: System)
    requires LinkedEarly(s)
    ensures LinkedEarly(Step(s, Get))
  {
    var u := Unlinked(s);
    GetKeeps(u);
    FetchReads(u.producer, u.issued, u.producerLap, u.consumer, |u.taken|, u.consumerLap);
    var slot := |u.taken| - u.consumerLap * LAP;
    NamesSlot(s.producer.base, slot);
    LinkReadsBack(s.producer.base, 1);
    if slot < LAP {
      assert s.producer.trbs[slot] == u.producer.trbs[slot];
      assert Unlinked(Step(s, Get)) == Step(u, Get);
    } else {
      assert Step(s, Get) == s.(consumer := Consumer(s.producer.base, 0), consumerLap := u.consumerLap + 1);
    }
  }

  lemma LinkedEarlyTakes(s: System)
    requires LinkedEarly(s)
    ensures TakesInOrder(s)
  {
    var u := Unlinked(s);
    FetchReads(u.producer, u.issued, u.producerLap, u.consumer, |u.taken|, u.consumerLap);
    var slot := |u.taken| - u.consumerLap * LAP;
    NamesSlot(s.producer.base, slot);
    NamesSlot(s.producer.base, 0);
    LinkReadsBack(s.producer.base, 1);
    if slot == LAP {
      SlotIsStale(u.producer, u.issued, u.producerLap, u.consumerLap + 1);
    }
  }

  lemma {:induction false} RunTakesInOrder(s: System, actions: seq<Action>, t: System)
    requires (Inv(s) || LinkedEarly(s)) && Reaches(s, actions, t)
    ensures Inv(t) || LinkedEarly(t)
    decreases |actions|
  {
    if Inv(s) {
      RunKeeps(s, actions, t);
    } else if actions != [] {
      match actions[0] {
        case Put(trb) => LinkedEarlyPut(s, trb);
        case Get => LinkedEarlyGet(s);
      }
      RunTakesInOrder(Step(s, actions[0]), actions[1..], t);
    }
  }

  lemma FifoTakesInOrder(t: System)
    requires IsFifo(t)
    ensures TakesInOrder(t)
  {
  }

  // Which slots of the old memory would read as the new first lap's.
  lemma OldSlot(s: System, k: nat)
    requires Inv(s) && k < LAP
    ensures var lap := if k < s.producer.index then s.producerLap else s.producerLap - 1;
            && CycleOf(s.producer.trbs[k]) == (if lap < 0 then 0 else Parity(lap))
            && (lap >= 0 ==> KindOf(s.producer.trbs[k]) != TRB_LINK)
  {
    if k < s.producer.index {
      OldBlock(s.producer.trbs[k], s.issued, s.producerLap * LAP + k, s.producerLap);
    } else if s.producerLap > 0 {
      OldBlock(s.producer.trbs[k], s.issued, s.producerLap * LAP - LAP + k, s.producerLap - 1);
    }
  }

  lemma OldBlock(trb: Trb, issued: seq<Trb>, n: nat, lap: nat)
    requires n < |issued| && trb == Marked(issued[n], Parity(lap)) && Composed(issued[n])
    ensures CycleOf(trb) == Parity(lap) && KindOf(trb) != TRB_LINK
  {
    MarkedReadsBack(issued[n], Parity(lap));
  }

  // With no other slot reading as the new lap's, the ring is as good as new once the first block is in.
  lemma RenewedHolds(s: System, trb: Trb)
    requires Inv(s) && |s.issued| % (2 * LAP) <= 1 && Composed(trb)
    ensures Inv(Renewed(s, trb)) || LinkedEarly(Renewed(s, trb))
  {
    LapsOf(s);
    var t := Renewed(s, trb);
    MarkedReadsBack(trb, 1);
    forall k: nat | 1 <= k < LAP ensures CycleOf(t.producer.trbs[k]) == 0 {
      OldSlot(s, k);
    }
    if s.producerLap > 0 { LinkReadsBack(s.producer.base, Parity(s.producerLap - 1)); }
  }

  // `k` blocks placed and taken, one by one.
  function Rounds(s: System, trb: Trb, k: nat): (t: System)
    requires ProducerShape(s.producer)
    ensures ProducerShape(t.producer)
  {
    if k == 0 then s else Step(Step(Rounds(s, trb, k - 1), Put(trb)), Get)
  }

  lemma {:induction false} ReachesOn(s: System, first: seq<Action>, t: System, more: seq<Action>, u: System)
    requires ProducerShape(s.producer) && Reaches(s, first, t) && ProducerShape(t.producer) && Reaches(t, more, u)
    ensures Reaches(s, first + more, u)
    decreases |first|
  {
    if first == [] {
      assert first + more == more;
    } else {
      assert (first + more)[1..] == first[1..] + more;
      ReachesOn(Step(s, first[0]), first[1..], t, more, u);
    }
  }

  // Everything placed is taken, and both sides stand at slot `k`, where the old memory begins.
  ghost predicate StandsAt(s: System, t: System, k: nat) {
    && k < LAP && |s.producer.trbs| == RING_LEN && |t.taken| == |t.issued| == k
    && ProducerShape(t.producer) && t.producer.base == s.producer.base
    && t.producer.index == k && t.producer.cycle == 1
    && t.consumer == Consumer(s.producer.base + k * TRB_SIZE, 1)
    && (forall j :: k <= j < RING_LEN ==> t.producer.trbs[j] == s.producer.trbs[j])
  }

  lemma OneRound(s: System, t: System, trb: Trb, k: nat)
    requires StandsAt(s, t, k) && k + 1 < LAP && Composed(trb)
    ensures Allowed(t, Put(trb)) && StandsAt(s, Step(Step(t, Put(trb)), Get), k + 1)
  {
    MarkedReadsBack(trb, 1);
    NamesSlot(s.producer.base, k);
    assert Step(t, Put(trb)).producer.trbs[k] == Marked(trb, 1);
  }

  lemma ReachesRound(s: System, trb: Trb)
    requires ProducerShape(s.producer) && Allowed(s, Put(trb))
    ensures Reaches(s, [Put(trb), Get], Step(Step(s, Put(trb)), Get))
  {
    var t := Step(s, Put(trb));
    ReachesOne(t, Get);
    assert [Put(trb), Get][1..] == [Get];
  }

  // Taking block by block, the new lap reaches old slot `k` before anything new is in it.
  lemma {:induction false} RoundsReach(s: System, trb: Trb, k: nat) returns (actions: seq<Action>)
    requires Inv(s) && Composed(trb) && 1 <= k < LAP
    ensures StandsAt(s, Rounds(Blank(s), trb, k), k)
    ensures Reaches(Renewed(s, trb), actions, Rounds(Blank(s), trb, k))
    decreases k
  {
    var before := Rounds(Blank(s), trb, k - 1);
    if k == 1 {
      OneRound(s, before, trb, 0);
      ReachesOne(Renewed(s, trb), Get);
      actions := [Get];
    } else {
      var earlier := RoundsReach(s, trb, k - 1);
      OneRound(s, before, trb, k - 1);
      ReachesRound(before, trb);
      ReachesOn(Renewed(s, trb), earlier, before, [Put(trb), Get], Rounds(Blank(s), trb, k));
      actions := earlier + [Put(trb), Get];
    }
  }

  // The first old slot that reads as the new lap's, when there is one the new lap will look at.
  function FirstOld(s: System): nat {
    if s.producerLap % 2 == 0 then 1 else s.producer.index
  }

  lemma FirstOldReads(s: System)
    requires Inv(s) && |s.issued| % (2 * LAP) > 1
    ensures var k := FirstOld(s);
            && 1 <= k < LAP && CycleOf(s.producer.trbs[k]) == 1 && KindOf(s.producer.trbs[k]) != TRB_LINK
  {
    LapsOf(s);
    OldSlot(s, FirstOld(s));
  }

  lemma FetchAt(s: System, t: System, k: nat)
    requires StandsAt(s, t, k) && CycleOf(s.producer.trbs[k]) == 1 && KindOf(s.producer.trbs[k]) != TRB_LINK
    ensures Fetch(t.producer.trbs, t.producer.base, t.consumer).1 == Took(s.producer.trbs[k])
  {
    NamesSlot(s.producer.base, k);
  }

  /** Once the blocks before it are taken, the first such slot is taken again, whatever it held. */
  lemma RenewedRingRereads(s: System, trb: Trb) returns (actions: seq<Action>)
    requires Inv(s) && |s.issued| % (2 * LAP) > 1 && Composed(trb)
    ensures var t := Rounds(Blank(s), trb, FirstOld(s));
            && Reaches(Renewed(s, trb), actions, t) && |t.taken| == |t.issued|
            && Fetch(t.producer.trbs, t.producer.base, t.consumer).1 == Took(s.producer.trbs[FirstOld(s)])
  {
    FirstOldReads(s);
    actions := RoundsReach(s, trb, FirstOld(s));
    FetchAt(s, Rounds(Blank(s), trb, FirstOld(s)), FirstOld(s));
  }

  /**
   A ring both sides start over on takes the new blocks in order, over every run, exactly when a whole
   number of pairs of laps had been issued, or one block more.
   */
  lemma RenewedRingTakesInOrderExactly(s: System)
    requires Inv(s)
    ensures AlwaysInOrder(s) <==> |s.issued| % (2 * LAP) <= 1
  {
    if |s.issued| % (2 * LAP) <= 1 {
      forall trb: Trb, actions: seq<Action>, t: System | Composed(trb) && Reaches(Renewed(s, trb), actions, t)
        ensures TakesInOrder(t)
      {
        RenewedHolds(s, trb);
        RunTakesInOrder(Renewed(s, trb), actions, t);
        if Inv(t) { SoundIsFifo(t); } else { LinkedEarlyTakes(t); }
      }
    } else {
      var actions := RenewedRingRereads(s, ZERO_TRB);
      assert Composed(ZERO_TRB);
      assert !TakesInOrder(Rounds(Blank(s), ZERO_TRB, FirstOld(s)));
    }
  }
}
