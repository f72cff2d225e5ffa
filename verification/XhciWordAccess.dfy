/**
 The rings one word at a time. A block is three words, and nobody reads or writes all three at once:
 the writer puts the word with the cycle bit last, and what a reader makes of that depends on which
 word it reads first.
 */
module XhciWordAccess {
  import opened Common
  import opened Words
  import opened XhciTrb
  import opened XhciProducerRing
  import Events = XhciEventRing

  // ------------------------------------------------------------------------
  // The driver writes
  // ------------------------------------------------------------------------

  // A slot with the first `words` of the new block in it.
  function Torn(was: Trb, trb: Trb, words: nat): Trb {
    if words == 0 then was
    else if words == 1 then Trb(trb.parameter, was.status, was.control)
    else if words == 2 then Trb(trb.parameter, trb.status, was.control)
    else trb
  }

  // A wrap writes the link's three words before the block's.
  function Total(p: Producer): nat {
    if p.index >= RING_LEN - 1 then 6 else 3
  }

  // The ring's memory with `k` words of issuing `trb` done.
  function During(p: Producer, trb: Trb, k: nat): (trbs: seq<Trb>)
    requires ProducerShape(p)
    ensures |trbs| == RING_LEN
  {
    if p.index >= RING_LEN - 1 && k < 3 then p.trbs[LAP := Torn(p.trbs[LAP], LinkTrb(p.base, p.cycle), k)]
    else if p.index >= RING_LEN - 1 then
      var q := Wrapped(p);
      q.trbs[0 := Torn(q.trbs[0], Marked(trb, q.cycle), k - 3)]
    else p.trbs[p.index := Torn(p.trbs[p.index], Marked(trb, p.cycle), k)]
  }

  lemma DuringEnds(p: Producer, trb: Trb)
    requires ProducerShape(p)
    ensures During(p, trb, 0) == p.trbs && During(p, trb, Total(p)) == Issue(p, trb).trbs
  {
  }

  // ------------------------------------------------------------------------
  // The controller reads, the cycle bit first
  // ------------------------------------------------------------------------

  datatype Reading = NotReading | HasControl(control: u32) | HasParameter(control: u32, parameter: u64)

  datatype WordSystem = WordSystem(whole: System, writing: Option<Trb>, written: nat, reading: Reading)

  datatype Access = Begin(trb: Trb) | WriteWord | ReadControl | ReadParameter | ReadStatus

  function Memory(s: WordSystem): (trbs: seq<Trb>)
    requires ProducerShape(s.whole.producer)
    ensures |trbs| == RING_LEN
  {
    if s.writing.Some? then During(s.whole.producer, s.writing.value, s.written) else s.whole.producer.trbs
  }

  function Slot(s: System): nat {
    SlotAt(s.producer.base, s.consumer.dequeue)
  }

  predicate Enabled(s: WordSystem, a: Access) {
    match a
    case Begin(trb) => s.writing == None && Allowed(s.whole, Put(trb))
    case WriteWord => s.writing.Some?
    case ReadControl => s.reading.NotReading? && Slot(s.whole) < RING_LEN
    case ReadParameter => s.reading.HasControl? && Slot(s.whole) < RING_LEN
    case ReadStatus => s.reading.HasParameter? && Slot(s.whole) < RING_LEN
  }

  // What the consumer does with a block it has read, wherever it got it from.
  function Acted(s: System, trb: Trb): System {
    if KindOf(trb) == TRB_LINK then
      s.(consumer := Consumer(trb.parameter, if Toggles(trb) then 1 - s.consumer.cycle else s.consumer.cycle),
         consumerLap := s.consumerLap + 1)
    else
      s.(consumer := Consumer(s.consumer.dequeue + TRB_SIZE, s.consumer.cycle), taken := s.taken + [Stripped(trb)])
  }

  function Next(s: WordSystem, a: Access): WordSystem
    requires ProducerShape(s.whole.producer) && Enabled(s, a)
  {
    match a
    case Begin(trb) => s.(writing := Some(trb), written := 0)
    case WriteWord =>
      if s.written + 1 < Total(s.whole.producer) then s.(written := s.written + 1)
      else s.(whole := Step(s.whole, Put(s.writing.value)), writing := None, written := 0)
    case ReadControl =>
      var control := Memory(s)[Slot(s.whole)].control;
      if control % 2 == s.whole.consumer.cycle then s.(reading := HasControl(control)) else s
    case ReadParameter =>
      s.(reading := HasParameter(s.reading.control, Memory(s)[Slot(s.whole)].parameter))
    case ReadStatus =>
      var trb := Trb(s.reading.parameter, Memory(s)[Slot(s.whole)].status, s.reading.control);
      s.(whole := Acted(s.whole, trb), reading := NotReading)
  }

  ghost predicate Reaches(s: WordSystem, accesses: seq<Access>, t: WordSystem)
    requires ProducerShape(s.whole.producer)
    decreases |accesses|
  {
    if accesses == [] then s == t
    else
      && Enabled(s, accesses[0])
      && ProducerShape(Next(s, accesses[0]).whole.producer) && Reaches(Next(s, accesses[0]), accesses[1..], t)
  }

  // A block half written has its place in the queue; a block half read is what the memory still holds.
  ghost predicate WordInv(s: WordSystem) {
    && Inv(s.whole)
    && (s.writing.Some? ==> Allowed(s.whole, Put(s.writing.value)) && s.written < Total(s.whole.producer))
    && (!s.reading.NotReading? ==>
          && Slot(s.whole) < RING_LEN && s.reading.control == Memory(s)[Slot(s.whole)].control
          && s.reading.control % 2 == s.whole.consumer.cycle)
    && (s.reading.HasParameter? ==> s.reading.parameter == Memory(s)[Slot(s.whole)].parameter)
  }

  // What the consumer is looking at, while nothing is being written.
  lemma SeenAtRest(s: System)
    requires Inv(s)
    ensures Slot(s) < RING_LEN && Slot(s) == |s.taken| - s.consumerLap * LAP
    ensures var seen := s.producer.trbs[Slot(s)];
            if |s.taken| == |s.issued| then CycleOf(seen) != s.consumer.cycle
            else CycleOf(seen) == s.consumer.cycle && (KindOf(seen) == TRB_LINK <==> Slot(s) == LAP)
  {
    NamesSlot(s.producer.base, |s.taken| - s.consumerLap * LAP);
    FetchReads(s.producer, s.issued, s.producerLap, s.consumer, |s.taken|, s.consumerLap);
  }

  // Where a queue position lies tells its lap apart from any other less than a lap away.
  lemma SlotsApart(m: nat, n: nat, mLap: nat, nLap: nat)
    requires m < n < m + LAP
    ensures m - mLap * LAP != n - nLap * LAP
  {
  }

  // An entry outstanding is not where the driver writes: neither its slot nor, behind it, the link.
  lemma OutstandingIsElsewhere(s: System, trb: Trb, k: nat)
    requires Inv(s) && Allowed(s, Put(trb)) && |s.taken| < |s.issued| && k <= Total(s.producer)
    ensures Slot(s) < RING_LEN && During(s.producer, trb, k)[Slot(s)] == s.producer.trbs[Slot(s)]
  {
    SeenAtRest(s);
    var m, n := |s.taken|, |s.issued|;
    assert n == s.producerLap * LAP + s.producer.index;
    SlotsApart(m, n, s.consumerLap, s.producerLap);
    SlotsApart(m, n, s.consumerLap, s.producerLap + 1);
  }

  // With everything taken, the slot looked at reads stale until the very last word, unless it is the link
  // and the link is complete.
  lemma EmptyLooksEmpty(s: System, trb: Trb, k: nat)
    requires Inv(s) && Allowed(s, Put(trb)) && |s.taken| == |s.issued| && k < Total(s.producer)
    ensures Slot(s) < RING_LEN
    ensures var seen := During(s.producer, trb, k)[Slot(s)];
            if k >= 3 && Slot(s) == LAP then seen == LinkTrb(s.producer.base, s.consumer.cycle)
            else CycleOf(seen) != s.consumer.cycle
  {
    SeenAtRest(s);
  }

  /** What has been seen with its cycle bit right stays as it is, whatever words are written after. */
  lemma SeenIsStable(s: System, trb: Trb, k: nat)
    requires Inv(s) && Allowed(s, Put(trb)) && k < Total(s.producer) && Slot(s) < RING_LEN
    requires CycleOf(During(s.producer, trb, k)[Slot(s)]) == s.consumer.cycle
    ensures During(s.producer, trb, k + 1)[Slot(s)] == During(s.producer, trb, k)[Slot(s)]
  {
    if |s.taken| < |s.issued| {
      OutstandingIsElsewhere(s, trb, k);
      OutstandingIsElsewhere(s, trb, k + 1);
    } else {
      EmptyLooksEmpty(s, trb, k);
    }
  }

  lemma PutKeeps(s: System, trb: Trb)
    requires Inv(s) && Allowed(s, Put(trb))
    ensures Inv(Step(s, Put(trb)))
  {
    IssueKeeps(s.producer, s.issued, s.producerLap, trb);
  }

  // Reading the link that a wrap has just completed puts the consumer where the block will be.
  lemma FollowEarlyKeeps(s: System)
    requires Inv(s) && |s.taken| == |s.issued| && Slot(s) == LAP
    ensures Inv(Acted(s, LinkTrb(s.producer.base, s.consumer.cycle)))
  {
    SeenAtRest(s);
    LinkReadsBack(s.producer.base, s.consumer.cycle);
  }

  lemma TakeKeeps(s: System)
    requires Inv(s) && |s.taken| < |s.issued|
    ensures Slot(s) < RING_LEN && Inv(Acted(s, s.producer.trbs[Slot(s)]))
    ensures KindOf(s.producer.trbs[Slot(s)]) != TRB_LINK ==>
              Acted(s, s.producer.trbs[Slot(s)]).taken == s.taken + [s.issued[|s.taken|]]
  {
    SeenAtRest(s);
    GetKeeps(s);
    FetchReads(s.producer, s.issued, s.producerLap, s.consumer, |s.taken|, s.consumerLap);
    assert Acted(s, s.producer.trbs[Slot(s)]) == Step(s, Get);
  }

  lemma ActedKeeps(s: WordSystem)
    requires WordInv(s) && s.reading.HasParameter?
    ensures Inv(Next(s, ReadStatus).whole)
  {
    var w, trbs := s.whole, Memory(s);
    var seen := trbs[Slot(w)];
    assert Trb(s.reading.parameter, seen.status, s.reading.control) == seen;
    if |w.taken| < |w.issued| {
      if s.writing.Some? { OutstandingIsElsewhere(w, s.writing.value, s.written); }
      TakeKeeps(w);
    } else {
      SeenAtRest(w);
      EmptyLooksEmpty(w, s.writing.value, s.written);
      FollowEarlyKeeps(w);
    }
  }

  // While a block is being written, taking what is outstanding only makes more room for it.
  lemma StillAllowed(s: WordSystem)
    requires WordInv(s) && s.reading.HasParameter? && s.writing.Some?
    ensures Allowed(Next(s, ReadStatus).whole, Put(s.writing.value))
  {
  }

  lemma WriteKeeps(s: WordSystem)
    requires WordInv(s) && s.writing.Some?
    ensures WordInv(Next(s, WriteWord))
  {
    var w, trb := s.whole, s.writing.value;
    PutKeeps(w, trb);
    DuringEnds(w.producer, trb);
    if !s.reading.NotReading? {
      SeenIsStable(w, trb, s.written);
      assert Memory(Next(s, WriteWord)) == During(w.producer, trb, s.written + 1);
    }
  }

  lemma AccessKeeps(s: WordSystem, a: Access)
    requires WordInv(s) && Enabled(s, a)
    ensures WordInv(Next(s, a))
  {
    match a
    case Begin(trb) => DuringEnds(s.whole.producer, trb);
    case WriteWord => WriteKeeps(s);
    case ReadControl =>
    case ReadParameter =>
    case ReadStatus =>
      ActedKeeps(s);
      if s.writing.Some? { StillAllowed(s); }
  }

  lemma {:induction false} AccessesKeep(s: WordSystem, accesses: seq<Access>, t: WordSystem)
    requires WordInv(s) && Reaches(s, accesses, t)
    ensures WordInv(t)
    decreases |accesses|
  {
    if accesses != [] {
      AccessKeeps(s, accesses[0]);
      AccessesKeep(Next(s, accesses[0]), accesses[1..], t);
    }
  }

  /**
   A torn block is invisible. Over every interleaving of single-word accesses from a zeroed ring, with
   the controller reading the cycle bit first, what it has taken is a prefix of what was issued, and
   what it looks at next, it sees exactly when there is something there: the oldest block outstanding,
   or a complete link.
   */
  lemma WordsRefineFifo(base: u64, accesses: seq<Access>, t: WordSystem)
    requires Reaches(WordSystem(Initial(base), None, 0, NotReading), accesses, t)
    ensures ProducerShape(t.whole.producer) && t.whole.taken <= t.whole.issued && Slot(t.whole) < RING_LEN
    ensures |t.whole.taken| == |t.whole.issued| ==>
              var seen := Memory(t)[Slot(t.whole)];
              CycleOf(seen) != t.whole.consumer.cycle || seen == LinkTrb(t.whole.producer.base, t.whole.consumer.cycle)
    ensures |t.whole.taken| < |t.whole.issued| ==>
              var seen := Memory(t)[Slot(t.whole)];
              && CycleOf(seen) == t.whole.consumer.cycle
              && (KindOf(seen) != TRB_LINK ==> Stripped(seen) == t.whole.issued[|t.whole.taken|])
  {
    InitialHolds(base);
    AccessesKeep(WordSystem(Initial(base), None, 0, NotReading), accesses, t);
    SeenAtRest(t.whole);
    if |t.whole.taken| == |t.whole.issued| && t.writing.Some? {
      EmptyLooksEmpty(t.whole, t.writing.value, t.written);
    }
    if |t.whole.taken| < |t.whole.issued| {
      TakeKeeps(t.whole);
      if t.writing.Some? { OutstandingIsElsewhere(t.whole, t.writing.value, t.written); }
    }
  }

  // ------------------------------------------------------------------------
  // The driver reads an event
  // ------------------------------------------------------------------------

  // Only the controller acts between two of the driver's words.
  predicate OnlyPosts(actions: seq<Events.Action>) {
    forall i :: 0 <= i < |actions| ==> actions[i].Post?
  }

  lemma {:induction false} PostsKeep(s: Events.System, base: nat, actions: seq<Events.Action>, t: Events.System)
    requires Events.Inv(s, base) && base % 16 == 0 && Events.Reaches(s, actions, t) && OnlyPosts(actions)
    ensures Events.Inv(t, base) && t.reader == s.reader && t.returned == s.returned && s.posted <= t.posted
    ensures t.readerLap == s.readerLap
    decreases |actions|
  {
    if actions != [] {
      Events.StepKeeps(s, base, actions[0]);
      PostsKeep(Events.Step(s, actions[0]), base, actions[1..], t);
    }
  }

  // The event put together from a control word and data words that were read at different times.
  function Assembled(control: Trb, data: Trb, cycle: bit): Option<Events.Event> {
    if CycleOf(control) != cycle then None
    else Some(Events.EventOf(Trb(data.parameter, data.status, control.control)))
  }

  // What the slot holds: the next event, if it is posted.
  lemma SlotHolds(s: Events.System, base: nat)
    requires Events.Inv(s, base)
    ensures s.reader.index < |s.trbs|
    ensures var trb, read := s.trbs[s.reader.index], |s.returned|;
            if read < |s.posted|
            then CycleOf(trb) == s.reader.cycle && trb == Marked(s.posted[read], s.reader.cycle)
            else CycleOf(trb) != s.reader.cycle
  {
    var read := |s.returned|;
    if read < |s.posted| {
      Events.UnreadSlot(s.trbs, s.writer, s.posted, s.writerLap, s.reader.index, s.readerLap);
      MarkedReadsBack(s.posted[read], s.reader.cycle);
    } else {
      Events.StaleSlot(s.trbs, s.writer, s.posted, s.writerLap, s.reader.index, s.readerLap);
    }
  }

  /** Read with the cycle bit first, an event is right whatever is posted before its data is read. */
  lemma ControlFirstIsRight(s: Events.System, base: nat, posts: seq<Events.Action>, t: Events.System)
    requires Events.Inv(s, base) && base % 16 == 0 && Events.Reaches(s, posts, t) && OnlyPosts(posts)
    ensures s.reader.index < |s.trbs| && s.reader.index < |t.trbs|
    ensures Assembled(s.trbs[s.reader.index], t.trbs[s.reader.index], s.reader.cycle) ==
            if |s.returned| < |s.posted| then Some(Events.EventOf(s.posted[|s.returned|])) else None
  {
    PostsKeep(s, base, posts, t);
    SlotHolds(s, base);
    SlotHolds(t, base);
    if |s.returned| < |s.posted| {
      Events.MarkedIsSameEvent(s.posted[|s.returned|], s.reader.cycle);
    }
  }

  /**
   Read with the data first, it is right exactly when the event was there already, or still is not when
   the cycle bit is read, or the stale data happened to be the same. The driver's plain copy of the slot
   leaves the order open.
   */
  lemma DataFirstIsRightExactly(s: Events.System, base: nat, posts: seq<Events.Action>, t: Events.System)
    requires Events.Inv(s, base) && base % 16 == 0 && Events.Reaches(s, posts, t) && OnlyPosts(posts)
    ensures s.reader.index < |s.trbs| && s.reader.index < |t.trbs| && |s.returned| <= |t.posted|
    ensures var read, stale := |s.returned|, s.trbs[s.reader.index];
            var right := if read < |t.posted| then Some(Events.EventOf(t.posted[read])) else None;
            Assembled(t.trbs[s.reader.index], stale, s.reader.cycle) == right <==>
            || read < |s.posted| || read == |t.posted|
            || (stale.parameter == t.posted[read].parameter
                && stale.status / 0x100_0000 % 256 == t.posted[read].status / 0x100_0000 % 256)
  {
    PostsKeep(s, base, posts, t);
    SlotHolds(s, base);
    SlotHolds(t, base);
    if |s.returned| < |t.posted| {
      Events.MarkedIsSameEvent(t.posted[|s.returned|], s.reader.cycle);
    }
  }

  /** So a zeroed ring, read just as its first event arrives, can give that event with an empty parameter. */
  lemma DataFirstCanTear(base: nat, trb: Trb)
    requires base % 16 == 0 && Unmarked(trb) && trb.parameter != 0
    ensures var s := Events.Initial(base);
            var t := Events.Step(s, Events.Post(trb));
            var got := Assembled(t.trbs[0], s.trbs[0], s.reader.cycle);
            Events.Reaches(s, [Events.Post(trb)], t) && got.Some? && got.value.parameter == 0 != trb.parameter
  {
    MarkedReadsBack(trb, 1);
    var s := Events.Initial(base);
    assert Events.Reaches(Events.Step(s, Events.Post(trb)), [Events.Post(trb)][1..], Events.Step(s, Events.Post(trb)));
  }
}
