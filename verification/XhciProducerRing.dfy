/**
 The command and transfer rings: the driver produces, the controller consumes, and a link entry
 closes each lap (sections 4.9.2 and 4.9.3 of the xHCI specification).

 `Issue` is the driver's half; `Fetch` is one controller access. `Run` interleaves them in any order.
 */
module XhciProducerRing {
  import opened Words
  import opened XhciTrb

  // Entries a lap carries; the last slot is the link.
  const LAP: nat := RING_LEN - 1

  /** The driver's view: the shared memory, where it lies, and the next slot to fill. */
  datatype Producer = Producer(trbs: seq<Trb>, base: u64, index: nat, cycle: nat)

  function LinkTrb(base: u64, cycle: nat): Trb {
    Trb(base, 0, OrBit0(TRB_LINK * 1024 + TRB_TOGGLE, cycle))
  }

  predicate ProducerShape(p: Producer) {
    |p.trbs| == RING_LEN && p.index <= LAP && p.cycle < 2
  }

  function Wrapped(p: Producer): Producer
    requires ProducerShape(p)
  {
    p.(trbs := p.trbs[LAP := LinkTrb(p.base, p.cycle)], index := 0, cycle := 1 - p.cycle)
  }

  function Issue(p: Producer, trb: Trb): (r: Producer)
    requires ProducerShape(p)
    ensures ProducerShape(r) && r.base == p.base
  {
    var q := if p.index >= RING_LEN - 1 then Wrapped(p) else p;
    q.(trbs := q.trbs[q.index := Marked(trb, q.cycle)], index := q.index + 1)
  }

  /** The controller's view: an address to read next, and the cycle state it expects there. */
  datatype Consumer = Consumer(dequeue: nat, cycle: bit)

  datatype Fetched = Idle | Followed | Took(trb: Trb) | Lost

  // Which slot of the ring at `base` an address names, or `RING_LEN` when it names none.
  function SlotAt(base: u64, address: nat): nat {
    if base <= address < base + RING_LEN * TRB_SIZE && (address - base) % TRB_SIZE == 0
    then (address - base) / TRB_SIZE
    else RING_LEN
  }

  function Fetch(trbs: seq<Trb>, base: u64, c: Consumer): (Consumer, Fetched)
    requires |trbs| == RING_LEN
  {
    var slot := SlotAt(base, c.dequeue);
    if slot == RING_LEN then (c, Lost)
    else
      var trb := trbs[slot];
      if CycleOf(trb) != c.cycle then (c, Idle)
      else if KindOf(trb) == TRB_LINK then
        (Consumer(trb.parameter, if Toggles(trb) then 1 - c.cycle else c.cycle), Followed)
      else (Consumer(c.dequeue + TRB_SIZE, c.cycle), Took(trb))
  }

  /** Both sides, with what they have done: the blocks issued and taken, and the laps begun. */
  datatype System = System(
    producer: Producer, issued: seq<Trb>, producerLap: nat,
    consumer: Consumer, taken: seq<Trb>, consumerLap: nat)

  datatype Action = Put(trb: Trb) | Get

  function Initial(base: u64): System {
    System(Producer(seq(RING_LEN, _ => ZERO_TRB), base, 0, 1), [], 0, Consumer(base, 1), [], 0)
  }

  // The driver only issues composed blocks, and never with `RING_LEN - 1` still unconsumed.
  predicate Allowed(s: System, a: Action) {
    a.Put? ==> Unmarked(a.trb) && KindOf(a.trb) != TRB_LINK && |s.issued| < |s.taken| + LAP
  }

  function Step(s: System, a: Action): System
    requires ProducerShape(s.producer)
  {
    match a
    case Put(trb) =>
      var wraps := s.producer.index >= RING_LEN - 1;
      s.(producer := Issue(s.producer, trb), issued := s.issued + [trb],
         producerLap := if wraps then s.producerLap + 1 else s.producerLap)
    case Get =>
      var (c, got) := Fetch(s.producer.trbs, s.producer.base, s.consumer);
      s.(consumer := c,
         taken := if got.Took? then s.taken + [Stripped(got.trb)] else s.taken,
         consumerLap := if got.Followed? then s.consumerLap + 1 else s.consumerLap)
  }

  ghost predicate Reaches(s: System, actions: seq<Action>, t: System)
    requires ProducerShape(s.producer)
    decreases |actions|
  {
    if actions == [] then s == t
    else Allowed(s, actions[0]) && Reaches(Step(s, actions[0]), actions[1..], t)
  }

  // ------------------------------------------------------------------------
  // The invariant. Entry `lap * LAP + slot` of the queue lives in slot `slot` during lap `lap`.
  // ------------------------------------------------------------------------

  // Slots below `index` carry this lap's entries; the rest still carry the lap before, or on the first
  // lap whatever was there, so long as it reads as no lap's.
  ghost predicate MemoryInv(trbs: seq<Trb>, issued: seq<Trb>, lap: nat, index: nat) {
    && |trbs| == RING_LEN && index <= LAP && (lap > 0 ==> index > 0) && |issued| == lap * LAP + index
    && (forall k :: 0 <= k < index ==> trbs[k] == Marked(issued[lap * LAP + k], Parity(lap)))
    && (forall k :: index <= k < LAP ==>
          if lap == 0 then CycleOf(trbs[k]) == 0
          else trbs[k] == Marked(issued[lap * LAP - LAP + k], Parity(lap - 1)))
  }

  // The link is written when a lap ends, so during lap `lap` it still carries the lap before.
  ghost predicate LinkInv(trbs: seq<Trb>, base: u64, lap: nat) {
    && |trbs| == RING_LEN
    && if lap == 0 then CycleOf(trbs[LAP]) == 0 else trbs[LAP] == LinkTrb(base, Parity(lap - 1))
  }

  ghost predicate ProducerInv(p: Producer, issued: seq<Trb>, lap: nat) {
    && ProducerShape(p) && p.cycle == Parity(lap)
    && MemoryInv(p.trbs, issued, lap, p.index) && LinkInv(p.trbs, p.base, lap)
    && (forall k :: 0 <= k < |issued| ==> Unmarked(issued[k]) && KindOf(issued[k]) != TRB_LINK)
  }

  // Slot `LAP` stands for the controller waiting at the link.
  ghost predicate ConsumerInv(c: Consumer, base: u64, m: nat, lap: nat) {
    && lap * LAP <= m <= lap * LAP + LAP
    && c == Consumer(base + (m - lap * LAP) * TRB_SIZE, Parity(lap))
  }

  ghost predicate Inv(s: System) {
    && |s.taken| <= |s.issued| <= |s.taken| + LAP
    && s.taken == s.issued[..|s.taken|]
    && ProducerInv(s.producer, s.issued, s.producerLap)
    && ConsumerInv(s.consumer, s.producer.base, |s.taken|, s.consumerLap)
  }

  lemma LinkReadsBack(base: u64, cycle: bit)
    ensures CycleOf(LinkTrb(base, cycle)) == cycle
    ensures KindOf(LinkTrb(base, cycle)) == TRB_LINK && Toggles(LinkTrb(base, cycle))
  {
  }

  lemma InitialHolds(base: u64)
    ensures Inv(Initial(base))
  {
  }

  lemma IssueKeeps(p: Producer, issued: seq<Trb>, lap: nat, trb: Trb)
    requires ProducerInv(p, issued, lap) && Unmarked(trb) && KindOf(trb) != TRB_LINK
    ensures ProducerInv(Issue(p, trb), issued + [trb], if p.index >= RING_LEN - 1 then lap + 1 else lap)
  {
  }

  // An issued entry that is still outstanding lies in its slot, marked with its own lap.
  lemma SlotCarries(p: Producer, issued: seq<Trb>, producerLap: nat, m: nat, lap: nat)
    requires ProducerInv(p, issued, producerLap) && m < |issued| <= m + LAP
    requires lap * LAP <= m < lap * LAP + LAP
    ensures p.trbs[m - lap * LAP] == Marked(issued[m], Parity(lap))
  {
    var slot := m - lap * LAP;
    if lap == producerLap {
      assert p.trbs[slot] == Marked(issued[lap * LAP + slot], Parity(lap));
    } else {
      assert lap + 1 == producerLap;
      assert p.trbs[slot] == Marked(issued[producerLap * LAP - LAP + slot], Parity(producerLap - 1));
    }
  }

  // The slot of the next entry to be issued still reads as the lap before.
  lemma SlotIsStale(p: Producer, issued: seq<Trb>, producerLap: nat, lap: nat)
    requires ProducerInv(p, issued, producerLap)
    requires lap * LAP <= |issued| < lap * LAP + LAP
    ensures CycleOf(p.trbs[|issued| - lap * LAP]) != Parity(lap)
  {
    if p.index == LAP {
      assert lap == producerLap + 1 && |issued| - lap * LAP == 0;
      var k := producerLap * LAP + 0;
      assert p.trbs[0] == Marked(issued[k], Parity(producerLap));
      MarkedReadsBack(issued[k], Parity(producerLap));
    } else {
      assert lap == producerLap && |issued| - lap * LAP == p.index;
      if lap > 0 {
        var k := lap * LAP - LAP + p.index;
        assert p.trbs[p.index] == Marked(issued[k], Parity(lap - 1));
        MarkedReadsBack(issued[k], Parity(lap - 1));
      }
    }
  }

  // Behind the last entry of lap `lap`, the link reads as this lap's exactly when another lap began.
  lemma LinkCarries(p: Producer, issued: seq<Trb>, producerLap: nat, lap: nat)
    requires ProducerInv(p, issued, producerLap)
    requires var m := lap * LAP + LAP; m <= |issued| <= m + LAP
    ensures if lap * LAP + LAP < |issued| then p.trbs[LAP] == LinkTrb(p.base, Parity(lap))
            else CycleOf(p.trbs[LAP]) != Parity(lap)
  {
    if producerLap > 0 { LinkReadsBack(p.base, Parity(producerLap - 1)); }
  }

  lemma NamesSlot(base: u64, slot: nat)
    requires slot < RING_LEN
    ensures SlotAt(base, base + slot * TRB_SIZE) == slot
  {
  }

  /**
   One controller access: it is idle exactly when entry `m` has not been issued, and otherwise
   either crosses the link or takes entry `m`, never a leftover of an earlier lap.
   */
  lemma FetchReads(p: Producer, issued: seq<Trb>, producerLap: nat, c: Consumer, m: nat, lap: nat)
    requires ProducerInv(p, issued, producerLap) && ConsumerInv(c, p.base, m, lap)
    requires m <= |issued| <= m + LAP
    ensures var (c', got) := Fetch(p.trbs, p.base, c);
            if m == |issued| then got.Idle? && c' == c
            else if m == lap * LAP + LAP then got.Followed? && ConsumerInv(c', p.base, m, lap + 1)
            else got.Took? && Stripped(got.trb) == issued[m] && ConsumerInv(c', p.base, m + 1, lap)
  {
    var slot := m - lap * LAP;
    NamesSlot(p.base, slot);
    if slot == LAP {
      LinkCarries(p, issued, producerLap, lap);
      LinkReadsBack(p.base, Parity(lap));
    } else {
      if m < |issued| {
        SlotCarries(p, issued, producerLap, m, lap);
        MarkedReadsBack(issued[m], Parity(lap));
      } else {
        SlotIsStale(p, issued, producerLap, lap);
      }
    }
  }

  lemma GetKeeps(s: System)
    requires Inv(s)
    ensures Inv(Step(s, Get))
  {
    FetchReads(s.producer, s.issued, s.producerLap, s.consumer, |s.taken|, s.consumerLap);
  }

  lemma {:induction false} RunKeeps(s: System, actions: seq<Action>, t: System)
    requires Inv(s) && Reaches(s, actions, t)
    ensures Inv(t)
    decreases |actions|
  {
    if actions != [] {
      match actions[0] {
        case Put(trb) => IssueKeeps(s.producer, s.issued, s.producerLap, trb);
        case Get => GetKeeps(s);
      }
      RunKeeps(Step(s, actions[0]), actions[1..], t);
    }
  }

  /**
   What the controller has taken is a prefix of what was issued; its next access answers `Idle` exactly
   when it has taken everything, and otherwise takes the oldest entry outstanding, crossing at most one
   link to reach it.
   */
  ghost predicate IsFifo(t: System) {
    && ProducerShape(t.producer) && t.taken <= t.issued
    && var (c, got) := Fetch(t.producer.trbs, t.producer.base, t.consumer);
       if |t.taken| == |t.issued| then got.Idle?
       else
         var final := if got.Followed? then Fetch(t.producer.trbs, t.producer.base, c).1 else got;
         final.Took? && Stripped(final.trb) == t.issued[|t.taken|]
  }

  lemma SoundIsFifo(t: System)
    requires Inv(t)
    ensures IsFifo(t)
  {
    FetchReads(t.producer, t.issued, t.producerLap, t.consumer, |t.taken|, t.consumerLap);
    var (c, got) := Fetch(t.producer.trbs, t.producer.base, t.consumer);
    if got.Followed? {
      FetchReads(t.producer, t.issued, t.producerLap, c, |t.taken|, t.consumerLap + 1);
    }
  }

  /**
   The ring refines a FIFO queue after any interleaving from a zeroed ring that never leaves more than
   `RING_LEN - 1` entries unconsumed.
   */
  lemma RingRefinesFifo(base: u64, actions: seq<Action>, t: System)
    requires Reaches(Initial(base), actions, t)
    ensures IsFifo(t)
  {
    InitialHolds(base);
    RunKeeps(Initial(base), actions, t);
    SoundIsFifo(t);
  }
}
