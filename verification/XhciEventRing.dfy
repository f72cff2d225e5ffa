/**
 The event ring: the controller produces, the driver consumes (section 4.9.4 of the xHCI
 specification). There is no link; both sides turn round after the last slot.
 */
module XhciEventRing {
  import opened Common
  import opened Words
  import opened FloorDivision
  import opened XhciTrb

  datatype Event = Event(kind: nat, completion: nat, parameter: u64, slot: nat)

  function EventOf(trb: Trb): Event {
    Event(KindOf(trb), trb.status / 0x100_0000 % 256, trb.parameter, trb.control / 0x100_0000 % 256)
  }

  lemma FieldOut(high: nat, low: nat, unit: nat, size: nat)
    requires low < unit && size > 0
    ensures (high * unit + low) / unit % size == high % size
  {
    DivIs(high * unit + low, unit, high);
  }

  lemma ControlReadsBack(cycle: bit, flag: nat, kind: nat, endpoint: nat, slot: byte)
    requires flag < 512 && kind < 64 && endpoint < 256
    ensures var control := slot * 0x100_0000 + endpoint * 0x1_0000 + kind * 1024 + flag * 2 + cycle;
            && control < U32_MODULUS && control % 2 == cycle
            && control / 1024 % 64 == kind && control / 0x100_0000 % 256 == slot
  {
    var low, high := kind * 1024 + flag * 2 + cycle, slot * 256 + endpoint;
    FieldOut(slot, endpoint * 0x1_0000 + low, 0x100_0000, 256);
    FieldOut(high * 64 + kind, flag * 2 + cycle, 1024, 64);
    DivIs(high * 64 + kind, 64, high);
    DivBounds(high * 64 + kind, 64);
    var half := slot * 0x80_0000 + endpoint * 0x8000 + kind * 512 + flag;
    DivIs(half * 2 + cycle, 2, half);
    DivBounds(half * 2 + cycle, 2);
  }

  /**
   An event reads back as what the controller put into it: the cycle bit, flag and endpoint beside the kind
   and the slot, and the length below the completion code, are told apart.
   */
  lemma EventReadsBack(
      parameter: u64, length: nat, completion: byte, cycle: bit, flag: nat, kind: nat, endpoint: nat, slot: byte)
    requires length < 0x100_0000 && flag < 512 && kind < 64 && endpoint < 256
    ensures completion * 0x100_0000 + length < U32_MODULUS
    ensures slot * 0x100_0000 + endpoint * 0x1_0000 + kind * 1024 + flag * 2 + cycle < U32_MODULUS
    ensures var trb := Trb(parameter, completion * 0x100_0000 + length,
                           slot * 0x100_0000 + endpoint * 0x1_0000 + kind * 1024 + flag * 2 + cycle);
            EventOf(trb) == Event(kind, completion, parameter, slot) && CycleOf(trb) == cycle
  {
    FieldOut(completion, length, 0x100_0000, 256);
    ControlReadsBack(cycle, flag, kind, endpoint, slot);
  }

  // `address | (1 << 3)`: the dequeue pointer, with the Event Handler Busy flag acknowledged.
  function OrBit3(address: nat): nat {
    if address / 8 % 2 == 0 then address + 8 else address
  }

  /** The driver's side: the next slot to read, and the last value written to the dequeue register. */
  datatype Reader = Reader(base: nat, index: nat, cycle: bit, erdp: nat)

  function NextEvent(trbs: seq<Trb>, r: Reader): (Reader, Option<Event>)
    requires |trbs| == RING_LEN && r.index < RING_LEN
  {
    var trb := trbs[r.index];
    if CycleOf(trb) != r.cycle then (r, None) else (Turned(r), Some(EventOf(trb)))
  }

  // The reader one slot on, having said so to the controller.
  function Turned(r: Reader): Reader {
    var wraps := r.index + 1 >= RING_LEN;
    var index := if wraps then 0 else r.index + 1;
    var cycle := if wraps then 1 - r.cycle else r.cycle;
    Reader(r.base, index, cycle, OrBit3(r.base + index * TRB_SIZE))
  }

  /** The controller's side: where it will write next. */
  datatype Writer = Writer(index: nat, cycle: bit)

  function Posted(trbs: seq<Trb>, w: Writer, trb: Trb): seq<Trb>
    requires |trbs| == RING_LEN && w.index < RING_LEN
  {
    trbs[w.index := Marked(trb, w.cycle)]
  }

  function Advanced(w: Writer): Writer {
    if w.index + 1 >= RING_LEN then Writer(0, 1 - w.cycle) else Writer(w.index + 1, w.cycle)
  }

  // ------------------------------------------------------------------------
  // The invariant. Event `lap * RING_LEN + slot` lives in slot `slot` during lap `lap`.
  // ------------------------------------------------------------------------

  ghost predicate WriterInv(trbs: seq<Trb>, w: Writer, posted: seq<Trb>, lap: nat) {
    && |trbs| == RING_LEN && w.index < RING_LEN && w.cycle == Parity(lap)
    && |posted| == lap * RING_LEN + w.index
    && (forall k :: 0 <= k < |posted| ==> Unmarked(posted[k]))
    && (forall k :: 0 <= k < w.index ==> trbs[k] == Marked(posted[lap * RING_LEN + k], Parity(lap)))
    && (forall k :: w.index <= k < RING_LEN ==>
          if lap == 0 then trbs[k] == ZERO_TRB
          else trbs[k] == Marked(posted[lap * RING_LEN - RING_LEN + k], Parity(lap - 1)))
  }

  ghost predicate ReaderInv(r: Reader, read: nat, lap: nat) {
    && r.index < RING_LEN && r.cycle == Parity(lap)
    && read == lap * RING_LEN + r.index
  }

  lemma PostKeeps(trbs: seq<Trb>, w: Writer, posted: seq<Trb>, lap: nat, trb: Trb)
    requires WriterInv(trbs, w, posted, lap) && Unmarked(trb)
    ensures WriterInv(Posted(trbs, w, trb), Advanced(w), posted + [trb],
                      if w.index + 1 >= RING_LEN then lap + 1 else lap)
  {
  }

  lemma UnreadSlot(trbs: seq<Trb>, w: Writer, posted: seq<Trb>, writerLap: nat, index: nat, lap: nat)
    requires WriterInv(trbs, w, posted, writerLap) && index < RING_LEN
    requires lap * RING_LEN + index < |posted| <= lap * RING_LEN + index + RING_LEN
    ensures trbs[index] == Marked(posted[lap * RING_LEN + index], Parity(lap))
  {
    if lap == writerLap {
      assert trbs[index] == Marked(posted[writerLap * RING_LEN + index], Parity(lap));
    } else {
      assert lap + 1 == writerLap;
      assert trbs[index] == Marked(posted[writerLap * RING_LEN - RING_LEN + index], Parity(writerLap - 1));
    }
  }

  lemma StaleSlot(trbs: seq<Trb>, w: Writer, posted: seq<Trb>, writerLap: nat, index: nat, lap: nat)
    requires WriterInv(trbs, w, posted, writerLap) && index < RING_LEN
    requires lap * RING_LEN + index == |posted|
    ensures CycleOf(trbs[index]) != Parity(lap)
  {
    assert lap == writerLap;
    if lap > 0 { MarkedReadsBack(posted[|posted| - RING_LEN], Parity(lap - 1)); }
  }

  lemma MarkedIsSameEvent(trb: Trb, cycle: bit)
    ensures EventOf(Marked(trb, cycle)) == EventOf(trb)
  {
    OrBit0Keeps(trb.control, cycle);
  }

  lemma AlignedOrBit3(base: nat, index: nat)
    requires base % 16 == 0
    ensures OrBit3(base + index * TRB_SIZE) == base + index * TRB_SIZE + 8
  {
    var address := base + index * TRB_SIZE;
    assert address % 16 == 0;
    assert address == 16 * (address / 16);
    assert address / 8 == 2 * (address / 16);
  }

  lemma TurnReads(r: Reader, read: nat, lap: nat)
    requires ReaderInv(r, read, lap) && r.base % 16 == 0
    ensures var r' := Turned(r);
            && ReaderInv(r', read + 1, if r.index + 1 >= RING_LEN then lap + 1 else lap)
            && r'.base == r.base && r'.erdp == r.base + r'.index * TRB_SIZE + 8
  {
    AlignedOrBit3(r.base, Turned(r).index);
  }

  /**
   With at most `RING_LEN` events unread, the driver reads event `read` exactly when it has been
   posted and nothing otherwise, and the pointer it then writes names the next unread slot.
   */
  lemma NextEventReads(trbs: seq<Trb>, w: Writer, posted: seq<Trb>, writerLap: nat, r: Reader, read: nat, lap: nat)
    requires WriterInv(trbs, w, posted, writerLap) && ReaderInv(r, read, lap)
    requires read <= |posted| <= read + RING_LEN && r.base % 16 == 0
    ensures var (r', event) := NextEvent(trbs, r);
            if read == |posted| then event == None && r' == r
            else
              && event == Some(EventOf(posted[read]))
              && ReaderInv(r', read + 1, if r.index + 1 >= RING_LEN then lap + 1 else lap)
              && r'.base == r.base && r'.erdp == r.base + r'.index * TRB_SIZE + 8
  {
    if read < |posted| {
      UnreadSlot(trbs, w, posted, writerLap, r.index, lap);
      MarkedReadsBack(posted[read], Parity(lap));
      MarkedIsSameEvent(posted[read], Parity(lap));
      TurnReads(r, read, lap);
    } else {
      StaleSlot(trbs, w, posted, writerLap, r.index, lap);
    }
  }

  // ------------------------------------------------------------------------
  // Both sides interleaved
  // ------------------------------------------------------------------------

  datatype System = System(
    trbs: seq<Trb>, writer: Writer, posted: seq<Trb>, writerLap: nat,
    reader: Reader, returned: seq<Event>, readerLap: nat)

  datatype Action = Post(trb: Trb) | Poll

  function Initial(base: nat): System {
    System(seq(RING_LEN, _ => ZERO_TRB), Writer(0, 1), [], 0, Reader(base, 0, 1, base), [], 0)
  }

  // The controller posts only into a ring it can see is not full.
  predicate Allowed(s: System, a: Action) {
    a.Post? ==> Unmarked(a.trb) && |s.posted| < |s.returned| + RING_LEN
  }

  predicate Shape(s: System) {
    |s.trbs| == RING_LEN && s.writer.index < RING_LEN && s.reader.index < RING_LEN
  }

  function Step(s: System, a: Action): (t: System)
    requires Shape(s)
    ensures Shape(t)
  {
    match a
    case Post(trb) =>
      s.(trbs := Posted(s.trbs, s.writer, trb), writer := Advanced(s.writer), posted := s.posted + [trb],
         writerLap := if s.writer.index + 1 >= RING_LEN then s.writerLap + 1 else s.writerLap)
    case Poll =>
      var (r, event) := NextEvent(s.trbs, s.reader);
      if event == None then s.(reader := r)
      else s.(reader := r, returned := s.returned + [event.value],
              readerLap := if s.reader.index + 1 >= RING_LEN then s.readerLap + 1 else s.readerLap)
  }

  ghost predicate Reaches(s: System, actions: seq<Action>, t: System)
    requires Shape(s)
    decreases |actions|
  {
    if actions == [] then s == t
    else Allowed(s, actions[0]) && Reaches(Step(s, actions[0]), actions[1..], t)
  }

  ghost predicate Inv(s: System, base: nat) {
    && |s.returned| <= |s.posted| <= |s.returned| + RING_LEN
    && (forall k :: 0 <= k < |s.returned| ==> s.returned[k] == EventOf(s.posted[k]))
    && WriterInv(s.trbs, s.writer, s.posted, s.writerLap)
    && ReaderInv(s.reader, |s.returned|, s.readerLap)
    && s.reader.base == base
    && (s.returned != [] ==> s.reader.erdp == base + s.reader.index * TRB_SIZE + 8)
  }

  lemma StepKeeps(s: System, base: nat, a: Action)
    requires Inv(s, base) && Allowed(s, a) && base % 16 == 0
    ensures Inv(Step(s, a), base)
  {
    match a {
      case Post(trb) => PostKeeps(s.trbs, s.writer, s.posted, s.writerLap, trb);
      case Poll =>
        NextEventReads(s.trbs, s.writer, s.posted, s.writerLap, s.reader, |s.returned|, s.readerLap);
    }
  }

  lemma {:induction false} RunKeeps(s: System, base: nat, actions: seq<Action>, t: System)
    requires Inv(s, base) && base % 16 == 0 && Reaches(s, actions, t)
    ensures Inv(t, base)
    decreases |actions|
  {
    if actions != [] {
      StepKeeps(s, base, actions[0]);
      RunKeeps(Step(s, actions[0]), base, actions[1..], t);
    }
  }

  lemma SlotOf(lap: nat, index: nat)
    requires index < RING_LEN
    ensures (lap * RING_LEN + index) % RING_LEN == index
  {
  }

  /**
   The event ring is read exactly once and in order: after any interleaving from a zeroed ring, what
   the driver has been given is a prefix of what was posted, its next read answers `None` exactly
   when it has been given everything and the next event otherwise, and the dequeue pointer it last
   wrote is the address of the slot it will read, on every lap.
   */
  lemma EventsReadOnceInOrder(base: nat, actions: seq<Action>, t: System)
    requires base % 16 == 0 && Reaches(Initial(base), actions, t)
    ensures Shape(t) && |t.returned| <= |t.posted|
    ensures forall k :: 0 <= k < |t.returned| ==> t.returned[k] == EventOf(t.posted[k])
    ensures NextEvent(t.trbs, t.reader).1 ==
            if |t.returned| == |t.posted| then None else Some(EventOf(t.posted[|t.returned|]))
    ensures t.reader.index == |t.returned| % RING_LEN
    ensures t.returned != [] ==> t.reader.erdp - 8 == base + |t.returned| % RING_LEN * TRB_SIZE
  {
    assert Inv(Initial(base), base);
    RunKeeps(Initial(base), base, actions, t);
    SlotOf(t.readerLap, t.reader.index);
    NextEventReads(t.trbs, t.writer, t.posted, t.writerLap, t.reader, |t.returned|, t.readerLap);
  }
}
