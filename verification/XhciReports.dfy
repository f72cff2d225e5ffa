/**
 The report protocol end to end, one access at a time. The controller fetches each device's transfer
 ring, writes whatever address a block names, and posts completions; the driver drains, copies and
 arms. Either side may act between any two steps of the other.
 */
module XhciReports {
  import opened Common
  import opened Words
  import opened XhciTrb
  import opened XhciEventRing
  import opened XhciPolling
  import Producers = XhciProducerRing

  type Report = seq<byte>

  /** A report as the device sent it, and what its buffer held when the controller began to write it. */
  datatype Filled = Filled(report: Report, under: Report)

  // What the buffer holds once the report is in it.
  function Contents(f: Filled): Report {
    if |f.report| <= |f.under| then f.report + f.under[|f.report|..] else f.report
  }

  /** What the caller got for a poll that had `room` bytes to fill. */
  datatype Delivery = Delivery(room: nat, bytes: Report)

  /** One device's endpoint: where the controller is on its ring, and the history of both sides. */
  datatype Port = Port(
    consumer: Producers.Consumer,
    held: Option<Trb>,         // the block the controller is carrying out
    received: Report,          // what the device has sent for it
    under: Report,             // what its buffer held when it was taken
    issued: seq<Trb>,          // blocks the driver has placed
    begun: nat,                // how many of those before it began to poll
    asked: seq<nat>,           // the room of the poll that placed each of the rest
    taken: seq<Trb>,           // blocks the controller has taken
    producerLap: nat, consumerLap: nat,
    produced: seq<Filled>,     // reports completed well
    delivered: seq<Delivery>)  // what the driver has handed to its caller

  /** Where the driver is in `poll_report`. */
  datatype Phase =
    | AtRest
    | Draining(device: nat, len: nat, left: nat)
    | Deciding(device: nat, len: nat)
    | Copying(device: nat, len: nat, copied: Report)
    | Arming(device: nat, len: nat)
    | Ringing(device: nat)

  datatype World = World(
    driver: Driver, phase: Phase,
    trbs: seq<Trb>, writer: Writer, posted: seq<Trb>, writerLap: nat, read: nat, readerLap: nat,
    memory: seq<byte>, ports: seq<Port>)

  datatype Action =
    | Ask(device: nat, len: nat)       // the caller asks for a report
    | Go                                // the driver's next step
    | Look(device: nat)                 // the controller fetches from a transfer ring
    | Write(device: nat, value: byte)   // it stores one byte of a report
    | Finish(device: nat, code: byte)   // it completes a block
    | Announce(trb: Trb)                // it posts something about no live device's transfers

  predicate Shape(w: World) {
    && DriverShape(w.driver) && |w.trbs| == RING_LEN && w.writer.index < RING_LEN
    && |w.ports| == MAX_DEVICES && |w.memory| == MAX_DEVICES * BUFFER_LEN
    && (!w.phase.AtRest? ==> w.phase.device < w.driver.count)
    && (w.phase.Copying? ==> |w.phase.copied| <= REPORT_MAX)
  }

  function Address(s: Driver, d: nat): nat {
    s.bufferBase + d * BUFFER_LEN
  }

  // One device's stretch of the shared buffers.
  function BufferOf(memory: seq<byte>, d: nat): Report
    requires |memory| == MAX_DEVICES * BUFFER_LEN && d < MAX_DEVICES
  {
    memory[d * BUFFER_LEN..d * BUFFER_LEN + BUFFER_LEN]
  }

  // A byte stored at an address, wherever that is.
  function Stored(memory: seq<byte>, base: nat, address: nat, value: byte): seq<byte> {
    if base <= address < base + |memory| then memory[address - base := value] else memory
  }

  predicate Interrupts(trb: Trb) {
    trb.control / TRB_IOC % 2 == 1
  }

  predicate IsGood(code: byte) {
    code == CC_SUCCESS || code == CC_SHORT_PACKET
  }

  function CompletionTrb(slot: byte, code: byte): Trb {
    Trb(0, code * 0x100_0000, TRB_TRANSFER_EVENT * 1024 + slot * 0x100_0000)
  }

  predicate HasRoom(w: World) {
    |w.posted| < w.read + RING_LEN
  }

  // The controller carries out one block of a ring at a time, writes no more than it asks for, and
  // succeeds only at blocks it understands; no doorbell has to be rung for it to look.
  predicate Allowed(w: World, a: Action)
    requires Shape(w)
  {
    match a
    case Ask(_, _) => w.phase.AtRest?
    case Go => !w.phase.AtRest?
    case Look(d) => d < w.driver.count && w.ports[d].held == None
    case Write(d, _) =>
      && d < w.driver.count && w.ports[d].held.Some?
      && KindOf(w.ports[d].held.value) == TRB_NORMAL && |w.ports[d].received| < w.ports[d].held.value.status
    case Finish(d, code) =>
      && HasRoom(w) && d < w.driver.count && w.ports[d].held.Some?
      && (IsGood(code) ==> KindOf(w.ports[d].held.value) == TRB_NORMAL)
    case Announce(trb) =>
      && HasRoom(w) && Unmarked(trb)
      && forall d :: 0 <= d < w.driver.count ==> !IsFor(EventOf(trb), w.driver.devices[d].slot)
  }

  // ------------------------------------------------------------------------
  // Steps
  // ------------------------------------------------------------------------

  function Post(w: World, trb: Trb): (r: World)
    requires Shape(w)
    ensures Shape(r)
  {
    w.(trbs := Posted(w.trbs, w.writer, trb), writer := Advanced(w.writer), posted := w.posted + [trb],
       writerLap := if w.writer.index + 1 >= RING_LEN then w.writerLap + 1 else w.writerLap)
  }

  // What the controller sees of a ring and has done with it, as the system of `XhciProducerRing`.
  function Line(port: Port, ring: Producers.Producer): Producers.System {
    Producers.System(ring, port.issued, port.producerLap, port.consumer, port.taken, port.consumerLap)
  }

  function Looked(port: Port, ring: Producers.Producer, buffer: Report): Port
    requires Producers.ProducerShape(ring) && |buffer| == BUFFER_LEN
  {
    var (_, got) := Producers.Fetch(ring.trbs, ring.base, port.consumer);
    var line := Producers.Step(Line(port, ring), Producers.Get);
    var moved := port.(consumer := line.consumer, taken := line.taken, consumerLap := line.consumerLap);
    if got.Took? then moved.(held := Some(Stripped(got.trb)), received := [], under := buffer[..REPORT_MAX]) else moved
  }

  function Finished(port: Port, code: byte): Port {
    port.(held := None,
          produced := if IsGood(code) then port.produced + [Filled(port.received, port.under)] else port.produced)
  }

  function Issued(port: Port, ring: Producers.Producer, trb: Trb, len: nat): Port
    requires Producers.ProducerShape(ring)
  {
    var line := Producers.Step(Line(port, ring), Producers.Put(trb));
    port.(issued := line.issued, producerLap := line.producerLap, asked := port.asked + [len])
  }

  function Rang(s: Driver, d: nat): Driver
    requires d < |s.devices|
  {
    s.(doorbells := s.doorbells + [Bell(s.devices[d])], devices := s.devices[d := s.devices[d].(queued := true)])
  }

  // One step of `poll_report`: one event, one byte of the copy, or one half of arming.
  function DriverStep(w: World): (r: World)
    requires Shape(w) && !w.phase.AtRest?
    ensures Shape(r)
  {
    var d := w.phase.device;
    match w.phase
    case Draining(_, len, left) =>
      var (reader, event) := NextEvent(w.trbs, w.driver.reader);
      if left == 0 || event == None then w.(phase := Deciding(d, len))
      else
        w.(driver := w.driver.(reader := reader, devices := Route(w.driver.devices, w.driver.count, event.value)),
           read := w.read + 1,
           readerLap := if w.driver.reader.index + 1 >= RING_LEN then w.readerLap + 1 else w.readerLap,
           phase := Draining(d, len, left - 1))
    case Deciding(_, len) =>
      if w.driver.devices[d].ready then
        w.(driver := w.driver.(devices := w.driver.devices[d := w.driver.devices[d].(ready := false)]),
           phase := Copying(d, len, []))
      else w.(phase := Arming(d, len))
    case Copying(_, len, copied) =>
      if |copied| < REPORT_MAX then w.(phase := Copying(d, len, copied + [w.memory[d * BUFFER_LEN + |copied|]]))
      else
        w.(ports := w.ports[d := w.ports[d].(delivered := w.ports[d].delivered + [Given(copied, len)])],
           phase := Arming(d, len))
    case Arming(_, len) =>
      if w.driver.devices[d].queued then w.(phase := AtRest)
      else
        var trb := ReadTrb(w.driver, d, len);
        w.(driver := Transfer(w.driver, d, trb),
           ports := w.ports[d := Issued(w.ports[d], RingOf(w.driver, d), trb, len)],
           phase := Ringing(d))
    case Ringing(_) => w.(driver := Rang(w.driver, d), phase := AtRest)
  }

  function Step(w: World, a: Action): (r: World)
    requires Shape(w) && Allowed(w, a)
    ensures Shape(r)
  {
    match a
    case Ask(d, len) => if d < w.driver.count then w.(phase := Draining(d, len, RING_LEN)) else w
    case Go => DriverStep(w)
    case Look(d) => w.(ports := w.ports[d := Looked(w.ports[d], RingOf(w.driver, d), BufferOf(w.memory, d))])
    case Write(d, value) =>
      var port := w.ports[d];
      w.(memory := Stored(w.memory, w.driver.bufferBase, port.held.value.parameter + |port.received|, value),
         ports := w.ports[d := port.(received := port.received + [value])])
    case Finish(d, code) =>
      var done := w.(ports := w.ports[d := Finished(w.ports[d], code)]);
      // A block that asks for no interrupt completes well in silence.
      if code == CC_SUCCESS && !Interrupts(w.ports[d].held.value) then done
      else Post(done, CompletionTrb(w.driver.devices[d].slot, code))
    case Announce(trb) => Post(w, trb)
  }

  ghost predicate Reaches(w: World, actions: seq<Action>, t: World)
    requires Shape(w)
    decreases |actions|
  {
    if actions == [] then w == t
    else Allowed(w, actions[0]) && Reaches(Step(w, actions[0]), actions[1..], t)
  }

  // ------------------------------------------------------------------------
  // The invariant of one device
  // ------------------------------------------------------------------------

  // A read into the buffer at `address` that asks for as much as a poll with `room` bytes can use.
  predicate IsReadInto(trb: Trb, address: nat, room: nat) {
    && trb.parameter == address && trb.status == Min(room, REPORT_MAX)
    && KindOf(trb) == TRB_NORMAL && Interrupts(trb) && Unmarked(trb)
  }

  // As many bytes as were asked for: the report's, and past its end those that were there before it.
  predicate Faithful(given: Delivery, f: Filled) {
    && |f.report| <= REPORT_MAX == |f.under|
    && given.bytes == Contents(f)[..Min(given.room, REPORT_MAX)]
  }

  predicate InOrder(port: Port) {
    && |port.delivered| <= |port.produced|
    && forall i :: 0 <= i < |port.delivered| ==> Faithful(port.delivered[i], port.produced[i])
  }

  // Blocks placed and not completed.
  function InFlight(port: Port): int {
    |port.issued| - |port.taken| + if port.held.Some? then 1 else 0
  }

  function Rung(doorbells: seq<Doorbell>, bell: Doorbell): nat {
    if doorbells == [] then 0
    else Rung(doorbells[..|doorbells| - 1], bell) + if doorbells[|doorbells| - 1] == bell then 1 else 0
  }

  // The driver's phase, as far as one device is concerned.
  datatype Stage = Away | InCopy(copied: Report) | BeforeArm | BeforeRing

  function StageOf(phase: Phase, d: nat): Stage {
    match phase
    case Copying(e, _, copied) => if e == d then InCopy(copied) else Away
    case Arming(e, _) => if e == d then BeforeArm else Away
    case Ringing(e) => if e == d then BeforeRing else Away
    case _ => Away
  }

  // Both sides of the ring, and every block polling placed a read into this device's own buffer.
  ghost predicate LineInv(port: Port, ring: Producers.Producer, address: nat) {
    && Producers.ProducerShape(ring) && Producers.Inv(Line(port, ring))
    && port.begun <= |port.taken| && |port.asked| == |port.issued| - port.begun
    && forall k :: port.begun <= k < |port.issued| ==> IsReadInto(port.issued[k], address, port.asked[k - port.begun])
  }

  // What the controller has written for the block it holds is in the buffer the block names.
  ghost predicate HeldInv(port: Port, address: nat, buffer: Report) {
    && |buffer| == BUFFER_LEN
    && (port.held.Some? ==>
          && |port.taken| > port.begun && port.held.value == port.taken[|port.taken| - 1]
          && |port.received| <= port.held.value.status <= REPORT_MAX == |port.under|
          && Contents(Filled(port.received, port.under)) == buffer[..REPORT_MAX])
  }

  // The two flags and the driver's place account for every block and every completion.
  ghost predicate FlagInv(port: Port, dev: DeviceSlot, stage: Stage, pending: nat, arrived: nat) {
    && InFlight(port) + pending == (if dev.queued || stage.BeforeRing? then 1 else 0)
    && 0 <= InFlight(port) && arrived <= pending
    && !(dev.queued && dev.ready)
    && (!stage.Away? ==> !dev.ready) && (stage.InCopy? || stage.BeforeRing? ==> !dev.queued)
    && |port.produced| == |port.delivered| + arrived + (if dev.ready || stage.InCopy? then 1 else 0)
  }

  // A report not delivered yet is still whole in the buffer, and what has been copied is its beginning.
  ghost predicate BufferInv(port: Port, stage: Stage, buffer: Report) {
    && |buffer| == BUFFER_LEN
    && (|port.produced| > |port.delivered| ==>
          var last := port.produced[|port.produced| - 1];
          |last.report| <= REPORT_MAX == |last.under| && Contents(last) == buffer[..REPORT_MAX])
    && (stage.InCopy? ==> |stage.copied| <= REPORT_MAX && stage.copied <= buffer)
    && InOrder(port)
  }

  /** One device, seen from everything that concerns it. */
  datatype View = View(
    port: Port, dev: DeviceSlot, ring: Producers.Producer, address: nat,
    buffer: Report, stage: Stage, rung: nat, unread: seq<Trb>)

  ghost predicate Sound(v: View) {
    && LineInv(v.port, v.ring, v.address) && HeldInv(v.port, v.address, v.buffer)
    && FlagInv(v.port, v.dev, v.stage, Pending(v.unread, v.dev.slot), Arrived(v.unread, v.dev.slot))
    && BufferInv(v.port, v.stage, v.buffer)
    && |v.port.issued| == v.port.begun + v.rung + if v.stage.BeforeRing? then 1 else 0
  }

  function Unread(w: World): seq<Trb> {
    if w.read <= |w.posted| then w.posted[w.read..] else []
  }

  function ViewOf(w: World, d: nat): View
    requires Shape(w) && d < MAX_DEVICES
  {
    View(w.ports[d], w.driver.devices[d], RingOf(w.driver, d), Address(w.driver, d), BufferOf(w.memory, d),
         StageOf(w.phase, d), Rung(w.driver.doorbells, Bell(w.driver.devices[d])), Unread(w))
  }

  ghost predicate EventsInv(w: World, base: nat) {
    && Shape(w) && DistinctSlots(w.driver.devices, w.driver.count)
    && w.driver.reader.base == base && base % 16 == 0 && w.read <= |w.posted| <= w.read + RING_LEN
    && WriterInv(w.trbs, w.writer, w.posted, w.writerLap) && ReaderInv(w.driver.reader, w.read, w.readerLap)
  }

  ghost predicate Inv(w: World, base: nat) {
    EventsInv(w, base) && forall d: nat :: d < w.driver.count ==> Sound(ViewOf(w, d))
  }

  // ------------------------------------------------------------------------
  // The controller's steps, one device at a time
  // ------------------------------------------------------------------------

  lemma {:induction false} PendingAppend(trbs: seq<Trb>, trb: Trb, slot: nat)
    ensures Pending(trbs + [trb], slot) == Pending(trbs, slot) + (if IsFor(EventOf(trb), slot) then 1 else 0)
    ensures Arrived(trbs + [trb], slot) ==
            Arrived(trbs, slot) + (if IsFor(EventOf(trb), slot) && Succeeded(EventOf(trb)) then 1 else 0)
    decreases |trbs|
  {
    if trbs != [] {
      assert (trbs + [trb])[1..] == trbs[1..] + [trb];
      PendingAppend(trbs[1..], trb, slot);
    }
  }

  // What a fetch comes to: nothing but a move, or the oldest block outstanding.
  lemma LookedIs(port: Port, ring: Producers.Producer, buffer: Report)
    requires Producers.ProducerShape(ring) && Producers.Inv(Line(port, ring))
    requires port.held == None && |buffer| == BUFFER_LEN
    ensures var next := Looked(port, ring, buffer);
            Producers.Inv(Line(next, ring)) && IsLook(port, next, buffer)
  {
    var line := Line(port, ring);
    Producers.GetKeeps(line);
    Producers.FetchReads(ring, port.issued, port.producerLap, port.consumer, |port.taken|, port.consumerLap);
    assert Line(Looked(port, ring, buffer), ring) == Producers.Step(line, Producers.Get);
  }

  // A fetch that found nothing, or the oldest block outstanding, as far as the invariant goes.
  predicate IsLook(port: Port, next: Port, buffer: Report)
    requires |buffer| == BUFFER_LEN
  {
    && next == port.(consumer := next.consumer, consumerLap := next.consumerLap,
                     taken := next.taken, held := next.held,
                     received := next.received, under := next.under)
    && if next.held == None then next.taken == port.taken
       else
         && |port.taken| < |port.issued| && next.received == [] && next.under == buffer[..REPORT_MAX]
         && next.held == Some(port.issued[|port.taken|]) && next.taken == port.taken + [port.issued[|port.taken|]]
  }

  lemma LookKeepsBlocks(v: View, next: Port)
    requires LineInv(v.port, v.ring, v.address) && |v.buffer| == BUFFER_LEN
    requires v.port.held == None && IsLook(v.port, next, v.buffer) && Producers.Inv(Line(next, v.ring))
    ensures LineInv(next, v.ring, v.address) && HeldInv(next, v.address, v.buffer)
    ensures InFlight(next) == InFlight(v.port)
  {
    if next.held != None {
      var k := |v.port.taken|;
      assert IsReadInto(v.port.issued[k], v.address, v.port.asked[k - v.port.begun]);
      assert Contents(Filled([], next.under)) == next.under;
    }
  }

  lemma AnyLookKeeps(v: View, next: Port)
    requires Sound(v) && v.port.held == None && IsLook(v.port, next, v.buffer) && Producers.Inv(Line(next, v.ring))
    ensures Sound(v.(port := next))
  {
    LookKeepsBlocks(v, next);
  }

  /** The controller takes exactly the block placed last, and only when there is one. */
  lemma LookKeeps(v: View)
    requires Sound(v) && v.port.held == None
    ensures IsLook(v.port, Looked(v.port, v.ring, v.buffer), v.buffer)
    ensures Sound(v.(port := Looked(v.port, v.ring, v.buffer)))
  {
    LookedIs(v.port, v.ring, v.buffer);
    AnyLookKeeps(v, Looked(v.port, v.ring, v.buffer));
  }

  lemma StoredInBuffer(memory: seq<byte>, base: nat, d: nat, k: nat, value: byte, e: nat)
    requires |memory| == MAX_DEVICES * BUFFER_LEN && d < MAX_DEVICES && e < MAX_DEVICES && k < BUFFER_LEN
    ensures |Stored(memory, base, base + d * BUFFER_LEN + k, value)| == |memory|
    ensures BufferOf(Stored(memory, base, base + d * BUFFER_LEN + k, value), e) ==
            if e == d then BufferOf(memory, d)[k := value] else BufferOf(memory, e)
  {
  }

  // What is held is a read into the device's own buffer, as its poll asked for it.
  lemma HeldIsRead(v: View)
    requires Sound(v) && v.port.held.Some?
    ensures var k := |v.port.taken| - 1 - v.port.begun;
            0 <= k < |v.port.asked| && IsReadInto(v.port.held.value, v.address, v.port.asked[k])
  {
    assert v.port.held.value == v.port.issued[|v.port.taken| - 1];
  }

  lemma OneMoreByte(f: Filled, buffer: Report, value: byte)
    requires |f.report| < REPORT_MAX == |f.under| && |buffer| == BUFFER_LEN && Contents(f) == buffer[..REPORT_MAX]
    ensures Contents(f.(report := f.report + [value])) == buffer[|f.report| := value][..REPORT_MAX]
  {
    assert f.under[|f.report|..][1..] == f.under[|f.report| + 1..];
    assert buffer[..REPORT_MAX][|f.report| + 1..] == f.under[|f.report| + 1..];
  }

  /** A byte written for a block lands in that block's own device's buffer, after the bytes before it. */
  lemma WriteKeeps(v: View, value: byte)
    requires Sound(v) && v.port.held.Some? && |v.port.received| < v.port.held.value.status
    ensures v.port.held.value.parameter == v.address && |v.port.received| < REPORT_MAX
    ensures Sound(v.(port := v.port.(received := v.port.received + [value]),
                     buffer := v.buffer[|v.port.received| := value]))
  {
    HeldIsRead(v);
    assert Line(v.port.(received := v.port.received + [value]), v.ring) == Line(v.port, v.ring);
    OneMoreByte(Filled(v.port.received, v.port.under), v.buffer, value);
    assert |v.port.produced| == |v.port.delivered| && !v.stage.InCopy?;
  }

  lemma CompletionReadsBack(slot: byte, code: byte)
    ensures var event := EventOf(CompletionTrb(slot, code));
            event.kind == TRB_TRANSFER_EVENT && event.slot == slot && event.completion == code
    ensures Unmarked(CompletionTrb(slot, code))
  {
    var control := TRB_TRANSFER_EVENT * 1024 + slot * 0x100_0000;
    assert control / 0x100_0000 == slot;
    assert control / 1024 == TRB_TRANSFER_EVENT + slot * 0x4000;
    assert control % 2 == 0;
    assert code * 0x100_0000 / 0x100_0000 == code;
  }

  /** A completion turns the block held into one unread event, and a report if it went well. */
  lemma FinishKeeps(v: View, code: byte)
    requires Sound(v) && v.port.held.Some?
    ensures Interrupts(v.port.held.value)
    ensures Sound(v.(port := Finished(v.port, code), unread := v.unread + [CompletionTrb(v.dev.slot, code)]))
  {
    HeldIsRead(v);
    CompletionReadsBack(v.dev.slot, code);
    PendingAppend(v.unread, CompletionTrb(v.dev.slot, code), v.dev.slot);
    assert Line(Finished(v.port, code), v.ring) == Line(v.port, v.ring);
    assert |v.port.produced| == |v.port.delivered| && !v.stage.InCopy?;
  }

  /** An event about something else leaves the device as it was. */
  lemma OtherEventKeeps(v: View, trb: Trb)
    requires Sound(v) && !IsFor(EventOf(trb), v.dev.slot)
    ensures Sound(v.(unread := v.unread + [trb]))
  {
    PendingAppend(v.unread, trb, v.dev.slot);
  }

  // ------------------------------------------------------------------------
  // The driver's steps, one device at a time
  // ------------------------------------------------------------------------

  // What one event does to one device's flags.
  function Routed(dev: DeviceSlot, event: Event): DeviceSlot {
    if IsFor(event, dev.slot) then dev.(queued := false, ready := dev.ready || Succeeded(event)) else dev
  }

  lemma RouteIsRouted(devices: seq<DeviceSlot>, count: nat, event: Event, d: nat)
    requires DistinctSlots(devices, count) && d < count
    ensures Route(devices, count, event)[d] == Routed(devices[d], event)
  {
  }

  lemma RouteKeepsSlots(devices: seq<DeviceSlot>, count: nat, event: Event)
    requires DistinctSlots(devices, count)
    ensures DistinctSlots(Route(devices, count, event), count)
  {
  }

  /** Reading a completion frees the device, and marks it ready exactly when a report came with it. */
  lemma RoutedKeeps(v: View)
    requires Sound(v) && v.unread != [] && v.stage.Away?
    ensures Sound(v.(dev := Routed(v.dev, EventOf(v.unread[0])), unread := v.unread[1..]))
  {
    ArrivedIsPending(v.unread[1..], v.dev.slot);
  }

  lemma {:induction false} ArrivedIsPending(trbs: seq<Trb>, slot: nat)
    ensures Arrived(trbs, slot) <= Pending(trbs, slot)
    decreases |trbs|
  {
    if trbs != [] {
      ArrivedIsPending(trbs[1..], slot);
    }
  }

  /** A ready device has no block in flight, so the copy starts from a buffer nothing is writing. */
  lemma ReadyKeeps(v: View)
    requires Sound(v) && v.stage.Away?
    ensures v.dev.ready ==> Sound(v.(dev := v.dev.(ready := false), stage := InCopy([])))
    ensures !v.dev.ready ==> Sound(v.(stage := BeforeArm))
  {
  }

  lemma CopyKeeps(v: View)
    requires Sound(v) && v.stage.InCopy? && |v.stage.copied| < REPORT_MAX
    ensures Sound(v.(stage := InCopy(v.stage.copied + [v.buffer[|v.stage.copied|]])))
  {
  }

  function Given(copied: Report, len: nat): Delivery
    requires |copied| == REPORT_MAX
  {
    Delivery(len, copied[..Min(len, REPORT_MAX)])
  }

  /** The finished copy is the one report produced and not delivered. */
  lemma DeliverKeeps(v: View, len: nat)
    requires Sound(v) && v.stage.InCopy? && |v.stage.copied| == REPORT_MAX
    ensures Sound(v.(port := v.port.(delivered := v.port.delivered + [Given(v.stage.copied, len)]), stage := BeforeArm))
  {
    var given := Given(v.stage.copied, len);
    var port' := v.port.(delivered := v.port.delivered + [given]);
    assert Line(port', v.ring) == Line(v.port, v.ring);
    assert v.stage.copied == v.buffer[..REPORT_MAX];
    assert Faithful(given, v.port.produced[|v.port.delivered|]);
    assert InOrder(port');
  }

  lemma ReadTrbReads(s: Driver, d: nat, len: nat)
    requires DriverShape(s) && d < MAX_DEVICES
    ensures IsReadInto(ReadTrb(s, d, len), Address(s, d), len)
  {
  }

  /** With none in flight the ring has room, and the block placed is a read into the device's own buffer. */
  lemma IssueKeeps(v: View, dev: DeviceSlot, trb: Trb, len: nat)
    requires Sound(v) && v.stage.BeforeArm? && !v.dev.queued && IsReadInto(trb, v.address, len)
    requires dev.slot == v.dev.slot && !dev.queued && dev.ready == v.dev.ready
    ensures Sound(v.(port := Issued(v.port, v.ring, trb, len), dev := dev, ring := Producers.Issue(v.ring, trb),
                     stage := BeforeRing))
  {
    Producers.IssueKeeps(v.ring, v.port.issued, v.port.producerLap, trb);
    var port, ring := Issued(v.port, v.ring, trb, len), Producers.Issue(v.ring, trb);
    assert Line(port, ring) == Producers.Step(Line(v.port, v.ring), Producers.Put(trb));
    assert LineInv(port, ring, v.address);
  }

  lemma NotArmedKeeps(v: View)
    requires Sound(v) && v.stage.BeforeArm?
    ensures Sound(v.(stage := Away))
  {
  }

  lemma RingKeeps(v: View)
    requires Sound(v) && v.stage.BeforeRing?
    ensures Sound(v.(dev := v.dev.(queued := true), stage := Away, rung := v.rung + 1))
  {
  }

  // ------------------------------------------------------------------------
  // What each step does to each device's view
  // ------------------------------------------------------------------------

  lemma LookViews(w: World, d: nat, e: nat)
    requires Shape(w) && Allowed(w, Look(d)) && e < w.driver.count
    ensures ViewOf(Step(w, Look(d)), e) ==
            if e == d then ViewOf(w, e).(port := Looked(w.ports[d], RingOf(w.driver, d), BufferOf(w.memory, d)))
            else ViewOf(w, e)
  {
  }

  lemma WriteViews(w: World, d: nat, value: byte, e: nat)
    requires Shape(w) && Allowed(w, Write(d, value)) && e < w.driver.count
    requires w.ports[d].held.value.parameter == Address(w.driver, d) && |w.ports[d].received| < BUFFER_LEN
    ensures ViewOf(Step(w, Write(d, value)), e) ==
            if e == d then
              ViewOf(w, e).(port := w.ports[d].(received := w.ports[d].received + [value]),
                            buffer := BufferOf(w.memory, d)[|w.ports[d].received| := value])
            else ViewOf(w, e)
  {
    StoredInBuffer(w.memory, w.driver.bufferBase, d, |w.ports[d].received|, value, e);
  }

  lemma FinishViews(w: World, d: nat, code: byte, e: nat)
    requires Shape(w) && Allowed(w, Finish(d, code)) && e < w.driver.count && w.read <= |w.posted|
    requires Interrupts(w.ports[d].held.value)
    ensures var trb := CompletionTrb(w.driver.devices[d].slot, code);
            ViewOf(Step(w, Finish(d, code)), e) ==
            ViewOf(w, e).(port := if e == d then Finished(w.ports[d], code) else w.ports[e],
                          unread := Unread(w) + [trb])
  {
  }

  lemma AnnounceViews(w: World, trb: Trb, e: nat)
    requires Shape(w) && Allowed(w, Announce(trb)) && e < w.driver.count && w.read <= |w.posted|
    ensures ViewOf(Step(w, Announce(trb)), e) == ViewOf(w, e).(unread := Unread(w) + [trb])
  {
  }

  lemma AskViews(w: World, d: nat, len: nat, e: nat)
    requires Shape(w) && Allowed(w, Ask(d, len)) && e < w.driver.count
    ensures ViewOf(Step(w, Ask(d, len)), e) == ViewOf(w, e)
  {
  }

  lemma DrainViews(w: World, e: nat)
    requires Shape(w) && DistinctSlots(w.driver.devices, w.driver.count) && w.phase.Draining? && e < w.driver.count
    requires w.read < |w.posted| && NextEvent(w.trbs, w.driver.reader).1 == Some(EventOf(w.posted[w.read]))
    ensures ViewOf(DriverStep(w), e) ==
            if w.phase.left == 0 then ViewOf(w, e)
            else ViewOf(w, e).(dev := Routed(w.driver.devices[e], EventOf(Unread(w)[0])), unread := Unread(w)[1..])
  {
    RouteIsRouted(w.driver.devices, w.driver.count, EventOf(w.posted[w.read]), e);
  }

  lemma DrainedViews(w: World, e: nat)
    requires Shape(w) && w.phase.Draining? && e < w.driver.count && NextEvent(w.trbs, w.driver.reader).1 == None
    ensures ViewOf(DriverStep(w), e) == ViewOf(w, e)
  {
  }

  lemma DecideViews(w: World, e: nat)
    requires Shape(w) && w.phase.Deciding? && e < w.driver.count
    ensures var v := ViewOf(w, e);
            ViewOf(DriverStep(w), e) ==
            if e != w.phase.device then v
            else if v.dev.ready then v.(dev := v.dev.(ready := false), stage := InCopy([]))
            else v.(stage := BeforeArm)
  {
  }

  lemma CopyViews(w: World, e: nat)
    requires Shape(w) && w.phase.Copying? && e < w.driver.count
    ensures var v, copied := ViewOf(w, e), w.phase.copied;
            ViewOf(DriverStep(w), e) ==
            if e != w.phase.device then v
            else if |copied| < REPORT_MAX then v.(stage := InCopy(copied + [v.buffer[|copied|]]))
            else
              v.(port := v.port.(delivered := v.port.delivered + [Given(copied, w.phase.len)]), stage := BeforeArm)
  {
  }

  lemma ArmViews(w: World, e: nat)
    requires Shape(w) && w.phase.Arming? && e < w.driver.count
    ensures var v, d, len := ViewOf(w, e), w.phase.device, w.phase.len;
            var trb := ReadTrb(w.driver, d, len);
            ViewOf(DriverStep(w), e) ==
            if e != d then v
            else if v.dev.queued then v.(stage := Away)
            else v.(port := Issued(v.port, v.ring, trb, len), dev := Transfer(w.driver, d, trb).devices[d],
                    ring := Producers.Issue(v.ring, trb), stage := BeforeRing)
  {
    TransferIsIssue(w.driver, w.phase.device, ReadTrb(w.driver, w.phase.device, w.phase.len));
  }

  lemma RungAppends(doorbells: seq<Doorbell>, rung: Doorbell, bell: Doorbell)
    ensures Rung(doorbells + [rung], bell) == Rung(doorbells, bell) + if rung == bell then 1 else 0
  {
    assert (doorbells + [rung])[..|doorbells + [rung]| - 1] == doorbells;
  }

  lemma BellsApart(a: DeviceSlot, b: DeviceSlot)
    requires a.slot != b.slot
    ensures Bell(a) != Bell(b)
  {
  }

  lemma RangIs(s: Driver, d: nat, e: nat)
    requires DriverShape(s) && DistinctSlots(s.devices, s.count) && d < s.count && e < s.count
    ensures DriverShape(Rang(s, d)) && RingOf(Rang(s, d), e) == RingOf(s, e)
    ensures Bell(Rang(s, d).devices[e]) == Bell(s.devices[e])
  {
  }

  lemma RangRings(s: Driver, d: nat, e: nat)
    requires DriverShape(s) && DistinctSlots(s.devices, s.count) && d < s.count && e < s.count
    ensures Rung(Rang(s, d).doorbells, Bell(s.devices[e])) ==
            Rung(s.doorbells, Bell(s.devices[e])) + if e == d then 1 else 0
  {
    RungAppends(s.doorbells, Bell(s.devices[d]), Bell(s.devices[e]));
    if e != d { BellsApart(s.devices[d], s.devices[e]); }
  }

  lemma RingViews(w: World, e: nat)
    requires Shape(w) && DistinctSlots(w.driver.devices, w.driver.count) && w.phase.Ringing? && e < w.driver.count
    ensures var v := ViewOf(w, e);
            ViewOf(DriverStep(w), e) ==
            if e == w.phase.device then v.(dev := v.dev.(queued := true), stage := Away, rung := v.rung + 1) else v
  {
    RangIs(w.driver, w.phase.device, e);
    RangRings(w.driver, w.phase.device, e);
  }

  // ------------------------------------------------------------------------
  // Every step keeps every device sound
  // ------------------------------------------------------------------------

  lemma ControllerKeeps(w: World, base: nat, a: Action, e: nat)
    requires EventsInv(w, base) && Allowed(w, a) && !a.Go? && e < w.driver.count && Sound(ViewOf(w, e))
    requires (a.Write? || a.Finish?) ==> Sound(ViewOf(w, a.device))
    ensures Sound(ViewOf(Step(w, a), e))
  {
    match a
    case Ask(d, len) => AskViews(w, d, len, e);
    case Look(d) =>
      LookViews(w, d, e);
      if e == d { LookKeeps(ViewOf(w, e)); }
    case Write(d, value) =>
      WriteKeeps(ViewOf(w, d), value);
      WriteViews(w, d, value, e);
    case Finish(d, code) =>
      FinishKeeps(ViewOf(w, d), code);
      FinishViews(w, d, code, e);
      if e != d {
        CompletionReadsBack(w.driver.devices[d].slot, code);
        OtherEventKeeps(ViewOf(w, e), CompletionTrb(w.driver.devices[d].slot, code));
      }
    case Announce(trb) =>
      AnnounceViews(w, trb, e);
      OtherEventKeeps(ViewOf(w, e), trb);
  }

  lemma DrainKeeps(w: World, base: nat, e: nat)
    requires EventsInv(w, base) && w.phase.Draining? && e < w.driver.count && Sound(ViewOf(w, e))
    ensures Sound(ViewOf(DriverStep(w), e))
  {
    NextEventReads(w.trbs, w.writer, w.posted, w.writerLap, w.driver.reader, w.read, w.readerLap);
    if w.read < |w.posted| {
      DrainViews(w, e);
      RoutedKeeps(ViewOf(w, e));
    } else {
      DrainedViews(w, e);
    }
  }

  lemma DriverKeeps(w: World, base: nat, e: nat)
    requires EventsInv(w, base) && !w.phase.AtRest? && e < w.driver.count && Sound(ViewOf(w, e))
    ensures Sound(ViewOf(DriverStep(w), e))
  {
    var v := ViewOf(w, e);
    match w.phase
    case Draining(_, _, _) => DrainKeeps(w, base, e);
    case Deciding(d, _) =>
      DecideViews(w, e);
      if e == d { ReadyKeeps(v); }
    case Copying(d, len, copied) =>
      CopyViews(w, e);
      if e == d && |copied| < REPORT_MAX { CopyKeeps(v); }
      if e == d && |copied| == REPORT_MAX { DeliverKeeps(v, len); }
    case Arming(d, len) =>
      var trb := ReadTrb(w.driver, d, len);
      ArmViews(w, e);
      ReadTrbReads(w.driver, d, len);
      if e == d && v.dev.queued { NotArmedKeeps(v); }
      if e == d && !v.dev.queued { IssueKeeps(v, Transfer(w.driver, d, trb).devices[d], trb, len); }
    case Ringing(d) =>
      RingViews(w, e);
      if e == d { RingKeeps(v); }
  }

  lemma PostedEvents(w: World, base: nat, trb: Trb)
    requires EventsInv(w, base) && HasRoom(w) && Unmarked(trb)
    ensures EventsInv(Post(w, trb), base)
  {
    PostKeeps(w.trbs, w.writer, w.posted, w.writerLap, trb);
  }

  lemma DrainEvents(w: World, base: nat)
    requires EventsInv(w, base) && w.phase.Draining?
    ensures EventsInv(DriverStep(w), base)
  {
    NextEventReads(w.trbs, w.writer, w.posted, w.writerLap, w.driver.reader, w.read, w.readerLap);
    if w.read < |w.posted| {
      RouteKeepsSlots(w.driver.devices, w.driver.count, EventOf(w.posted[w.read]));
    }
  }

  // A drain step reads the oldest unread event, or ends the drain when none is left or it has read enough.
  lemma DrainReads(w: World, base: nat)
    requires EventsInv(w, base) && w.phase.Draining?
    ensures var w' := DriverStep(w);
            if w.phase.left == 0 || Unread(w) == [] then w'.phase.Deciding? && Unread(w') == Unread(w)
            else w'.phase.Draining? && w'.phase.left == w.phase.left - 1 && Unread(w') == Unread(w)[1..]
  {
    NextEventReads(w.trbs, w.writer, w.posted, w.writerLap, w.driver.reader, w.read, w.readerLap);
    if w.read < |w.posted| {
      assert w.posted[w.read + 1..] == w.posted[w.read..][1..];
    }
  }

  lemma EventsKeep(w: World, base: nat, a: Action)
    requires EventsInv(w, base) && Allowed(w, a)
    ensures EventsInv(Step(w, a), base)
  {
    match a
    case Finish(d, code) =>
      CompletionReadsBack(w.driver.devices[d].slot, code);
      PostedEvents(w.(ports := w.ports[d := Finished(w.ports[d], code)]), base,
                   CompletionTrb(w.driver.devices[d].slot, code));
    case Announce(trb) => PostedEvents(w, base, trb);
    case Go => if w.phase.Draining? { DrainEvents(w, base); }
    case _ =>
  }

  lemma StepKeeps(w: World, base: nat, a: Action)
    requires Inv(w, base) && Allowed(w, a)
    ensures Inv(Step(w, a), base)
  {
    EventsKeep(w, base, a);
    forall e: nat | e < w.driver.count ensures Sound(ViewOf(Step(w, a), e)) {
      if a.Go? { DriverKeeps(w, base, e); } else { ControllerKeeps(w, base, a, e); }
    }
  }

  lemma {:induction false} RunKeeps(w: World, base: nat, actions: seq<Action>, t: World)
    requires Inv(w, base) && Reaches(w, actions, t)
    ensures Inv(t, base)
    decreases |actions|
  {
    if actions != [] {
      StepKeeps(w, base, actions[0]);
      RunKeeps(Step(w, actions[0]), base, actions[1..], t);
    }
  }

  // ------------------------------------------------------------------------
  // Whole runs
  // ------------------------------------------------------------------------

  // A device about to be polled, whatever its flags and its ring: nothing asked for, nothing delivered.
  ghost predicate Unpolled(w: World, d: nat)
    requires Shape(w) && d < MAX_DEVICES
  {
    var dev, port := w.driver.devices[d], w.ports[d];
    && !dev.queued && !dev.ready && Rung(w.driver.doorbells, Bell(dev)) == 0
    && port.held == None && port.taken == port.issued && |port.issued| == port.begun
    && port.asked == [] && port.produced == [] && port.delivered == []
  }

  // And its controller where the ring's order wants it.
  ghost predicate InStep(w: World, d: nat)
    requires Shape(w) && d < MAX_DEVICES
  {
    Producers.Inv(Line(w.ports[d], RingOf(w.driver, d)))
  }

  ghost predicate Quiet(w: World, base: nat) {
    EventsInv(w, base) && w.phase.AtRest? && w.read == |w.posted|
  }

  ghost predicate Initial(w: World, base: nat) {
    Quiet(w, base) && forall d: nat :: d < w.driver.count ==> Unpolled(w, d) && InStep(w, d)
  }

  // Two devices on slots of their own, before anything has happened.
  function Fresh(slots: (byte, byte), endpoints: (byte, byte), base: nat, ringBase: u64, bufferBase: u64): World {
    var devices := [DeviceSlot(slots.0, endpoints.0, 1, 0, false, false),
                    DeviceSlot(slots.1, endpoints.1, 1, 0, false, false)];
    var port := (d: nat) =>
      Port(Producers.Consumer(ringBase + d * RING_BYTES, 1), None, [], [], [], 0, [], [], 0, 0, [], []);
    World(Driver(Reader(base, 0, 1, base), devices, 2,
                 seq(MAX_DEVICES * RING_LEN, _ => ZERO_TRB), ringBase, bufferBase, []),
          AtRest, seq(RING_LEN, _ => ZERO_TRB), Writer(0, 1), [], 0, 0, 0,
          seq(MAX_DEVICES * BUFFER_LEN, _ => 0), [port(0), port(1)])
  }

  lemma FreshIsInitial(slots: (byte, byte), endpoints: (byte, byte), base: nat, ringBase: u64, bufferBase: u64)
    requires slots.0 != slots.1 && base % 16 == 0
    requires ringBase + MAX_DEVICES * RING_BYTES < U64_MODULUS && bufferBase + MAX_DEVICES * BUFFER_LEN < U64_MODULUS
    ensures Initial(Fresh(slots, endpoints, base, ringBase, bufferBase), base)
  {
    var w := Fresh(slots, endpoints, base, ringBase, bufferBase);
    assert EventsInv(w, base);
    forall d: nat | d < w.driver.count ensures Unpolled(w, d) && InStep(w, d) {
      assert RingOf(w.driver, d).trbs == seq(RING_LEN, _ => ZERO_TRB);
      Producers.InitialHolds(ringBase + d * RING_BYTES);
      assert Line(w.ports[d], RingOf(w.driver, d)) == Producers.Initial(ringBase + d * RING_BYTES);
    }
  }

  lemma InitialHolds(w: World, base: nat)
    requires Initial(w, base)
    ensures Inv(w, base)
  {
    forall d: nat | d < w.driver.count ensures Sound(ViewOf(w, d)) {
      assert Unpolled(w, d) && InStep(w, d);
    }
  }

  // One block in flight at most, on a ring where the controller finds it; every block polling placed
  // reads into the device's own buffer, as its poll asked.
  ghost predicate BlocksPromised(port: Port, dev: DeviceSlot, ring: Producers.Producer, address: nat) {
    && 0 <= InFlight(port) <= 1 && !(dev.queued && dev.ready) && Producers.IsFifo(Line(port, ring))
    && port.begun <= |port.issued| && |port.asked| == |port.issued| - port.begun
    && (forall k :: port.begun <= k < |port.issued| ==>
          IsReadInto(port.issued[k], address, port.asked[k - port.begun]))
  }

  // What the caller got is, one for one and in order, what the device completed; the latest may be still
  // to come, whole, with nothing in flight that could write over it.
  ghost predicate ReportsPromised(port: Port, buffer: Report) {
    && |buffer| == BUFFER_LEN
    && |port.produced| - 1 <= |port.delivered| <= |port.produced|
    && (forall i :: 0 <= i < |port.delivered| ==> Faithful(port.delivered[i], port.produced[i]))
    && (|port.delivered| < |port.produced| ==>
          InFlight(port) == 0 && Contents(port.produced[|port.delivered|]) == buffer[..REPORT_MAX])
  }

  /** What is promised of a device in one state of the world; at rest, with a doorbell for every block. */
  ghost predicate Reported(t: World, d: nat)
    requires Shape(t) && d < MAX_DEVICES
  {
    var dev, port := t.driver.devices[d], t.ports[d];
    && BlocksPromised(port, dev, RingOf(t.driver, d), Address(t.driver, d))
    && ReportsPromised(port, BufferOf(t.memory, d))
    && (t.phase.AtRest? ==> Rung(t.driver.doorbells, Bell(dev)) == |port.issued| - port.begun)
  }

  lemma SoundBlocks(v: View)
    requires Sound(v)
    ensures BlocksPromised(v.port, v.dev, v.ring, v.address)
  {
    Producers.SoundIsFifo(Line(v.port, v.ring));
  }

  lemma SoundReports(v: View)
    requires Sound(v)
    ensures ReportsPromised(v.port, v.buffer)
  {
  }

  lemma SoundIsReported(t: World, base: nat, d: nat)
    requires Inv(t, base) && d < t.driver.count
    ensures Reported(t, d)
  {
    SoundBlocks(ViewOf(t, d));
    SoundReports(ViewOf(t, d));
  }

  /**
   No report is lost, duplicated or overwritten, over every run from rings in step, with the controller
   acting between any two of the driver's steps.
   */
  lemma NoReportLost(w: World, base: nat, actions: seq<Action>, t: World, d: nat)
    requires Initial(w, base) && Reaches(w, actions, t)
    ensures Shape(t) && (d < t.driver.count ==> Reported(t, d))
  {
    InitialHolds(w, base);
    RunKeeps(w, base, actions, t);
    if d < t.driver.count {
      SoundIsReported(t, base, d);
    }
  }

  // In a sound state two devices hold blocks into two buffers, and the one being copied has none in flight.
  lemma WriteMissesCopy(w: World, base: nat, e: nat, value: byte)
    requires Inv(w, base) && w.phase.Copying? && Allowed(w, Write(e, value))
    ensures e != w.phase.device
    ensures BufferOf(Step(w, Write(e, value)).memory, w.phase.device) == BufferOf(w.memory, w.phase.device)
  {
    var d := w.phase.device;
    assert Sound(ViewOf(w, d));
    WriteKeeps(ViewOf(w, e), value);
    WriteViews(w, e, value, d);
  }

  /** While the driver copies a report, no store the controller may make touches the buffer it copies. */
  lemma CopyIsUndisturbed(w: World, base: nat, actions: seq<Action>, t: World, e: nat, value: byte)
    requires Initial(w, base) && Reaches(w, actions, t)
    ensures Shape(t)
    ensures t.phase.Copying? && Allowed(t, Write(e, value)) ==>
              BufferOf(Step(t, Write(e, value)).memory, t.phase.device) == BufferOf(t.memory, t.phase.device)
  {
    InitialHolds(w, base);
    RunKeeps(w, base, actions, t);
    if t.phase.Copying? && Allowed(t, Write(e, value)) {
      WriteMissesCopy(t, base, e, value);
    }
  }
}
