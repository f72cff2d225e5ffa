/**
 Report polling on values: what arming, draining and delivering do to the driver's state, and how the
 events of two devices on one event ring are told apart.
 */
module XhciPolling {
  import opened Common
  import opened Words
  import opened XhciTrb
  import opened XhciEventRing
  import Producers = XhciProducerRing

  const MAX_DEVICES: nat := 2
  // The most of a report that is ever copied out.
  const REPORT_MAX: nat := 64
  const BUFFER_LEN: nat := 256
  const RING_BYTES: nat := RING_LEN * TRB_SIZE

  datatype DeviceSlot = DeviceSlot(slot: byte, endpoint: byte, cycle: bit, index: nat, queued: bool, ready: bool)

  datatype Doorbell = Doorbell(slot: byte, target: nat)

  /** The driver: its reading position, its devices, their transfer rings end to end, and every doorbell rung. */
  datatype Driver = Driver(
    reader: Reader, devices: seq<DeviceSlot>, count: nat,
    rings: seq<Trb>, ringBase: u64, bufferBase: u64, doorbells: seq<Doorbell>)

  predicate DriverShape(s: Driver) {
    && |s.devices| == MAX_DEVICES && s.count <= MAX_DEVICES
    && |s.rings| == MAX_DEVICES * RING_LEN && s.reader.index < RING_LEN
    && (forall i :: 0 <= i < MAX_DEVICES ==> s.devices[i].index <= Producers.LAP)
    && s.ringBase + MAX_DEVICES * RING_BYTES < U64_MODULUS
    && s.bufferBase + MAX_DEVICES * BUFFER_LEN < U64_MODULUS
  }

  // One device's stretch of the transfer rings, as the producer it is.
  function RingOf(s: Driver, d: nat): Producers.Producer
    requires DriverShape(s) && d < MAX_DEVICES
  {
    Producers.Producer(s.rings[d * RING_LEN..d * RING_LEN + RING_LEN], s.ringBase + d * RING_BYTES,
                       s.devices[d].index, s.devices[d].cycle)
  }

  function Transfer(s: Driver, d: nat, trb: Trb): (t: Driver)
    requires DriverShape(s) && d < MAX_DEVICES
    ensures DriverShape(t)
  {
    var first, dev := d * RING_LEN, s.devices[d];
    var wraps := dev.index >= RING_LEN - 1;
    var link := Producers.LinkTrb(s.ringBase + d * RING_BYTES, dev.cycle);
    var rings := if wraps then s.rings[first + Producers.LAP := link]
                 else s.rings;
    var index := if wraps then 0 else dev.index;
    var cycle := if wraps then 1 - dev.cycle else dev.cycle;
    s.(rings := rings[first + index := Marked(trb, cycle)],
       devices := s.devices[d := dev.(index := index + 1, cycle := cycle)])
  }

  function ReadTrb(s: Driver, d: nat, len: nat): Trb
    requires DriverShape(s) && d < MAX_DEVICES
  {
    Trb(s.bufferBase + d * BUFFER_LEN, Min(len, REPORT_MAX), TRB_NORMAL * 1024 + TRB_IOC)
  }

  function Bell(dev: DeviceSlot): Doorbell {
    Doorbell(dev.slot, dev.endpoint % 16 * 2 + 1)
  }

  function Arm(s: Driver, d: nat, len: nat): (t: Driver)
    requires DriverShape(s) && d < MAX_DEVICES
    ensures DriverShape(t)
  {
    if s.devices[d].queued then s
    else
      var u := Transfer(s, d, ReadTrb(s, d, len));
      var dev := u.devices[d];
      u.(doorbells := u.doorbells + [Bell(dev)],
         devices := u.devices[d := dev.(queued := true)])
  }

  /**
   Arming an idle device asks for a report of the length wanted, at most 64 bytes, into that device's own
   256 bytes of buffer, completing with an event; and it rings once, at that device, for the inbound half
   of its endpoint: half the target is the endpoint's number, and the odd half is the inbound one.
   */
  lemma ArmAsksInbound(s: Driver, d: nat, len: nat)
    requires DriverShape(s) && d < MAX_DEVICES
    ensures s.devices[d].queued ==> Arm(s, d, len) == s
    ensures !s.devices[d].queued ==>
              var t, n := Arm(s, d, len), |s.doorbells|;
              && |t.doorbells| == n + 1 && t.doorbells[..n] == s.doorbells && t.devices[d].queued
              && t.doorbells[n].slot == s.devices[d].slot
              && t.doorbells[n].target % 2 == 1 && t.doorbells[n].target / 2 == s.devices[d].endpoint % 16
    ensures var asked := ReadTrb(s, d, len);
            && asked.parameter == s.bufferBase + d * 256
            && asked.status == (if len <= 64 then len else 64)
            && asked.control / 1024 == 1 && asked.control % 1024 == 32
  {
  }

  // The lowest-numbered live device on `slot`, if any.
  function DeviceOfSlot(devices: seq<DeviceSlot>, count: nat, slot: nat): (r: Option<nat>)
    requires count <= |devices|
    ensures r.Some? ==> r.value < count && devices[r.value].slot == slot
    ensures r.Some? ==> forall i :: 0 <= i < r.value ==> devices[i].slot != slot
    ensures r.None? ==> forall i :: 0 <= i < count ==> devices[i].slot != slot
  {
    FirstFrom(devices, count, slot, 0)
  }

  function FirstFrom(devices: seq<DeviceSlot>, count: nat, slot: nat, from: nat): (r: Option<nat>)
    requires from <= count <= |devices|
    ensures r.Some? ==> from <= r.value < count && devices[r.value].slot == slot
    ensures r.Some? ==> forall i :: from <= i < r.value ==> devices[i].slot != slot
    ensures r.None? ==> forall i :: from <= i < count ==> devices[i].slot != slot
    decreases count - from
  {
    if from == count then None
    else if devices[from].slot == slot then Some(from)
    else FirstFrom(devices, count, slot, from + 1)
  }

  predicate Succeeded(event: Event) {
    event.completion == CC_SUCCESS || event.completion == CC_SHORT_PACKET
  }

  // What one drained event does to the device it belongs to.
  function Route(devices: seq<DeviceSlot>, count: nat, event: Event): (r: seq<DeviceSlot>)
    requires count <= |devices|
    ensures |r| == |devices|
  {
    if event.kind != TRB_TRANSFER_EVENT then devices
    else match DeviceOfSlot(devices, count, event.slot)
      case None => devices
      case Some(d) =>
        devices[d := devices[d].(queued := false, ready := devices[d].ready || Succeeded(event))]
  }

  function Drain(trbs: seq<Trb>, s: Driver, limit: nat): (t: Driver)
    requires |trbs| == RING_LEN && DriverShape(s)
    ensures DriverShape(t)
    decreases limit
  {
    if limit == 0 then s
    else
      var (reader, event) := NextEvent(trbs, s.reader);
      if event == None then s
      else Drain(trbs, s.(reader := reader, devices := Route(s.devices, s.count, event.value)), limit - 1)
  }

  lemma DrainUnfolds(trbs: seq<Trb>, s: Driver, limit: nat)
    requires |trbs| == RING_LEN && DriverShape(s) && limit > 0
    ensures var (reader, event) := NextEvent(trbs, s.reader);
            Drain(trbs, s, limit) ==
            if event == None then s
            else Drain(trbs, s.(reader := reader, devices := Route(s.devices, s.count, event.value)), limit - 1)
  {
  }

  /** `poll_report`: the new state, and how many bytes were copied out if a report was delivered. */
  function PollReport(trbs: seq<Trb>, s: Driver, d: nat, len: nat): (Driver, Option<nat>)
    requires |trbs| == RING_LEN && DriverShape(s)
  {
    if d >= s.count then (s, None)
    else
      var t := Drain(trbs, s, RING_LEN);
      if d >= t.count then (t, None)
      else if !t.devices[d].ready then (Arm(t, d, len), None)
      else (Arm(t.(devices := t.devices[d := t.devices[d].(ready := false)]), d, len), Some(Min(len, REPORT_MAX)))
  }

  // ------------------------------------------------------------------------
  // Each device's ring is one producer ring
  // ------------------------------------------------------------------------

  /** Queuing a transfer is one `Issue` on that device's ring and touches no other device's. */
  lemma TransferIsIssue(s: Driver, d: nat, trb: Trb)
    requires DriverShape(s) && d < MAX_DEVICES
    ensures RingOf(Transfer(s, d, trb), d) == Producers.Issue(RingOf(s, d), trb)
    ensures forall e: nat :: e < MAX_DEVICES && e != d ==> RingOf(Transfer(s, d, trb), e) == RingOf(s, e)
  {
    var t := Transfer(s, d, trb);
    assert RingOf(t, d).trbs == Producers.Issue(RingOf(s, d), trb).trbs;
    forall e: nat | e < MAX_DEVICES && e != d ensures RingOf(t, e) == RingOf(s, e) {
      assert t.rings[e * RING_LEN..e * RING_LEN + RING_LEN] == s.rings[e * RING_LEN..e * RING_LEN + RING_LEN];
    }
  }

  // ------------------------------------------------------------------------
  // Draining
  // ------------------------------------------------------------------------

  function RouteAll(devices: seq<DeviceSlot>, count: nat, trbs: seq<Trb>): (r: seq<DeviceSlot>)
    requires count <= |devices|
    ensures |r| == |devices|
    decreases |trbs|
  {
    if trbs == [] then devices
    else RouteAll(Route(devices, count, EventOf(trbs[0])), count, trbs[1..])
  }

  predicate IsFor(event: Event, slot: nat) {
    event.kind == TRB_TRANSFER_EVENT && event.slot == slot
  }

  // How many transfer events in `trbs` are about `slot`.
  function Pending(trbs: seq<Trb>, slot: nat): nat {
    if trbs == [] then 0 else (if IsFor(EventOf(trbs[0]), slot) then 1 else 0) + Pending(trbs[1..], slot)
  }

  // How many of those say a report arrived.
  function Arrived(trbs: seq<Trb>, slot: nat): nat {
    if trbs == [] then 0
    else (if IsFor(EventOf(trbs[0]), slot) && Succeeded(EventOf(trbs[0])) then 1 else 0) + Arrived(trbs[1..], slot)
  }

  ghost predicate DistinctSlots(devices: seq<DeviceSlot>, count: nat) {
    count <= |devices| && forall i, j :: 0 <= i < j < count ==> devices[i].slot != devices[j].slot
  }

  /** Each event reaches exactly the device on its slot, whatever the other device's events are. */
  lemma {:induction false} RouteAllPerDevice(devices: seq<DeviceSlot>, count: nat, trbs: seq<Trb>, d: nat)
    requires DistinctSlots(devices, count) && d < |devices|
    ensures DistinctSlots(RouteAll(devices, count, trbs), count)
    ensures RouteAll(devices, count, trbs)[d] ==
            if d < count then
              devices[d].(queued := devices[d].queued && Pending(trbs, devices[d].slot) == 0,
                          ready := devices[d].ready || Arrived(trbs, devices[d].slot) > 0)
            else devices[d]
    decreases |trbs|
  {
    if trbs != [] {
      RouteAllPerDevice(Route(devices, count, EventOf(trbs[0])), count, trbs[1..], d);
    }
  }

  lemma RouteAllUnfolds(devices: seq<DeviceSlot>, count: nat, posted: seq<Trb>, read: nat)
    requires count <= |devices| && read < |posted|
    ensures RouteAll(devices, count, posted[read..]) ==
            RouteAll(Route(devices, count, EventOf(posted[read])), count, posted[read + 1..])
  {
    assert posted[read..][1..] == posted[read + 1..];
  }

  // One turn of the drain, given the event it reads.
  lemma DrainTurn(trbs: seq<Trb>, s: Driver, reader: Reader, posted: seq<Trb>, read: nat, limit: nat)
    requires |trbs| == RING_LEN && DriverShape(s) && limit > 0 && read < |posted| && reader.index < RING_LEN
    requires NextEvent(trbs, s.reader) == (reader, Some(EventOf(posted[read])))
    ensures var next := s.(reader := reader, devices := Route(s.devices, s.count, EventOf(posted[read])));
            && DriverShape(next) && Drain(trbs, s, limit) == Drain(trbs, next, limit - 1)
            && RouteAll(next.devices, s.count, posted[read + 1..]) == RouteAll(s.devices, s.count, posted[read..])
  {
    DrainUnfolds(trbs, s, limit);
    RouteAllUnfolds(s.devices, s.count, posted, read);
  }

  /** Draining reads every unread event, exactly once and in order. */
  lemma {:induction false} DrainReadsAll(
      trbs: seq<Trb>, w: Writer, posted: seq<Trb>, writerLap: nat, s: Driver, read: nat, lap: nat, limit: nat)
    returns (lap': nat)
    requires WriterInv(trbs, w, posted, writerLap) && DriverShape(s) && ReaderInv(s.reader, read, lap)
    requires read <= |posted| <= read + limit && limit <= RING_LEN && s.reader.base % 16 == 0
    ensures var t := Drain(trbs, s, limit);
            && ReaderInv(t.reader, |posted|, lap') && t.reader.base == s.reader.base
            && t == s.(reader := t.reader, devices := RouteAll(s.devices, s.count, posted[read..]))
    decreases limit
  {
    lap' := lap;
    NextEventReads(trbs, w, posted, writerLap, s.reader, read, lap);
    if read == |posted| {
      assert posted[read..] == [];
      assert Drain(trbs, s, limit) == s;
    } else {
      var reader := NextEvent(trbs, s.reader).0;
      DrainTurn(trbs, s, reader, posted, read, limit);
      var next := s.(reader := reader, devices := Route(s.devices, s.count, EventOf(posted[read])));
      lap' := DrainReadsAll(trbs, w, posted, writerLap, next, read + 1,
                            if s.reader.index + 1 >= RING_LEN then lap + 1 else lap, limit - 1);
    }
  }
}
