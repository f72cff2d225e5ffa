/** The driver itself: rings written in place, and each method proved to be the step the protocol proofs use. */
module XhciDriver {
  import opened Common
  import opened Words
  import opened XhciTrb
  import opened XhciEventRing
  import opened XhciPolling
  import Producers = XhciProducerRing

  class Xhci {
    const commandRing: array<Trb>
    const eventRing: array<Trb>
    const transferRings: array<Trb>
    const buffers: array<byte>
    const devices: array<DeviceSlot>
    const commandBase: u64
    const eventBase: u64
    const transferBase: u64
    const bufferBase: u64

    var commandIndex: nat
    var commandCycle: bit
    var eventIndex: nat
    var eventCycle: bit
    var erdp: nat
    var deviceCount: nat
    var doorbells: seq<Doorbell>

    ghost predicate Valid()
      reads this, commandRing, eventRing, transferRings, devices
    {
      && commandRing.Length == RING_LEN && eventRing.Length == RING_LEN
      && transferRings.Length == MAX_DEVICES * RING_LEN
      && buffers.Length == MAX_DEVICES * BUFFER_LEN && devices.Length == MAX_DEVICES
      && commandRing != eventRing && commandRing != transferRings && eventRing != transferRings
      && commandIndex <= Producers.LAP
      && DriverShape(State())
    }

    // The shared command ring, as the producer it is.
    ghost function CommandRing(): Producers.Producer
      reads this, commandRing
    {
      Producers.Producer(commandRing[..], commandBase, commandIndex, commandCycle)
    }

    // Everything polling can read or change.
    ghost function State(): Driver
      reads this, transferRings, devices
    {
      Driver(Reader(eventBase, eventIndex, eventCycle, erdp), devices[..], deviceCount,
             transferRings[..], transferBase, bufferBase, doorbells)
    }

    method RingDoorbell(slot: byte, target: nat)
      modifies this`doorbells
      ensures doorbells == old(doorbells) + [Doorbell(slot, target)]
    {
      doorbells := doorbells + [Doorbell(slot, target)];
    }

    method WrapCommandRing()
      requires Valid()
      modifies this`commandIndex, this`commandCycle, commandRing
      ensures Valid() && State() == old(State())
      ensures CommandRing() == Producers.Wrapped(old(CommandRing()))
    {
      commandRing[RING_LEN - 1] := Trb(commandBase, 0, OrBit0(TRB_LINK * 1024 + TRB_TOGGLE, commandCycle));
      commandIndex := 0;
      commandCycle := 1 - commandCycle;
    }

    /** The producing half of a command: place the block, then tell the controller. */
    method PlaceCommand(parameter: u64, status: u32, control: u32)
      requires Valid()
      modifies this`commandIndex, this`commandCycle, this`doorbells, commandRing
      ensures Valid()
      ensures CommandRing() == Producers.Issue(old(CommandRing()), Trb(parameter, status, control))
      ensures State() == old(State()).(doorbells := old(doorbells) + [Doorbell(0, 0)])
    {
      if commandIndex >= RING_LEN - 1 {
        WrapCommandRing();
      }
      commandRing[commandIndex] := Trb(parameter, status, OrBit0(control, commandCycle));
      commandIndex := commandIndex + 1;
      RingDoorbell(0, 0);
    }

    method TakeEvent() returns (event: Option<Event>)
      requires Valid()
      modifies this`eventIndex, this`eventCycle, this`erdp
      ensures Valid() && CommandRing() == old(CommandRing())
      ensures var (reader, got) := NextEvent(eventRing[..], old(State()).reader);
              event == got && State() == old(State()).(reader := reader)
    {
      var trb := eventRing[eventIndex];
      if trb.control % 2 != eventCycle {
        return None;
      }
      event := Some(Event(trb.control / 1024 % 64, trb.status / 0x100_0000 % 256, trb.parameter,
                          trb.control / 0x100_0000 % 256));
      eventIndex := eventIndex + 1;
      if eventIndex >= RING_LEN {
        eventIndex := 0;
        eventCycle := 1 - eventCycle;
      }
      erdp := OrBit3(eventBase + eventIndex * TRB_SIZE);
    }

    method QueueTransfer(device: nat, parameter: u64, status: u32, control: u32)
      requires Valid() && device < MAX_DEVICES
      modifies transferRings, devices
      ensures Valid() && CommandRing() == old(CommandRing())
      ensures State() == Transfer(old(State()), device, Trb(parameter, status, control))
    {
      var base := transferBase + device * RING_BYTES;
      var first := device * RING_LEN;
      if devices[device].index >= RING_LEN - 1 {
        transferRings[first + RING_LEN - 1] :=
          Trb(base, 0, OrBit0(TRB_LINK * 1024 + TRB_TOGGLE, devices[device].cycle));
        devices[device] := devices[device].(index := 0, cycle := 1 - devices[device].cycle);
      }
      var dev := devices[device];
      transferRings[first + dev.index] := Trb(parameter, status, OrBit0(control, dev.cycle));
      devices[device] := dev.(index := dev.index + 1);
    }

    method ArmDevice(device: nat, len: nat)
      requires Valid() && device < MAX_DEVICES
      modifies this`doorbells, transferRings, devices
      ensures Valid() && State() == Arm(old(State()), device, len)
    {
      if devices[device].queued {
        return;
      }
      QueueTransfer(device, bufferBase + device * BUFFER_LEN, if len < REPORT_MAX then len else REPORT_MAX,
                    TRB_NORMAL * 1024 + TRB_IOC);
      var target := devices[device].endpoint % 16 * 2 + 1;
      RingDoorbell(devices[device].slot, target);
      devices[device] := devices[device].(queued := true);
    }

    method FindDevice(slot: nat) returns (device: Option<nat>)
      requires Valid()
      ensures device == DeviceOfSlot(devices[..], deviceCount, slot)
    {
      for i := 0 to deviceCount
        invariant FirstFrom(devices[..], deviceCount, slot, 0) == FirstFrom(devices[..], deviceCount, slot, i)
      {
        if devices[i].slot == slot {
          return Some(i);
        }
      }
      return None;
    }

    // The body of the drain loop: the completion goes to the device on its slot, and to no other.
    method RouteEvent(event: Event)
      requires Valid()
      modifies devices
      ensures Valid() && State() == old(State()).(devices := Route(old(devices[..]), deviceCount, event))
    {
      if event.kind != TRB_TRANSFER_EVENT {
        return;
      }
      var found := FindDevice(event.slot);
      if found == None {
        return;
      }
      var d := found.value;
      devices[d] := devices[d].(queued := false);
      if event.completion == CC_SUCCESS || event.completion == CC_SHORT_PACKET {
        devices[d] := devices[d].(ready := true);
      }
    }

    method DrainEvents()
      requires Valid()
      modifies this`eventIndex, this`eventCycle, this`erdp, devices
      ensures Valid() && State() == Drain(eventRing[..], old(State()), RING_LEN)
    {
      ghost var trbs, target := eventRing[..], Drain(eventRing[..], State(), RING_LEN);
      for left := RING_LEN downto 0
        invariant Valid() && eventRing[..] == trbs
        invariant Drain(trbs, State(), left) == target
      {
        ghost var before := State();
        DrainUnfolds(trbs, before, left + 1);
        var event := TakeEvent();
        if event == None {
          return;
        }
        RouteEvent(event.value);
      }
    }

    /** One poll equals `PollReport`, and fills the caller's array from the device's buffer when it delivers. */
    method Poll(device: nat, out: array<byte>) returns (got: Option<nat>)
      requires Valid() && out != buffers
      modifies this`eventIndex, this`eventCycle, this`erdp, this`doorbells, transferRings, devices, out
      ensures Valid() && (State(), got) == PollReport(eventRing[..], old(State()), device, out.Length)
      ensures match got
              case None => out[..] == old(out[..])
              case Some(len) =>
                && len <= out.Length && out[len..] == old(out[len..])
                && out[..len] == buffers[device * BUFFER_LEN..device * BUFFER_LEN + len]
    {
      if device >= deviceCount {
        return None;
      }
      DrainEvents();
      if !devices[device].ready {
        ArmDevice(device, out.Length);
        return None;
      }
      devices[device] := devices[device].(ready := false);
      var len := if out.Length < REPORT_MAX then out.Length else REPORT_MAX;
      CopyReport(device, out, len);
      ArmDevice(device, out.Length);
      return Some(len);
    }

    // The beginning of one device's buffer, and the rest of the caller's array left alone.
    method CopyReport(device: nat, out: array<byte>, len: nat)
      requires buffers.Length == MAX_DEVICES * BUFFER_LEN && out != buffers
      requires device < MAX_DEVICES && len <= out.Length && len <= REPORT_MAX
      modifies out
      ensures out[..len] == buffers[device * BUFFER_LEN..device * BUFFER_LEN + len]
      ensures out[len..] == old(out[len..])
    {
      for i := 0 to len
        invariant out[..i] == buffers[device * BUFFER_LEN..device * BUFFER_LEN + i]
        invariant out[len..] == old(out[len..])
      {
        out[i] := buffers[device * BUFFER_LEN + i];
      }
    }
  }
}
