/**
 PCI configuration space as a pure lookup, what the walk over it should find, and proof that a
 depth-first walk finds exactly that, however the bridges are wired.
 */
module PciTopology {
  import opened Common
  import opened Words

  const BUSES: nat := 256
  const SLOTS: nat := 32
  const ABSENT: u32 := 0xFFFF_FFFF
  const HEADER_TYPE_BRIDGE: nat := 1

  // The register at (bus, slot, function, offset).
  type Config = (nat, nat, nat, nat) -> u32

  datatype Device = Device(
    bus: nat, slot: nat, function_: nat, vendor: nat, device: nat,
    class_: nat, subclass: nat, progIf: nat, headerType: nat, bar0: nat)

  function Bar0(cfg: Config, bus: nat, slot: nat, f: nat): nat {
    var low := cfg(bus, slot, f, 0x10);
    if low % 2 != 0 then 0
    else if low / 2 % 4 == 2 then low - low % 16 + cfg(bus, slot, f, 0x14) * 0x1_0000_0000
    else low - low % 16
  }

  function Probe(cfg: Config, bus: nat, slot: nat, f: nat): (r: Option<Device>)
    ensures r.Some? <==> cfg(bus, slot, f, 0) != ABSENT
    ensures r.Some? ==> r.value.bus == bus && r.value.slot == slot && r.value.function_ == f
  {
    var id := cfg(bus, slot, f, 0x00);
    if id == ABSENT then None
    else
      var classes := cfg(bus, slot, f, 0x08);
      Some(Device(bus, slot, f, id % 0x1_0000, id / 0x1_0000, classes / 0x100_0000, classes / 0x1_0000 % 0x100,
                  classes / 0x100 % 0x100, cfg(bus, slot, f, 0x0C) / 0x1_0000 % 0x80, Bar0(cfg, bus, slot, f)))
  }

  // Function 0 answers, so there is something in the slot.
  predicate Occupied(cfg: Config, bus: nat, slot: nat) {
    cfg(bus, slot, 0, 0x00) != ABSENT
  }

  predicate Multifunction(cfg: Config, bus: nat, slot: nat) {
    cfg(bus, slot, 0, 0x0C) / 0x80_0000 % 2 == 1
  }

  // How many functions of a slot are looked at: none if function 0 is absent, eight if it says so.
  function Functions(cfg: Config, bus: nat, slot: nat): nat {
    if !Occupied(cfg, bus, slot) then 0 else if Multifunction(cfg, bus, slot) then 8 else 1
  }

  function Secondary(cfg: Config, d: Device): (bus: nat)
    ensures bus < BUSES
  {
    cfg(d.bus, d.slot, d.function_, 0x18) / 0x100 % 0x100
  }

  function FunctionsFrom(cfg: Config, bus: nat, slot: nat, f: nat): seq<Device>
    decreases Functions(cfg, bus, slot) - f
  {
    if f >= Functions(cfg, bus, slot) then []
    else (match Probe(cfg, bus, slot, f) case None => [] case Some(d) => [d]) + FunctionsFrom(cfg, bus, slot, f + 1)
  }

  function SlotsFrom(cfg: Config, bus: nat, slot: nat): seq<Device>
    decreases SLOTS - slot
  {
    if slot >= SLOTS then [] else FunctionsFrom(cfg, bus, slot, 0) + SlotsFrom(cfg, bus, slot + 1)
  }

  // Everything present on one bus, in the order it is looked at.
  function DevicesOn(cfg: Config, bus: nat): seq<Device> {
    SlotsFrom(cfg, bus, 0)
  }

  // ------------------------------------------------------------------------
  // What is there to be found
  // ------------------------------------------------------------------------

  ghost predicate Present(cfg: Config, d: Device) {
    && d.slot < SLOTS && d.function_ < Functions(cfg, d.bus, d.slot)
    && Probe(cfg, d.bus, d.slot, d.function_) == Some(d)
  }

  ghost predicate IsBridgeTo(cfg: Config, d: Device, from: nat, to: nat) {
    d.bus == from && Present(cfg, d) && d.headerType == HEADER_TYPE_BRIDGE && Secondary(cfg, d) == to
  }

  ghost predicate Edge(cfg: Config, from: nat, to: nat) {
    exists d :: IsBridgeTo(cfg, d, from, to)
  }

  ghost predicate Path(cfg: Config, from: nat, path: seq<nat>, to: nat)
    decreases |path|
  {
    if path == [] then from == to else Edge(cfg, from, path[0]) && Path(cfg, path[0], path[1..], to)
  }

  ghost predicate Reachable(cfg: Config, bus: nat) {
    exists path :: Path(cfg, 0, path, bus)
  }

  // ------------------------------------------------------------------------
  // The walk, as a function
  // ------------------------------------------------------------------------

  predicate IsBus(b: nat) {
    b < BUSES
  }

  function AllBuses(): set<nat> {
    set b: nat | b < BUSES && IsBus(b)
  }

  // The bus a device leads the walk into, when it does.
  predicate Descends(cfg: Config, d: Device) {
    d.headerType == HEADER_TYPE_BRIDGE && Secondary(cfg, d) != 0 && Secondary(cfg, d) != d.bus
  }

  datatype Walk = Walk(visited: set<nat>, found: seq<Device>)

  function Visit(cfg: Config, bus: nat, visited: set<nat>): (w: Walk)
    requires bus < BUSES && visited <= AllBuses()
    ensures visited <= w.visited <= AllBuses() && bus in w.visited
    decreases AllBuses() - visited, 1, 0
  {
    if bus in visited then Walk(visited, [])
    else
      assert AllBuses() - (visited + {bus}) < AllBuses() - visited by {
        assert bus in AllBuses() - visited;
      }
      VisitAll(cfg, DevicesOn(cfg, bus), visited + {bus})
  }

  function VisitAll(cfg: Config, devices: seq<Device>, visited: set<nat>): (w: Walk)
    requires visited <= AllBuses()
    ensures visited <= w.visited <= AllBuses()
    decreases AllBuses() - visited, 2, |devices|
  {
    if devices == [] then Walk(visited, [])
    else
      var d := devices[0];
      var below := if Descends(cfg, d) then Visit(cfg, Secondary(cfg, d), visited) else Walk(visited, []);
      assert below.visited == visited || AllBuses() - below.visited < AllBuses() - visited by {
        if below.visited != visited {
          var b :| b in below.visited && b !in visited;
          assert b in AllBuses() - visited && b !in AllBuses() - below.visited;
        }
      }
      var rest := VisitAll(cfg, devices[1..], below.visited);
      Walk(rest.visited, [d] + below.found + rest.found)
  }

  // What lies behind a device, walked from `visited` on.
  function Below(cfg: Config, d: Device, visited: set<nat>): Walk
    requires visited <= AllBuses()
  {
    if Descends(cfg, d) then Visit(cfg, Secondary(cfg, d), visited) else Walk(visited, [])
  }

  // ------------------------------------------------------------------------
  // What one bus holds
  // ------------------------------------------------------------------------

  predicate Distinct(devices: seq<Device>) {
    forall i, j :: 0 <= i < j < |devices| ==> devices[i] != devices[j]
  }

  lemma {:induction false} FunctionsFromExact(cfg: Config, bus: nat, slot: nat, f: nat, d: Device)
    requires slot < SLOTS
    ensures d in FunctionsFrom(cfg, bus, slot, f) <==>
            Present(cfg, d) && d.bus == bus && d.slot == slot && d.function_ >= f
    decreases 8 - f
  {
    if f < Functions(cfg, bus, slot) {
      FunctionsFromExact(cfg, bus, slot, f + 1, d);
      var tail := FunctionsFrom(cfg, bus, slot, f + 1);
      match Probe(cfg, bus, slot, f) {
        case None => assert FunctionsFrom(cfg, bus, slot, f) == [] + tail == tail;
        case Some(p) => assert FunctionsFrom(cfg, bus, slot, f) == [p] + tail;
      }
    }
  }

  lemma {:induction false} FunctionsFromDistinct(cfg: Config, bus: nat, slot: nat, f: nat)
    requires slot < SLOTS
    ensures Distinct(FunctionsFrom(cfg, bus, slot, f))
    decreases 8 - f
  {
    if f < Functions(cfg, bus, slot) {
      FunctionsFromDistinct(cfg, bus, slot, f + 1);
      var p := Probe(cfg, bus, slot, f);
      if p.Some? { FunctionsFromExact(cfg, bus, slot, f + 1, p.value); }
    }
  }

  // A list split in two: the devices of this slot, and those of the later ones.
  ghost predicate SplitAt(cfg: Config, bus: nat, slot: nat, here: seq<Device>, later: seq<Device>) {
    && Distinct(here) && Distinct(later)
    && (forall d :: d in here <==> Present(cfg, d) && d.bus == bus && d.slot == slot)
    && (forall d :: d in later <==> Present(cfg, d) && d.bus == bus && d.slot >= slot + 1)
  }

  lemma SplitJoins(cfg: Config, bus: nat, slot: nat, here: seq<Device>, later: seq<Device>)
    requires SplitAt(cfg, bus, slot, here, later)
    ensures forall d :: d in here + later <==> Present(cfg, d) && d.bus == bus && d.slot >= slot
    ensures Distinct(here + later)
  {
  }

  lemma FunctionsExact(cfg: Config, bus: nat, slot: nat, from: nat, here: seq<Device>)
    requires slot < SLOTS && from == 0 && here == FunctionsFrom(cfg, bus, slot, from)
    ensures Distinct(here) && forall d :: d in here <==> Present(cfg, d) && d.bus == bus && d.slot == slot
  {
    FunctionsFromDistinct(cfg, bus, slot, from);
    forall d ensures d in here <==> Present(cfg, d) && d.bus == bus && d.slot == slot {
      FunctionsFromExact(cfg, bus, slot, from, d);
    }
  }

  lemma {:induction false} SlotsFromExact(cfg: Config, bus: nat, slot: nat)
    ensures forall d :: d in SlotsFrom(cfg, bus, slot) <==> Present(cfg, d) && d.bus == bus && d.slot >= slot
    ensures Distinct(SlotsFrom(cfg, bus, slot))
    decreases SLOTS - slot
  {
    if slot < SLOTS {
      FunctionsExact(cfg, bus, slot, 0, FunctionsFrom(cfg, bus, slot, 0));
      SlotsFromExact(cfg, bus, slot + 1);
      SplitJoins(cfg, bus, slot, FunctionsFrom(cfg, bus, slot, 0), SlotsFrom(cfg, bus, slot + 1));
    }
  }

  lemma DevicesOnExact(cfg: Config, bus: nat)
    ensures forall d :: d in DevicesOn(cfg, bus) <==> Present(cfg, d) && d.bus == bus
    ensures Distinct(DevicesOn(cfg, bus))
  {
    SlotsFromExact(cfg, bus, 0);
  }

  // ------------------------------------------------------------------------
  // Soundness: only reachable buses
  // ------------------------------------------------------------------------

  lemma {:induction false} PathExtends(cfg: Config, from: nat, path: seq<nat>, via: nat, to: nat)
    requires Path(cfg, from, path, via) && Edge(cfg, via, to)
    ensures Path(cfg, from, path + [to], to)
    decreases |path|
  {
    if path == [] {
      assert Path(cfg, to, [], to);
    } else {
      PathExtends(cfg, path[0], path[1..], via, to);
      assert (path + [to])[1..] == path[1..] + [to];
    }
  }

  lemma ReachableExtends(cfg: Config, d: Device)
    requires Reachable(cfg, d.bus) && Present(cfg, d) && d.headerType == HEADER_TYPE_BRIDGE
    ensures Reachable(cfg, Secondary(cfg, d))
  {
    var path :| Path(cfg, 0, path, d.bus);
    assert IsBridgeTo(cfg, d, d.bus, Secondary(cfg, d));
    PathExtends(cfg, 0, path, d.bus, Secondary(cfg, d));
  }

  ghost predicate AllReachable(cfg: Config, buses: set<nat>) {
    forall b :: b in buses ==> Reachable(cfg, b)
  }

  lemma {:induction false} VisitIsSound(cfg: Config, bus: nat, visited: set<nat>)
    requires bus < BUSES && visited <= AllBuses() && Reachable(cfg, bus) && AllReachable(cfg, visited)
    ensures AllReachable(cfg, Visit(cfg, bus, visited).visited)
    decreases AllBuses() - visited, 1, 0
  {
    if bus !in visited {
      assert bus in AllBuses() - visited;
      DevicesOnExact(cfg, bus);
      VisitAllIsSound(cfg, DevicesOn(cfg, bus), visited + {bus});
    }
  }

  lemma {:induction false} VisitAllIsSound(cfg: Config, devices: seq<Device>, visited: set<nat>)
    requires visited <= AllBuses() && AllReachable(cfg, visited)
    requires forall d :: d in devices ==> Present(cfg, d) && d.bus in visited
    ensures AllReachable(cfg, VisitAll(cfg, devices, visited).visited)
    decreases AllBuses() - visited, 2, |devices|
  {
    if devices != [] {
      var d := devices[0];
      var below := Below(cfg, d, visited);
      if Descends(cfg, d) {
        ReachableExtends(cfg, d);
        VisitIsSound(cfg, Secondary(cfg, d), visited);
      }
      Shrinks(visited, below.visited);
      VisitAllIsSound(cfg, devices[1..], below.visited);
    }
  }

  lemma Shrinks(before: set<nat>, after: set<nat>)
    requires before <= after <= AllBuses()
    ensures before == after || AllBuses() - after < AllBuses() - before
  {
    if before != after {
      var b :| b in after && b !in before;
      assert b in AllBuses() - before && b !in AllBuses() - after;
    }
  }

  // ------------------------------------------------------------------------
  // Completeness: every bus a walked bus declares is walked
  // ------------------------------------------------------------------------

  ghost predicate Followed(cfg: Config, d: Device, visited: set<nat>) {
    d.headerType == HEADER_TYPE_BRIDGE ==> Secondary(cfg, d) in visited
  }

  // Every bridge on a bus walked since `before` leads into `after`.
  ghost predicate Closed(cfg: Config, before: set<nat>, after: set<nat>) {
    forall d: Device :: d.bus in after && d.bus !in before && Present(cfg, d) ==> Followed(cfg, d, after)
  }

  lemma {:induction false} VisitIsComplete(cfg: Config, bus: nat, visited: set<nat>)
    requires bus < BUSES && visited <= AllBuses() && (bus == 0 || 0 in visited)
    ensures Closed(cfg, visited, Visit(cfg, bus, visited).visited)
    decreases AllBuses() - visited, 1, 0
  {
    if bus !in visited {
      assert bus in AllBuses() - visited;
      DevicesOnExact(cfg, bus);
      VisitAllIsComplete(cfg, DevicesOn(cfg, bus), visited + {bus});
    }
  }

  lemma {:induction false} VisitAllIsComplete(cfg: Config, devices: seq<Device>, visited: set<nat>)
    requires visited <= AllBuses() && 0 in visited
    requires forall d :: d in devices ==> d.bus in visited
    ensures var after := VisitAll(cfg, devices, visited).visited;
            Closed(cfg, visited, after) && forall d :: d in devices ==> Followed(cfg, d, after)
    decreases AllBuses() - visited, 2, |devices|
  {
    if devices != [] {
      var d := devices[0];
      var below := Below(cfg, d, visited);
      if Descends(cfg, d) { VisitIsComplete(cfg, Secondary(cfg, d), visited); }
      Shrinks(visited, below.visited);
      VisitAllIsComplete(cfg, devices[1..], below.visited);
    }
  }

  lemma {:induction false} ClosedHoldsPaths(cfg: Config, from: nat, path: seq<nat>, to: nat, buses: set<nat>)
    requires Closed(cfg, {}, buses) && from in buses && Path(cfg, from, path, to)
    ensures to in buses
    decreases |path|
  {
    if path != [] {
      var d :| IsBridgeTo(cfg, d, from, path[0]);
      assert Followed(cfg, d, buses);
      ClosedHoldsPaths(cfg, path[0], path[1..], to, buses);
    }
  }

  // ------------------------------------------------------------------------
  // Each function once
  // ------------------------------------------------------------------------

  // A device is new to a walk if its bus was walked in between.
  ghost predicate NewTo(cfg: Config, d: Device, before: set<nat>, after: set<nat>) {
    Present(cfg, d) && d.bus in after && d.bus !in before
  }

  lemma {:induction false} VisitReportsOnce(cfg: Config, bus: nat, visited: set<nat>, d: Device)
    requires bus < BUSES && visited <= AllBuses()
    ensures var w := Visit(cfg, bus, visited);
            multiset(w.found)[d] == if NewTo(cfg, d, visited, w.visited) then 1 else 0
    decreases AllBuses() - visited, 1, 0
  {
    if bus !in visited {
      assert bus in AllBuses() - visited;
      var devices := DevicesOn(cfg, bus);
      DevicesOnExact(cfg, bus);
      VisitAllReportsOnce(cfg, devices, visited + {bus}, d);
      NewWithBus(cfg, bus, visited, VisitAll(cfg, devices, visited + {bus}).visited, d);
    }
  }

  lemma NewWithBus(cfg: Config, bus: nat, before: set<nat>, after: set<nat>, d: Device)
    requires bus !in before && bus in after
    ensures d in DevicesOn(cfg, bus) || NewTo(cfg, d, before + {bus}, after) <==> NewTo(cfg, d, before, after)
  {
    DevicesOnExact(cfg, bus);
  }

  lemma {:induction false} VisitAllReportsOnce(cfg: Config, devices: seq<Device>, visited: set<nat>, d: Device)
    requires visited <= AllBuses() && Distinct(devices)
    requires forall d :: d in devices ==> Present(cfg, d) && d.bus in visited
    ensures var w := VisitAll(cfg, devices, visited);
            multiset(w.found)[d] == if d in devices || NewTo(cfg, d, visited, w.visited) then 1 else 0
    decreases AllBuses() - visited, 2, |devices|
  {
    if devices != [] {
      var first := devices[0];
      var below := Below(cfg, first, visited);
      if Descends(cfg, first) { VisitReportsOnce(cfg, Secondary(cfg, first), visited, d); }
      Shrinks(visited, below.visited);
      VisitAllReportsOnce(cfg, devices[1..], below.visited, d);
      CountAppended(first, below.found, VisitAll(cfg, devices[1..], below.visited).found, d);
      assert d in devices <==> d == first || d in devices[1..];
    }
  }

  lemma CountAppended(first: Device, a: seq<Device>, b: seq<Device>, d: Device)
    ensures multiset([first] + a + b)[d] == (if d == first then 1 else 0) + multiset(a)[d] + multiset(b)[d]
  {
    assert multiset([first] + a + b) == multiset{first} + multiset(a) + multiset(b);
  }

  /** The whole walk: exactly the buses reachable from bus 0, and each present function on them once. */
  lemma WalkIsExact(cfg: Config)
    ensures var w := Visit(cfg, 0, {});
            && (forall b :: b in w.visited <==> Reachable(cfg, b))
            && (forall d :: multiset(w.found)[d] == if Present(cfg, d) && Reachable(cfg, d.bus) then 1 else 0)
  {
    var w := Visit(cfg, 0, {});
    assert Path(cfg, 0, [], 0);
    VisitIsSound(cfg, 0, {});
    VisitIsComplete(cfg, 0, {});
    forall d ensures multiset(w.found)[d] == if NewTo(cfg, d, {}, w.visited) then 1 else 0 {
      VisitReportsOnce(cfg, 0, {}, d);
    }
    forall b | Reachable(cfg, b) ensures b in w.visited {
      var path :| Path(cfg, 0, path, b);
      ClosedHoldsPaths(cfg, 0, path, b, w.visited);
    }
  }
}
