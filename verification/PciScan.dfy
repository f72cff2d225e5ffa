/**
 The bridge walk as the kernel runs it: a bitmap marked in place, nested loops, recursion into each
 bridge, and a callback that may call a halt.
 */
module PciScan {
  import opened Common
  import opened Words
  import opened PciTopology

  // The callback: shown everything reported so far, the new device last, it says whether to go on.
  type Callback = seq<Device> -> bool

  predicate Accepts(keep: Callback, log: seq<Device>) {
    keep(log)
  }

  datatype Offered = Offered(log: seq<Device>, goOn: bool)

  // Reports `devices` one at a time until the callback declines one.
  function Offer(keep: Callback, log: seq<Device>, devices: seq<Device>): Offered
    decreases |devices|
  {
    if devices == [] then Offered(log, true)
    else
      var next := log + [devices[0]];
      if Accepts(keep, next) then Offer(keep, next, devices[1..]) else Offered(next, false)
  }

  lemma {:induction false} OfferSplits(keep: Callback, log: seq<Device>, a: seq<Device>, b: seq<Device>)
    ensures var first := Offer(keep, log, a);
            Offer(keep, log, a + b) == if first.goOn then Offer(keep, first.log, b) else first
    decreases |a|
  {
    if a == [] {
      assert a + b == b;
    } else {
      assert (a + b)[1..] == a[1..] + b;
      OfferSplits(keep, log + [a[0]], a[1..], b);
    }
  }

  /** What is reported is always a prefix of the full walk, cut just after the first refusal. */
  lemma {:induction false} OfferIsPrefix(keep: Callback, log: seq<Device>, devices: seq<Device>)
    ensures var o := Offer(keep, log, devices);
            && log <= o.log <= log + devices
            && (o.goOn <==> o.log == log + devices && forall n :: |log| < n <= |o.log| ==> keep(o.log[..n]))
            && (forall n :: |log| < n < |o.log| ==> keep(o.log[..n]))
            && (!o.goOn ==> |o.log| > |log| && !keep(o.log))
    decreases |devices|
  {
    if devices != [] {
      var next := log + [devices[0]];
      assert next + devices[1..] == log + devices;
      if keep(next) {
        OfferIsPrefix(keep, next, devices[1..]);
        var o := Offer(keep, log, devices);
        assert o.log[..|next|] == next;
      } else {
        assert next[..|next|] == next;
      }
    }
  }

  // The buses a bitmap marks.
  ghost function BusSet(words: seq<bv32>): (buses: set<nat>)
    requires |words| == 8
    ensures buses <= AllBuses()
  {
    set b: nat | b < BUSES && IsBus(b) && Has(words[b / 32], b % 32)
  }

  lemma SetBusAt(words: seq<bv32>, bus: nat, b: nat)
    requires |words| == 8 && bus < BUSES && b < BUSES
    ensures var words' := words[bus / 32 := words[bus / 32] | Mask(bus % 32)];
            Has(words'[b / 32], b % 32) == (b == bus || Has(words[b / 32], b % 32))
  {
    if b / 32 == bus / 32 {
      SetBit(words[b / 32], bus % 32, b % 32);
      assert b % 32 == bus % 32 <==> b == bus;
    }
  }

  lemma SetBus(words: seq<bv32>, bus: nat)
    requires |words| == 8 && bus < BUSES
    ensures BusSet(words[bus / 32 := words[bus / 32] | Mask(bus % 32)]) == BusSet(words) + {bus}
  {
    var words' := words[bus / 32 := words[bus / 32] | Mask(bus % 32)];
    forall b: nat | b < BUSES && IsBus(b) ensures b in BusSet(words') <==> b == bus || b in BusSet(words) {
      SetBusAt(words, bus, b);
    }
    assert IsBus(bus);
  }

  class Scanner {
    const visited: array<bv32>
    var log: seq<Device>

    constructor ()
      ensures fresh(visited) && Valid() && log == [] && Visited() == {}
    {
      visited := new bv32[8](_ => 0);
      log := [];
      new;
      forall b: nat | b < 32 ensures !Has(0, b) { NoBits(b); }
    }

    ghost predicate Valid() {
      visited.Length == 8
    }

    ghost function Visited(): (buses: set<nat>)
      requires Valid()
      reads visited
      ensures buses <= AllBuses()
    {
      BusSet(visited[..])
    }

    // Marks a bus, and says whether it already was.
    method TestAndMark(bus: nat) returns (seen: bool)
      requires Valid() && bus < BUSES
      modifies visited
      ensures seen <==> bus in old(Visited())
      ensures Visited() == old(Visited()) + {bus}
    {
      var word := bus / 32;
      var bit := Shifted(bus % 32);
      assert IsBus(bus);
      seen := HasMask(visited[word], bit);
      if !seen {
        ghost var words := visited[..];
        SetBus(words, bus);
        visited[word] := visited[word] | bit;
        assert visited[..] == words[bus / 32 := words[bus / 32] | Mask(bus % 32)];
      }
    }

    /** Walks one bus and everything behind its bridges; answers whether the callback let it finish. */
    method ScanBus(cfg: Config, keep: Callback, bus: nat) returns (goOn: bool)
      requires Valid() && bus < BUSES
      modifies this`log, visited
      ensures old(Visited()) <= Visited()
      ensures var w := Visit(cfg, bus, old(Visited()));
              Offered(log, goOn) == Offer(keep, old(log), w.found) && (goOn ==> Visited() == w.visited)
      decreases AllBuses() - Visited(), 0
    {
      ghost var before, start, w := Visited(), log, Visit(cfg, bus, Visited());
      var seen := TestAndMark(bus);
      if seen {
        return true;
      }
      RemainsStarts(cfg, keep, bus, before, start);
      Entered(before, bus, Visited());
      goOn := ScanSlots(cfg, keep, bus, start, w);
    }

    /** The slot loop of one bus that has just been marked. */
    method ScanSlots(cfg: Config, keep: Callback, bus: nat, ghost start: seq<Device>, ghost w: Walk)
      returns (goOn: bool)
      requires Valid() && bus < BUSES
      requires Remains(cfg, keep, SlotsFrom(cfg, bus, 0), Visited(), log, start, w)
      modifies this`log, visited
      ensures old(Visited()) <= Visited()
      ensures Offer(keep, start, w.found) == Offered(log, goOn) && (goOn ==> w.visited == Visited())
      decreases AllBuses() - Visited(), 3
    {
      ghost var before := Visited();
      for slot := 0 to SLOTS
        invariant before <= Visited()
        invariant Remains(cfg, keep, SlotsFrom(cfg, bus, slot), Visited(), log, start, w)
      {
        Shrinks(before, Visited());
        goOn := ScanSlot(cfg, keep, bus, slot, start, w);
        if !goOn {
          return false;
        }
      }
      RemainsEnds(cfg, keep, Visited(), log, start, w);
      return true;
    }

    /** The functions of one slot, in turn, each bridge descended into as it is met. */
    method ScanSlot(cfg: Config, keep: Callback, bus: nat, slot: nat, ghost start: seq<Device>, ghost w: Walk)
      returns (goOn: bool)
      requires Valid() && bus < BUSES && slot < SLOTS
      requires Remains(cfg, keep, SlotsFrom(cfg, bus, slot), Visited(), log, start, w)
      modifies this`log, visited
      ensures old(Visited()) <= Visited()
      ensures goOn ==> Remains(cfg, keep, SlotsFrom(cfg, bus, slot + 1), Visited(), log, start, w)
      ensures !goOn ==> Offer(keep, start, w.found) == Offered(log, false)
      decreases AllBuses() - Visited(), 2
    {
      ghost var later := SlotsFrom(cfg, bus, slot + 1);
      if !Occupied(cfg, bus, slot) {
        assert FunctionsFrom(cfg, bus, slot, 0) + later == later;
        return true;
      }
      var functions := if Multifunction(cfg, bus, slot) then 8 else 1;
      ghost var before := Visited();
      for f := 0 to functions
        invariant before <= Visited()
        invariant Remains(cfg, keep, FunctionsFrom(cfg, bus, slot, f) + later, Visited(), log, start, w)
      {
        Shrinks(before, Visited());
        FunctionsUnfold(cfg, bus, slot, f, later);
        var dev := Probe(cfg, bus, slot, f);
        if dev.Some? {
          var go := ScanDevice(cfg, keep, dev.value, FunctionsFrom(cfg, bus, slot, f + 1) + later, start, w);
          if !go {
            return false;
          }
        }
      }
      assert FunctionsFrom(cfg, bus, slot, functions) + later == later;
      return true;
    }

    /** Reports one device and, if it is a bridge, everything behind it. */
    method ScanDevice(
        cfg: Config, keep: Callback, d: Device, ghost tail: seq<Device>, ghost start: seq<Device>, ghost w: Walk)
      returns (goOn: bool)
      requires Valid() && Remains(cfg, keep, [d] + tail, Visited(), log, start, w)
      modifies this`log, visited
      ensures old(Visited()) <= Visited()
      ensures goOn ==> Remains(cfg, keep, tail, Visited(), log, start, w)
      ensures !goOn ==> Offer(keep, start, w.found) == Offered(log, false)
      decreases AllBuses() - Visited(), 1
    {
      RemainsUnfolds(cfg, keep, d, tail, Visited(), log, start, w);
      log := log + [d];
      if !Accepts(keep, log) {
        return false;
      }
      if d.headerType == HEADER_TYPE_BRIDGE {
        var secondary := Secondary(cfg, d);
        if secondary != 0 && secondary != d.bus {
          goOn := ScanBus(cfg, keep, secondary);
          return;
        }
      }
      return true;
    }
  }

  lemma Entered(before: set<nat>, bus: nat, now: set<nat>)
    requires bus < BUSES && bus !in before && before + {bus} <= now <= AllBuses()
    ensures AllBuses() - now < AllBuses() - before
  {
    assert IsBus(bus);
    assert bus in AllBuses() - before;
  }

  lemma RemainsStarts(cfg: Config, keep: Callback, bus: nat, before: set<nat>, start: seq<Device>)
    requires bus < BUSES && bus !in before && before <= AllBuses()
    ensures before + {bus} <= AllBuses()
    ensures Remains(cfg, keep, SlotsFrom(cfg, bus, 0), before + {bus}, start, start, Visit(cfg, bus, before))
  {
    assert IsBus(bus);
  }

  lemma RemainsEnds(cfg: Config, keep: Callback, visited: set<nat>, log: seq<Device>, start: seq<Device>, w: Walk)
    requires visited <= AllBuses() && Remains(cfg, keep, [], visited, log, start, w)
    ensures Offer(keep, start, w.found) == Offered(log, true) && w.visited == visited
  {
  }

  lemma FunctionsUnfold(cfg: Config, bus: nat, slot: nat, f: nat, later: seq<Device>)
    requires f < Functions(cfg, bus, slot)
    ensures var tail := FunctionsFrom(cfg, bus, slot, f + 1) + later;
            FunctionsFrom(cfg, bus, slot, f) + later ==
            match Probe(cfg, bus, slot, f) case None => tail case Some(d) => [d] + tail
  {
    var rest := FunctionsFrom(cfg, bus, slot, f + 1);
    match Probe(cfg, bus, slot, f) {
      case None => assert FunctionsFrom(cfg, bus, slot, f) == [] + rest == rest;
      case Some(d) =>
        assert FunctionsFrom(cfg, bus, slot, f) == [d] + rest;
        assert [d] + rest + later == [d] + (rest + later);
    }
  }

  // From here on, walking the devices still to come completes the walk `w` and the log begun at `start`.
  ghost predicate Remains(cfg: Config, keep: Callback, devices: seq<Device>, visited: set<nat>,
                          log: seq<Device>, start: seq<Device>, w: Walk)
    requires visited <= AllBuses()
  {
    var rest := VisitAll(cfg, devices, visited);
    Offer(keep, start, w.found) == Offer(keep, log, rest.found) && w.visited == rest.visited
  }

  lemma VisitAllUnfolds(cfg: Config, d: Device, tail: seq<Device>, visited: set<nat>)
    requires visited <= AllBuses()
    ensures var below := Below(cfg, d, visited);
            below.visited <= AllBuses() &&
            var rest := VisitAll(cfg, tail, below.visited);
            VisitAll(cfg, [d] + tail, visited) == Walk(rest.visited, [d] + below.found + rest.found)
  {
    assert ([d] + tail)[1..] == tail;
  }

  lemma OfferUnfolds(keep: Callback, log: seq<Device>, d: Device, a: seq<Device>, b: seq<Device>)
    ensures var next := log + [d];
            Offer(keep, log, [d] + a + b) ==
            if !Accepts(keep, next) then Offered(next, false)
            else
              var inside := Offer(keep, next, a);
              if inside.goOn then Offer(keep, inside.log, b) else inside
  {
    assert ([d] + a + b)[1..] == a + b;
    OfferSplits(keep, log + [d], a, b);
  }

  lemma RemainsUnfolds(cfg: Config, keep: Callback, d: Device, tail: seq<Device>, visited: set<nat>,
                       log: seq<Device>, start: seq<Device>, w: Walk)
    requires visited <= AllBuses() && Remains(cfg, keep, [d] + tail, visited, log, start, w)
    ensures var below := Below(cfg, d, visited);
            var next := log + [d];
            if !Accepts(keep, next) then Offer(keep, start, w.found) == Offered(next, false)
            else
              var inside := Offer(keep, next, below.found);
              if !inside.goOn then Offer(keep, start, w.found) == inside
              else below.visited <= AllBuses() && Remains(cfg, keep, tail, below.visited, inside.log, start, w)
  {
    var below := Below(cfg, d, visited);
    VisitAllUnfolds(cfg, d, tail, visited);
    OfferUnfolds(keep, log, d, below.found, VisitAll(cfg, tail, below.visited).found);
  }

  /** The log a scan leaves: the full walk of bus 0, cut just after the callback's first refusal. */
  function Scanned(cfg: Config, keep: Callback): seq<Device> {
    Offer(keep, [], Visit(cfg, 0, {}).found).log
  }

  method Scan(cfg: Config, keep: Callback) returns (log: seq<Device>)
    ensures log == Scanned(cfg, keep)
  {
    var scanner := new Scanner();
    var goOn := scanner.ScanBus(cfg, keep, 0);
    log := scanner.log;
  }

  /**
   A callback that never refuses is shown every present function on every bus reachable from bus 0,
   each exactly once, and nothing else, even when bridges form cycles.
   */
  lemma FullScanIsExact(cfg: Config, keep: Callback)
    requires forall log: seq<Device> :: keep(log)
    ensures forall d :: multiset(Scanned(cfg, keep))[d] == if Present(cfg, d) && Reachable(cfg, d.bus) then 1 else 0
  {
    var w := Visit(cfg, 0, {});
    WalkIsExact(cfg);
    AcceptingOffer(keep, [], w.found);
  }

  lemma {:induction false} AcceptingOffer(keep: Callback, log: seq<Device>, devices: seq<Device>)
    requires forall log: seq<Device> :: keep(log)
    ensures Offer(keep, log, devices) == Offered(log + devices, true)
    decreases |devices|
  {
    if devices != [] {
      assert log + [devices[0]] + devices[1..] == log + devices;
      AcceptingOffer(keep, log + [devices[0]], devices[1..]);
    } else {
      assert log + devices == log;
    }
  }

  // The first device of the walk that `wanted` accepts.
  function FirstWanted(wanted: Device -> bool, devices: seq<Device>): Option<Device>
    decreases |devices|
  {
    if devices == [] then None
    else if wanted(devices[0]) then Some(devices[0])
    else FirstWanted(wanted, devices[1..])
  }

  lemma {:induction false} FirstWantedExact(wanted: Device -> bool, devices: seq<Device>)
    ensures match FirstWanted(wanted, devices)
            case Some(d) => wanted(d) && d in devices
            case None => forall d :: d in devices ==> !wanted(d)
    decreases |devices|
  {
    if devices != [] { FirstWantedExact(wanted, devices[1..]); }
  }

  // The closure `find` hands to `scan`: refuse the first device that is wanted.
  function Refusing(wanted: Device -> bool): Callback {
    log => log == [] || !wanted(log[|log| - 1])
  }

  lemma {:induction false} RefusingStopsAtFirst(wanted: Device -> bool, log: seq<Device>, devices: seq<Device>)
    ensures var o := Offer(Refusing(wanted), log, devices);
            match FirstWanted(wanted, devices)
            case Some(d) => !o.goOn && |o.log| > 0 && o.log[|o.log| - 1] == d
            case None => o.goOn && o.log == log + devices
    decreases |devices|
  {
    if devices != [] {
      assert log + devices == log + [devices[0]] + devices[1..];
      if !wanted(devices[0]) { RefusingStopsAtFirst(wanted, log + [devices[0]], devices[1..]); }
    }
  }

  /** `find`: the first device in walk order that `wanted` accepts, and `None` only if no reachable device does. */
  method Find(cfg: Config, wanted: Device -> bool) returns (hit: Option<Device>)
    ensures hit == FirstWanted(wanted, Visit(cfg, 0, {}).found)
  {
    var log := Scan(cfg, Refusing(wanted));
    LastIsFirstWanted(wanted, Visit(cfg, 0, {}).found);
    hit := Hit(wanted, log);
  }

  // What the closure recorded: the device it refused, if it refused one.
  function Hit(wanted: Device -> bool, log: seq<Device>): Option<Device> {
    if log != [] && wanted(log[|log| - 1]) then Some(log[|log| - 1]) else None
  }

  lemma LastIsFirstWanted(wanted: Device -> bool, all: seq<Device>)
    ensures FirstWanted(wanted, all) == Hit(wanted, Offer(Refusing(wanted), [], all).log)
  {
    RefusingStopsAtFirst(wanted, [], all);
    FirstWantedExact(wanted, all);
    assert [] + all == all;
  }

  lemma FindIsExact(cfg: Config, wanted: Device -> bool)
    ensures match FirstWanted(wanted, Visit(cfg, 0, {}).found)
            case Some(d) => wanted(d) && Present(cfg, d) && Reachable(cfg, d.bus)
            case None => forall d :: Present(cfg, d) && Reachable(cfg, d.bus) ==> !wanted(d)
  {
    var all := Visit(cfg, 0, {}).found;
    WalkIsExact(cfg);
    FirstWantedExact(wanted, all);
    forall d: Device ensures d in all <==> Present(cfg, d) && Reachable(cfg, d.bus) {
      assert d in all <==> multiset(all)[d] > 0;
    }
  }
}
