/**
 A machine's functions, the registers they show, and the scan read against the functions themselves:
 every field is where the registers put it, and every bridge leads where its own register says.
 */
module PciRegisters {
  import opened Common
  import opened Words
  import opened FloorDivision
  import opened PciTopology
  import opened PciScan

  type word = w: nat | w < 0x1_0000
  // What a header type can be, without the bit that shares its byte.
  type kind = k: nat | k < 0x80

  datatype Bar =
    | Memory32(lines: nat, prefetch: bool)   // 16-byte units
    | Memory64(lines: nat, prefetch: bool)
    | Port(address: nat)

  predicate IsBar(bar: Bar) {
    match bar
    case Memory32(lines, _) => lines < 0x1000_0000
    case Memory64(lines, _) => lines < 0x1000_0000_0000_0000
    case Port(address) => address < 0x4000_0000
  }

  /** One function, as its maker would describe it. */
  datatype Header = Header(
    vendor: word, device: word, class_: byte, subclass: byte, progIf: byte, revision: byte,
    timing: word, kind: kind, multifunction: bool, selfTest: byte,
    bar: Bar, primary: byte, secondary: byte, subordinate: byte, latency: byte)

  // A function that could not be told from none.
  predicate IsHeader(h: Header) {
    IsBar(h.bar) && !(h.vendor == 0xFFFF && h.device == 0xFFFF)
  }

  // ------------------------------------------------------------------------
  // The registers a function shows
  // ------------------------------------------------------------------------

  function IdRegister(h: Header): u32 {
    h.vendor + h.device * 0x1_0000
  }

  function ClassRegister(h: Header): u32 {
    h.revision + h.progIf * 0x100 + h.subclass * 0x1_0000 + h.class_ * 0x100_0000
  }

  function TypeRegister(h: Header): u32 {
    h.timing + (h.kind + if h.multifunction then 0x80 else 0) * 0x1_0000 + h.selfTest * 0x100_0000
  }

  function BusRegister(h: Header): u32 {
    h.primary + h.secondary * 0x100 + h.subordinate * 0x1_0000 + h.latency * 0x100_0000
  }

  function BarRegister(bar: Bar): u32
    requires IsBar(bar)
  {
    match bar
    case Memory32(lines, prefetch) => lines * 16 + if prefetch then 8 else 0
    case Memory64(lines, prefetch) => lines % 0x1000_0000 * 16 + 4 + if prefetch then 8 else 0
    case Port(address) => address * 4 + 1
  }

  predicate Shows(cfg: Config, bus: nat, slot: nat, f: nat, h: Header)
    requires IsHeader(h)
  {
    && cfg(bus, slot, f, 0x00) == IdRegister(h) && cfg(bus, slot, f, 0x08) == ClassRegister(h)
    && cfg(bus, slot, f, 0x0C) == TypeRegister(h) && cfg(bus, slot, f, 0x10) == BarRegister(h.bar)
    && (h.bar.Memory64? ==> cfg(bus, slot, f, 0x14) == h.bar.lines / 0x1000_0000)
    && cfg(bus, slot, f, 0x18) == BusRegister(h)
  }

  // Where a memory window lies; a port window is not one.
  function Base(bar: Bar): nat {
    if bar.Port? then 0 else bar.lines * 16
  }

  function DeviceOf(bus: nat, slot: nat, f: nat, h: Header): Device {
    Device(bus, slot, f, h.vendor, h.device, h.class_, h.subclass, h.progIf, h.kind, Base(h.bar))
  }

  lemma BytesReadBack(a: byte, b: byte, c: byte, d: byte)
    ensures var w := a + b * 0x100 + c * 0x1_0000 + d * 0x100_0000;
            && w % 0x100 == a && w / 0x100 % 0x100 == b && w / 0x1_0000 % 0x100 == c && w / 0x100_0000 == d
  {
    var w := a + b * 0x100 + c * 0x1_0000 + d * 0x100_0000;
    assert w / 0x100 == b + c * 0x100 + d * 0x1_0000;
    assert w / 0x1_0000 == c + d * 0x100;
  }

  lemma IdReadsBack(h: Header)
    requires IsHeader(h)
    ensures IdRegister(h) != ABSENT && IdRegister(h) % 0x1_0000 == h.vendor && IdRegister(h) / 0x1_0000 == h.device
  {
  }

  lemma TypeReadsBack(h: Header)
    ensures TypeRegister(h) / 0x1_0000 % 0x80 == h.kind
    ensures TypeRegister(h) / 0x80_0000 % 2 == if h.multifunction then 1 else 0
  {
    var high := h.kind + (if h.multifunction then 0x80 else 0) + h.selfTest * 0x100;
    assert TypeRegister(h) / 0x1_0000 == high;
    assert TypeRegister(h) / 0x80_0000 == high / 0x80;
    assert high / 0x80 == (if h.multifunction then 1 else 0) + h.selfTest * 2;
  }

  // The bits below a window's address: 4 makes it a wide one, and 8 lets it be prefetched.
  lemma LowBits(lines: nat, wide: bool, prefetch: bool)
    ensures var w := lines * 16 + (if wide then 4 else 0) + if prefetch then 8 else 0;
            w - w % 16 == lines * 16 && w % 2 == 0 && w / 2 % 4 == if wide then 2 else 0
  {
    var four, eight := if wide then 1 else 0, if prefetch then 1 else 0;
    var w := lines * 16 + four * 4 + eight * 8;
    DivIs(w, 16, lines);
    DivBounds(w, 16);
    DivIs(w, 2, lines * 8 + four * 2 + eight * 4);
    DivBounds(w, 2);
    DivIs(w / 2, 4, lines * 2 + eight);
    DivBounds(w / 2, 4);
  }

  lemma BarValue(bar: Bar, low: u32, high: u32)
    requires IsBar(bar) && low == BarRegister(bar) && (bar.Memory64? ==> high == bar.lines / 0x1000_0000)
    ensures Base(bar) == if low % 2 != 0 then 0
                         else low - low % 16 + if low / 2 % 4 == 2 then high * 0x1_0000_0000 else 0
  {
    match bar {
      case Memory32(lines, prefetch) => LowBits(lines, false, prefetch);
      case Memory64(lines, prefetch) =>
        LowBits(lines % 0x1000_0000, true, prefetch);
        DivBounds(lines, 0x1000_0000);
      case Port(address) =>
        DivIs(low, 2, address * 2);
        DivBounds(low, 2);
    }
  }

  lemma BarReadsBack(cfg: Config, bus: nat, slot: nat, f: nat, h: Header)
    requires IsHeader(h) && Shows(cfg, bus, slot, f, h)
    ensures Bar0(cfg, bus, slot, f) == Base(h.bar)
  {
    BarValue(h.bar, cfg(bus, slot, f, 0x10), cfg(bus, slot, f, 0x14));
  }

  /** What a function shows reads back as what it is, its bridge register and its multifunction bit with it. */
  lemma RegistersReadBack(cfg: Config, bus: nat, slot: nat, f: nat, h: Header)
    requires IsHeader(h) && Shows(cfg, bus, slot, f, h)
    ensures Probe(cfg, bus, slot, f) == Some(DeviceOf(bus, slot, f, h))
    ensures Secondary(cfg, DeviceOf(bus, slot, f, h)) == h.secondary
    ensures f == 0 ==> Functions(cfg, bus, slot) == if h.multifunction then 8 else 1
  {
    IdReadsBack(h);
    BytesReadBack(h.revision, h.progIf, h.subclass, h.class_);
    BytesReadBack(h.primary, h.secondary, h.subordinate, h.latency);
    TypeReadsBack(h);
    BarReadsBack(cfg, bus, slot, f, h);
  }

  // The one bit of a header byte that does not say what kind of function it is.
  function WithoutBit7(register: u32): nat {
    register - register / 0x80_0000 % 2 * 0x80_0000
  }

  /** Two spaces that differ in that bit alone have the same functions at every address. */
  lemma MultifunctionBitIsNoKind(a: Config, b: Config, bus: nat, slot: nat, f: nat)
    requires forall offset: nat :: offset != 0x0C ==> a(bus, slot, f, offset) == b(bus, slot, f, offset)
    requires WithoutBit7(a(bus, slot, f, 0x0C)) == WithoutBit7(b(bus, slot, f, 0x0C))
    ensures Probe(a, bus, slot, f) == Probe(b, bus, slot, f)
  {
    KindWithoutBit7(a(bus, slot, f, 0x0C));
    KindWithoutBit7(b(bus, slot, f, 0x0C));
  }

  lemma KindWithoutBit7(register: u32)
    ensures register / 0x1_0000 % 0x80 == WithoutBit7(register) / 0x1_0000 % 0x80
  {
    var high := register / 0x1_0000;
    assert register / 0x80_0000 == high / 0x80;
    assert WithoutBit7(register) / 0x1_0000 == high - high / 0x80 % 2 * 0x80;
  }

  // ------------------------------------------------------------------------
  // A whole machine
  // ------------------------------------------------------------------------

  /** What is at each address of the machine, if anything. */
  type Machine = (nat, nat, nat) -> Option<Header>

  ghost predicate IsSpaceOf(cfg: Config, m: Machine) {
    forall bus: nat, slot: nat, f: nat ::
      match m(bus, slot, f)
      case None => cfg(bus, slot, f, 0x00) == ABSENT
      case Some(h) => IsHeader(h) && Shows(cfg, bus, slot, f, h)
  }

  // Functions past the first are there only if the first says there are more.
  predicate Counted(m: Machine, bus: nat, slot: nat, f: nat) {
    && slot < SLOTS && m(bus, slot, 0).Some? && m(bus, slot, f).Some?
    && (f == 0 || (f < 8 && m(bus, slot, 0).value.multifunction))
  }

  ghost predicate IsOn(m: Machine, d: Device) {
    && Counted(m, d.bus, d.slot, d.function_)
    && d == DeviceOf(d.bus, d.slot, d.function_, m(d.bus, d.slot, d.function_).value)
  }

  predicate Leads(m: Machine, from: nat, slot: nat, f: nat, to: nat) {
    Counted(m, from, slot, f) && m(from, slot, f).value.kind == 1 && m(from, slot, f).value.secondary == to
  }

  ghost predicate Link(m: Machine, from: nat, to: nat) {
    exists slot: nat, f: nat :: Leads(m, from, slot, f, to)
  }

  ghost predicate Route(m: Machine, from: nat, path: seq<nat>, to: nat)
    decreases |path|
  {
    if path == [] then from == to else Link(m, from, path[0]) && Route(m, path[0], path[1..], to)
  }

  // A chain of bridges leads there from bus 0.
  ghost predicate Connected(m: Machine, bus: nat) {
    exists path :: Route(m, 0, path, bus)
  }

  lemma PresentIsOn(cfg: Config, m: Machine, d: Device)
    requires IsSpaceOf(cfg, m)
    ensures Present(cfg, d) <==> IsOn(m, d)
  {
    var first, h := m(d.bus, d.slot, 0), m(d.bus, d.slot, d.function_);
    if first.Some? { RegistersReadBack(cfg, d.bus, d.slot, 0, first.value); }
    if h.Some? { RegistersReadBack(cfg, d.bus, d.slot, d.function_, h.value); }
  }

  lemma EdgeIsLink(cfg: Config, m: Machine, from: nat, to: nat)
    requires IsSpaceOf(cfg, m)
    ensures Edge(cfg, from, to) <==> Link(m, from, to)
  {
    if Edge(cfg, from, to) {
      var d :| IsBridgeTo(cfg, d, from, to);
      PresentIsOn(cfg, m, d);
      RegistersReadBack(cfg, d.bus, d.slot, d.function_, m(d.bus, d.slot, d.function_).value);
      assert Leads(m, from, d.slot, d.function_, to);
    }
    if Link(m, from, to) {
      var slot: nat, f: nat :| Leads(m, from, slot, f, to);
      var h := m(from, slot, f).value;
      RegistersReadBack(cfg, from, slot, f, h);
      PresentIsOn(cfg, m, DeviceOf(from, slot, f, h));
      assert IsBridgeTo(cfg, DeviceOf(from, slot, f, h), from, to);
    }
  }

  lemma {:induction false} PathIsRoute(cfg: Config, m: Machine, from: nat, path: seq<nat>, to: nat)
    requires IsSpaceOf(cfg, m)
    ensures Path(cfg, from, path, to) <==> Route(m, from, path, to)
    decreases |path|
  {
    if path != [] {
      EdgeIsLink(cfg, m, from, path[0]);
      PathIsRoute(cfg, m, path[0], path[1..], to);
    }
  }

  lemma ReachableIsConnected(cfg: Config, m: Machine, bus: nat)
    requires IsSpaceOf(cfg, m)
    ensures Reachable(cfg, bus) <==> Connected(m, bus)
  {
    if Reachable(cfg, bus) {
      var path :| Path(cfg, 0, path, bus);
      PathIsRoute(cfg, m, 0, path, bus);
    }
    if Connected(m, bus) {
      var path :| Route(m, 0, path, bus);
      PathIsRoute(cfg, m, 0, path, bus);
    }
  }

  /**
   The scan of a machine, by what is in it: with a callback that never stops it, each counted function on
   a bus that bridges connect to bus 0 is reported once, with its own fields, and nothing else is.
   */
  lemma ScanReportsTheMachine(cfg: Config, m: Machine, keep: Callback, d: Device)
    requires IsSpaceOf(cfg, m) && forall log: seq<Device> :: keep(log)
    ensures multiset(Scanned(cfg, keep))[d] == if IsOn(m, d) && Connected(m, d.bus) then 1 else 0
  {
    FullScanIsExact(cfg, keep);
    PresentIsOn(cfg, m, d);
    ReachableIsConnected(cfg, m, d.bus);
  }
}
