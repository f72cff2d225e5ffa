/** ACPI pin numbers to pad registers, through the pad-group tables. */
module GpioPads {
  import opened Common
  import opened Words

  const MAX_COMMUNITIES: nat := 8
  const PAD_STRIDE: nat := 16
  const PAD_OFFSET_LIMIT: nat := 0x1000_0000
  const U16_LIMIT: nat := 0x1_0000
  // The pin base of a group with no pins.
  const NOMAP: int := -1

  datatype PadGroup = PadGroup(firstPad: nat, pads: nat, gpioBase: int)

  // A part's communities, each the list of its groups.
  type Table = seq<seq<PadGroup>>

  datatype Community = Community(base: nat, padsAt: nat, capacity: nat)

  datatype Controller = Controller(communities: seq<Community>, table: Option<Table>)

  // The community counts in units of `PAD_OFFSET_LIMIT`.
  function Pack(community: nat, offset: nat): Option<nat> {
    if community >= MAX_COMMUNITIES || offset >= PAD_OFFSET_LIMIT then None
    else Some(community * PAD_OFFSET_LIMIT + offset)
  }

  function CommunityOf(pad: nat): nat {
    pad / PAD_OFFSET_LIMIT
  }

  function OffsetOf(pad: nat): nat {
    pad % PAD_OFFSET_LIMIT
  }

  /** Packing loses nothing: a pad unpacks to exactly what went in. */
  lemma PackUnpacks(community: nat, offset: nat)
    ensures match Pack(community, offset)
            case Some(pad) => pad < U32_MODULUS && CommunityOf(pad) == community && OffsetOf(pad) == offset
            case None => community >= MAX_COMMUNITIES || offset >= PAD_OFFSET_LIMIT
  {
  }

  predicate Contains(g: PadGroup, pin: nat) {
    g.gpioBase != NOMAP && g.gpioBase <= pin < g.gpioBase + g.pads
  }

  // The controller-wide linear index of a pin inside its group, in 16-bit arithmetic.
  function Linear(g: PadGroup, pin: nat): nat
    requires Contains(g, pin)
  {
    (g.firstPad + (pin - g.gpioBase)) % U16_LIMIT
  }

  // The first group of a community, from `k` on, that contains the pin.
  function GroupFrom(groups: seq<PadGroup>, pin: nat, k: nat): (r: Option<nat>)
    requires k <= |groups|
    ensures r.Some? ==> k <= r.value < |groups| && Contains(groups[r.value], pin)
    ensures r.None? ==> forall i :: k <= i < |groups| ==> !Contains(groups[i], pin)
    decreases |groups| - k
  {
    if k == |groups| then None
    else if Contains(groups[k], pin) then Some(k)
    else GroupFrom(groups, pin, k + 1)
  }

  function ResolveFrom(c: Controller, table: Table, pin: nat, index: nat): Option<nat>
    requires index <= |table|
    decreases |table| - index
  {
    if index == |table| || index >= |c.communities| || table[index] == [] then None
    else match GroupFrom(table[index], pin, 0)
      case None => ResolveFrom(c, table, pin, index + 1)
      case Some(k) =>
        var linear, first := Linear(table[index][k], pin), table[index][0].firstPad;
        if linear < first || linear - first >= c.communities[index].capacity then None
        else Pack(index, c.communities[index].padsAt + (linear - first) * PAD_STRIDE)
  }

  function Resolve(c: Controller, pin: nat): Option<nat> {
    if c.table.None? then None else ResolveFrom(c, c.table.value, pin, 0)
  }

  // ------------------------------------------------------------------------
  // What a table has to satisfy
  // ------------------------------------------------------------------------

  // A community's groups follow one another in the linear order, and fit sixteen bits.
  predicate Consecutive(groups: seq<PadGroup>) {
    && |groups| > 0
    && (forall i :: 0 <= i < |groups| ==> groups[i].firstPad + groups[i].pads <= U16_LIMIT)
    && (forall i, j :: 0 <= i < j < |groups| ==> groups[i].firstPad + groups[i].pads <= groups[j].firstPad)
  }

  predicate Apart(g: PadGroup, h: PadGroup) {
    g.gpioBase == NOMAP || h.gpioBase == NOMAP || g.gpioBase + g.pads <= h.gpioBase || h.gpioBase + h.pads <= g.gpioBase
  }

  predicate DisjointPins(table: Table) {
    forall c, d, i, j ::
      0 <= c < |table| && 0 <= d < |table| && 0 <= i < |table[c]| && 0 <= j < |table[d]| && (c, i) != (d, j) ==>
      Apart(table[c][i], table[d][j])
  }

  predicate SoundTable(table: Table) {
    (forall c :: 0 <= c < |table| ==> Consecutive(table[c])) && DisjointPins(table)
  }

  // Where pin `pin` belongs: group `k` of community `index`.
  predicate Belongs(table: Table, pin: nat, index: nat, k: nat) {
    index < |table| && k < |table[index]| && Contains(table[index][k], pin)
  }

  function LocalOf(table: Table, pin: nat, index: nat, k: nat): int
    requires Belongs(table, pin, index, k)
  {
    table[index][k].firstPad + (pin - table[index][k].gpioBase) - table[index][0].firstPad
  }

  lemma LinearIsLocal(table: Table, pin: nat, index: nat, k: nat)
    requires SoundTable(table) && Belongs(table, pin, index, k)
    ensures Linear(table[index][k], pin) == LocalOf(table, pin, index, k) + table[index][0].firstPad
    ensures LocalOf(table, pin, index, k) >= 0
  {
    assert Consecutive(table[index]);
  }

  lemma OneGroup(table: Table, pin: nat, index: nat, k: nat, index': nat, k': nat)
    requires SoundTable(table) && Belongs(table, pin, index, k) && Belongs(table, pin, index', k')
    ensures index == index' && k == k'
  {
    assert (index, k) != (index', k') ==> Apart(table[index][k], table[index'][k']);
  }

  lemma {:induction false} ResolveFromExact(c: Controller, table: Table, pin: nat, from: nat, index: nat, k: nat)
    requires SoundTable(table) && Belongs(table, pin, index, k) && from <= index
    ensures ResolveFrom(c, table, pin, from) ==
            if index < |c.communities| && LocalOf(table, pin, index, k) < c.communities[index].capacity
            then Pack(index, c.communities[index].padsAt + LocalOf(table, pin, index, k) * PAD_STRIDE) else None
    decreases index - from
  {
    assert Consecutive(table[from]);
    if from < |c.communities| {
      match GroupFrom(table[from], pin, 0) {
        case None => ResolveFromExact(c, table, pin, from + 1, index, k);
        case Some(j) =>
          OneGroup(table, pin, from, j, index, k);
          LinearIsLocal(table, pin, index, k);
      }
    }
  }

  lemma {:induction false} ResolveNothing(c: Controller, table: Table, pin: nat, from: nat)
    requires from <= |table| && forall index: nat, k: nat :: from <= index ==> !Belongs(table, pin, index, k)
    ensures ResolveFrom(c, table, pin, from) == None
    decreases |table| - from
  {
    if from < |table| {
      forall k: nat | k < |table[from]| ensures !Contains(table[from][k], pin) {
        assert !Belongs(table, pin, from, k);
      }
      ResolveNothing(c, table, pin, from + 1);
    }
  }

  /**
   A resolved pin lies in exactly one mapped group, and its pad unpacks to that group's community and
   to the register of the pin's place in it, which the community really has.
   */
  lemma ResolveIsExact(c: Controller, pin: nat) returns (index: nat, k: nat)
    requires c.table.Some? && SoundTable(c.table.value)
    ensures match Resolve(c, pin)
            case None => forall i: nat, j: nat :: Belongs(c.table.value, pin, i, j) ==>
              || i >= |c.communities| || LocalOf(c.table.value, pin, i, j) >= c.communities[i].capacity
              || Pack(i, c.communities[i].padsAt + LocalOf(c.table.value, pin, i, j) * 16).None?
            case Some(pad) =>
              && Belongs(c.table.value, pin, index, k) && index < |c.communities|
              && (forall i: nat, j: nat :: Belongs(c.table.value, pin, i, j) ==> i == index && j == k)
              && 0 <= LocalOf(c.table.value, pin, index, k) < c.communities[index].capacity
              && CommunityOf(pad) == index
              && OffsetOf(pad) == c.communities[index].padsAt + LocalOf(c.table.value, pin, index, k) * 16
  {
    var table := c.table.value;
    index, k := 0, 0;
    if i: nat, j: nat :| Belongs(table, pin, i, j) {
      index, k := i, j;
      ResolveFromExact(c, table, pin, 0, index, k);
      LinearIsLocal(table, pin, index, k);
      forall i': nat, j': nat | Belongs(table, pin, i', j') ensures i' == index && j' == k {
        OneGroup(table, pin, i', j', index, k);
      }
      if Resolve(c, pin).Some? {
        PackUnpacks(index, c.communities[index].padsAt + LocalOf(table, pin, index, k) * 16);
      }
    } else {
      ResolveNothing(c, table, pin, 0);
    }
  }

  /** No two pins share a pad. */
  lemma ResolveIsInjective(c: Controller, p: nat, q: nat)
    requires c.table.Some? && SoundTable(c.table.value)
    requires Resolve(c, p).Some? && Resolve(c, p) == Resolve(c, q)
    ensures p == q
  {
    var table := c.table.value;
    var i, j := ResolveIsExact(c, p);
    var i', j' := ResolveIsExact(c, q);
    assert LocalOf(table, p, i, j) == LocalOf(table, q, i', j');
    SameLocalSamePin(table, p, q, i, j, j');
  }

  lemma SameLocalSamePin(table: Table, p: nat, q: nat, index: nat, j: nat, k: nat)
    requires SoundTable(table) && Belongs(table, p, index, j) && Belongs(table, q, index, k)
    requires LocalOf(table, p, index, j) == LocalOf(table, q, index, k)
    ensures p == q
  {
    assert Consecutive(table[index]);
  }

  // ------------------------------------------------------------------------
  // The shipped tables
  // ------------------------------------------------------------------------

  const ADL_COM0 := [PadGroup(0, 26, 0), PadGroup(26, 16, 32), PadGroup(42, 25, 64)]
  const ADL_COM1 := [PadGroup(67, 8, 96), PadGroup(75, 20, 128), PadGroup(95, 24, 160),
                     PadGroup(119, 21, 192), PadGroup(140, 29, 224)]
  const ADL_COM4 := [PadGroup(169, 24, 256), PadGroup(193, 25, 288), PadGroup(218, 6, NOMAP), PadGroup(224, 25, 320)]
  const ADL_COM5 := [PadGroup(249, 8, 352)]

  const TGLH_COM0 := [PadGroup(0, 25, 0), PadGroup(25, 20, 32), PadGroup(45, 26, 64), PadGroup(71, 8, 96)]
  const TGLH_COM1 := [PadGroup(79, 26, 128), PadGroup(105, 24, 160), PadGroup(129, 8, 192),
                      PadGroup(137, 17, 224), PadGroup(154, 27, 256)]
  const TGLH_COM3 := [PadGroup(181, 13, 288), PadGroup(194, 24, 320)]
  const TGLH_COM4 := [PadGroup(218, 24, 352), PadGroup(242, 10, 384), PadGroup(252, 15, 416)]
  const TGLH_COM5 := [PadGroup(267, 15, 448), PadGroup(282, 9, NOMAP)]

  const ALDER_LAKE: Table := [ADL_COM0, ADL_COM1, ADL_COM4, ADL_COM5]
  const TIGER_LAKE_H: Table := [TGLH_COM0, TGLH_COM1, TGLH_COM3, TGLH_COM4, TGLH_COM5]

  // Where the mapped pins of these groups end, when they start no lower than `pin`.
  function EndPin(groups: seq<PadGroup>, pin: nat): nat
    decreases |groups|
  {
    if groups == [] then pin
    else EndPin(groups[1..], if groups[0].gpioBase < 0 then pin else groups[0].gpioBase + groups[0].pads)
  }

  // Read once from left to right: pads from `pad` on and pins from `pin` on are only ever claimed once.
  predicate LaidOut(groups: seq<PadGroup>, pad: nat, pin: nat)
    decreases |groups|
  {
    groups != [] ==>
      var g := groups[0];
      && pad <= g.firstPad && g.firstPad + g.pads <= U16_LIMIT
      && (g.gpioBase == NOMAP || pin <= g.gpioBase)
      && LaidOut(groups[1..], g.firstPad + g.pads, if g.gpioBase < 0 then pin else g.gpioBase + g.pads)
  }

  predicate TableLaidOut(table: Table, pin: nat)
    decreases |table|
  {
    table != [] ==> table[0] != [] && LaidOut(table[0], 0, pin) && TableLaidOut(table[1..], EndPin(table[0], pin))
  }

  lemma {:induction false} LaidOutBounds(groups: seq<PadGroup>, pad: nat, pin: nat)
    requires LaidOut(groups, pad, pin)
    ensures pin <= EndPin(groups, pin)
    ensures forall i :: 0 <= i < |groups| ==>
              && pad <= groups[i].firstPad && groups[i].firstPad + groups[i].pads <= U16_LIMIT
              && (groups[i].gpioBase != NOMAP ==>
                    pin <= groups[i].gpioBase && groups[i].gpioBase + groups[i].pads <= EndPin(groups, pin))
    ensures forall i, j :: 0 <= i < j < |groups| ==>
              groups[i].firstPad + groups[i].pads <= groups[j].firstPad && Apart(groups[i], groups[j])
    decreases |groups|
  {
    if groups != [] {
      var g := groups[0];
      LaidOutBounds(groups[1..], g.firstPad + g.pads, if g.gpioBase < 0 then pin else g.gpioBase + g.pads);
    }
  }

  lemma {:induction false} CommunityLaidOut(table: Table, pin: nat, c: nat)
    requires TableLaidOut(table, pin) && c < |table|
    ensures Consecutive(table[c])
    ensures forall i :: 0 <= i < |table[c]| && table[c][i].gpioBase != NOMAP ==> pin <= table[c][i].gpioBase
    decreases |table|
  {
    LaidOutBounds(table[0], 0, pin);
    if c > 0 { CommunityLaidOut(table[1..], EndPin(table[0], pin), c - 1); }
  }

  lemma {:induction false} GroupsApart(table: Table, pin: nat, c: nat, i: nat, d: nat, j: nat)
    requires TableLaidOut(table, pin) && c < |table| && d < |table| && i < |table[c]| && j < |table[d]|
    requires c < d || (c == d && i < j)
    ensures Apart(table[c][i], table[d][j])
    decreases |table|
  {
    LaidOutBounds(table[0], 0, pin);
    if c > 0 {
      GroupsApart(table[1..], EndPin(table[0], pin), c - 1, i, d - 1, j);
    } else if d > 0 {
      CommunityLaidOut(table[1..], EndPin(table[0], pin), d - 1);
      assert table[d] == table[1..][d - 1];
    }
  }

  lemma TableLaidOutIsSound(table: Table)
    requires TableLaidOut(table, 0)
    ensures SoundTable(table)
  {
    forall c | 0 <= c < |table| ensures Consecutive(table[c]) {
      CommunityLaidOut(table, 0, c);
    }
    forall c, d, i, j |
      0 <= c < |table| && 0 <= d < |table| && 0 <= i < |table[c]| && 0 <= j < |table[d]| && (c, i) != (d, j)
      ensures Apart(table[c][i], table[d][j])
    {
      if c < d || (c == d && i < j) { GroupsApart(table, 0, c, i, d, j); } else { GroupsApart(table, 0, d, j, c, i); }
    }
  }

  lemma TableGrows(groups: seq<PadGroup>, rest: Table, pin: nat, end: nat)
    requires groups != [] && LaidOut(groups, 0, pin) && EndPin(groups, pin) == end && TableLaidOut(rest, end)
    ensures TableLaidOut([groups] + rest, pin)
  {
    assert ([groups] + rest)[1..] == rest;
  }

  // A group with no pins only moves the next free pad along.
  lemma Unmapped(firstPad: nat, pads: nat, rest: seq<PadGroup>, pad: nat, pin: nat)
    requires pad <= firstPad && firstPad + pads <= U16_LIMIT
    ensures var groups := [PadGroup(firstPad, pads, NOMAP)] + rest;
            && EndPin(groups, pin) == EndPin(rest, pin)
            && LaidOut(groups, pad, pin) == LaidOut(rest, firstPad + pads, pin)
  {
    assert ([PadGroup(firstPad, pads, NOMAP)] + rest)[1..] == rest;
  }

  lemma AlderLakeIsLaidOut()
    ensures TableLaidOut(ALDER_LAKE, 0)
  {
    var com5: Table := [ADL_COM5];
    var com4 := [ADL_COM4] + com5;
    var com1 := [ADL_COM1] + com4;
    TableGrows(ADL_COM5, [], 345, 360);
    assert [ADL_COM5] + [] == com5;
    Unmapped(218, 6, [PadGroup(224, 25, 320)], 218, 313);
    assert ADL_COM4[1..][1..] == [PadGroup(218, 6, NOMAP)] + [PadGroup(224, 25, 320)];
    TableGrows(ADL_COM4, com5, 253, 345);
    TableGrows(ADL_COM1, com4, 89, 253);
    TableGrows(ADL_COM0, com1, 0, 89);
    assert ALDER_LAKE == [ADL_COM0] + com1;
  }

  lemma TigerLakeIsLaidOut()
    ensures TableLaidOut(TIGER_LAKE_H, 0)
  {
    var com5: Table := [TGLH_COM5];
    var com4 := [TGLH_COM4] + com5;
    var com3 := [TGLH_COM3] + com4;
    var com1 := [TGLH_COM1] + com3;
    Unmapped(282, 9, [], 282, 463);
    assert TGLH_COM5[1..] == [PadGroup(282, 9, NOMAP)] + [];
    TableGrows(TGLH_COM5, [], 431, 463);
    assert [TGLH_COM5] + [] == com5;
    TableGrows(TGLH_COM4, com5, 344, 431);
    TableGrows(TGLH_COM3, com4, 283, 344);
    TableGrows(TGLH_COM1, com3, 104, 283);
    TableGrows(TGLH_COM0, com1, 0, 104);
    assert TIGER_LAKE_H == [TGLH_COM0] + com1;
  }

  /** Both tables the driver ships meet the conditions the theorems above ask for. */
  lemma ShippedTablesAreSound()
    ensures SoundTable(ALDER_LAKE) && SoundTable(TIGER_LAKE_H)
  {
    AlderLakeIsLaidOut();
    TigerLakeIsLaidOut();
    TableLaidOutIsSound(ALDER_LAKE);
    TableLaidOutIsSound(TIGER_LAKE_H);
  }
}
