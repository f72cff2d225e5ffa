/**
 Pixels as memory cells. A layout says where each pixel's cell lies; the device's cells are two, three
 or four bytes with padded rows, the back buffer's are one 32-bit word with none.
 */
module Pixels {
  import opened Common
  import opened Words
  import opened FloorDivision

  // `size` is the cell's length: 1 for the back buffer's words, otherwise the device's bytes per pixel.
  datatype Layout = Layout(width: nat, height: nat, pitch: nat, size: nat)

  predicate Sound(l: Layout) {
    1 <= l.size <= 4 && l.width * l.size <= l.pitch
  }

  predicate Inside(l: Layout, x: nat, y: nat) {
    x < l.width && y < l.height
  }

  function Offset(l: Layout, x: nat, y: nat): nat {
    y * l.pitch + x * l.size
  }

  // ------------------------------------------------------------------------
  // Cells
  // ------------------------------------------------------------------------

  // 5:6:5, from 8:8:8.
  function Packed(c: nat): (p: nat)
    ensures p < 0x1_0000
  {
    c / 0x8_0000 % 32 * 2048 + c / 0x400 % 64 * 32 + c / 8 % 32
  }

  function Encode(size: nat, c: nat): (cell: seq<nat>)
    requires 1 <= size <= 4
    ensures |cell| == size
    ensures size > 1 ==> forall i :: 0 <= i < size ==> cell[i] < 256
  {
    match size
    case 1 => [c]
    case 2 => [Packed(c) % 256, Packed(c) / 256]
    case 3 => [c % 256, c / 256 % 256, c / 0x1_0000 % 256]
    case _ => [c % 256, c / 256 % 256, c / 0x1_0000 % 256, c / 0x100_0000 % 256]
  }

  // What can be stored in a cell of this size.
  predicate IsCell(size: nat, cell: seq<nat>) {
    && 1 <= size <= 4 && |cell| == size
    && if size == 1 then cell[0] < U32_MODULUS else forall i :: 0 <= i < size ==> cell[i] < 256
  }

  function Decode(size: nat, cell: seq<nat>): u32
    requires IsCell(size, cell)
  {
    match size
    case 1 => cell[0]
    case 2 =>
      var packed := cell[0] + cell[1] * 256;
      packed / 2048 % 32 * 0x8_0000 + packed / 32 % 64 * 0x400 + packed % 32 * 8
    case 3 => cell[0] + cell[1] * 256 + cell[2] * 0x1_0000
    case _ => cell[0] + cell[1] * 256 + cell[2] * 0x1_0000 + cell[3] * 0x100_0000
  }

  // Each channel can be taken out of the word, and out of the packed pixel, that it was put into.
  lemma WordFields(r: nat, g: nat, b: nat)
    requires r < 32 && g < 64 && b < 32
    ensures var c := r * 0x8_0000 + g * 0x400 + b * 8;
            c / 0x8_0000 % 32 == r && c / 0x400 % 64 == g && c / 8 % 32 == b
  {
    var c := r * 0x8_0000 + g * 0x400 + b * 8;
    assert c / 8 == (r * 0x800 + g * 4) * 32 + b;
    assert c / 0x400 == (r * 8) * 64 + g;
  }

  lemma PackedFields(r: nat, g: nat, b: nat)
    requires r < 32 && g < 64 && b < 32
    ensures var p := r * 2048 + g * 32 + b;
            p / 2048 % 32 == r && p / 32 % 64 == g && p % 32 == b
  {
    assert (r * 2048 + g * 32 + b) / 32 == r * 64 + g;
  }

  lemma PackedSurvives(p: nat)
    requires p < 0x1_0000
    ensures Packed(p / 2048 % 32 * 0x8_0000 + p / 32 % 64 * 0x400 + p % 32 * 8) == p
  {
    var r, g, b := p / 2048 % 32, p / 32 % 64, p % 32;
    assert p == r * 2048 + g * 32 + b;
    WordFields(r, g, b);
  }

  lemma BytesSplit(a: byte, b: byte, c: byte, d: byte)
    ensures var word := a + b * 256 + c * 0x1_0000 + d * 0x100_0000;
            word % 256 == a && word / 256 % 256 == b && word / 0x1_0000 % 256 == c && word / 0x100_0000 == d
  {
    var word := a + b * 256 + c * 0x1_0000 + d * 0x100_0000;
    assert word / 256 == b + c * 256 + d * 0x1_0000;
    assert word / 0x1_0000 == c + d * 256;
  }

  lemma BytesJoin(c: u32)
    ensures c % 256 + c / 256 % 256 * 256 + c / 0x1_0000 % 256 * 0x1_0000 + c / 0x100_0000 * 0x100_0000 == c
    ensures c % 256 + c / 256 % 256 * 256 + c / 0x1_0000 % 256 * 0x1_0000 == c % 0x100_0000
  {
    assert c / 256 == c / 0x1_0000 * 256 + c / 256 % 256;
    assert c / 0x1_0000 == c / 0x100_0000 * 256 + c / 0x1_0000 % 256;
  }

  lemma ReadBackPacked(lo: byte, hi: byte)
    ensures Encode(2, Decode(2, [lo, hi])) == [lo, hi]
  {
    PackedSurvives(lo + hi * 256);
    assert (lo + hi * 256) % 256 == lo && (lo + hi * 256) / 256 == hi;
  }

  /** Reading a cell and writing the colour back changes nothing, at every depth: no bit is lost twice. */
  lemma ReadBackIsExact(size: nat, cell: seq<nat>)
    requires IsCell(size, cell)
    ensures Encode(size, Decode(size, cell)) == cell
  {
    match size {
      case 1 =>
      case 2 =>
        assert cell == [cell[0], cell[1]];
        ReadBackPacked(cell[0], cell[1]);
      case 3 => BytesSplit(cell[0], cell[1], cell[2], 0);
      case _ => BytesSplit(cell[0], cell[1], cell[2], cell[3]);
    }
  }

  // The bits of a colour that 5:6:5 keeps.
  function TopBits(c: u32): u32 {
    c / 0x8_0000 % 32 * 0x8_0000 + c / 0x400 % 64 * 0x400 + c / 8 % 32 * 8
  }

  lemma PackedReads(c: u32)
    ensures var p := Packed(c);
            p / 2048 % 32 * 0x8_0000 + p / 32 % 64 * 0x400 + p % 32 * 8 == TopBits(c)
  {
    PackedFields(c / 0x8_0000 % 32, c / 0x400 % 64, c / 8 % 32);
  }

  // Two bytes put together again.
  lemma PairReads(p: nat)
    requires p < 0x1_0000
    ensures p / 256 < 256 && p % 256 + p / 256 * 256 == p
  {
  }

  lemma DecodePair(p: nat)
    requires p < 0x1_0000
    ensures p / 256 < 256 && Decode(2, [p % 256, p / 256]) ==
            p / 2048 % 32 * 0x8_0000 + p / 32 % 64 * 0x400 + p % 32 * 8
  {
    PairReads(p);
  }

  lemma PackedReadsBack(c: u32)
    ensures IsCell(2, Encode(2, c)) && Decode(2, Encode(2, c)) == TopBits(c)
  {
    DecodePair(Packed(c));
    PackedReads(c);
  }

  /** What a colour reads back as: itself, its low 24 bits, or the top bits of each channel. */
  lemma WriteReadsBack(size: nat, c: u32)
    requires 1 <= size <= 4
    ensures IsCell(size, Encode(size, c))
    ensures Decode(size, Encode(size, c)) == if size == 3 then c % 0x100_0000 else if size == 2 then TopBits(c) else c
  {
    match size {
      case 1 =>
      case 2 => PackedReadsBack(c);
      case 3 => BytesJoin(c);
      case _ => BytesJoin(c);
    }
  }

  /** The bytes of a pixel, from the four bytes of its colour: blue first, or five, six and five bits packed. */
  lemma EncodedBytes(a: byte, r: byte, g: byte, b: byte)
    ensures var c := a * 0x100_0000 + r * 0x1_0000 + g * 0x100 + b;
            && Encode(1, c) == [c] && Encode(4, c) == [b, g, r, a] && Encode(3, c) == [b, g, r]
            && Encode(2, c)[0] + 256 * Encode(2, c)[1] == r / 8 * 2048 + g / 4 * 32 + b / 8
  {
    var c := a * 0x100_0000 + r * 0x1_0000 + g * 0x100 + b;
    BytesSplit(b, g, r, a);
    PackedBytes(a, r, g, b);
    PairReads(Packed(c));
  }

  // A channel read out of a word: whatever lies above it and whatever lies below it drops out.
  lemma ChannelOut(high: nat, mid: nat, low: nat, unit: nat, size: nat)
    requires mid < size && low < unit
    ensures ((high * size + mid) * unit + low) / unit % size == mid
  {
    DivIs((high * size + mid) * unit + low, unit, high * size + mid);
    DivIs(high * size + mid, size, high);
    DivBounds(high * size + mid, size);
  }

  lemma PackedBytes(a: byte, r: byte, g: byte, b: byte)
    ensures Packed(a * 0x100_0000 + r * 0x1_0000 + g * 0x100 + b) == r / 8 * 2048 + g / 4 * 32 + b / 8
  {
    ChannelOut(a, r / 8, r % 8 * 0x1_0000 + g * 0x100 + b, 0x8_0000, 32);
    ChannelOut(a * 256 + r, g / 4, g % 4 * 0x100 + b, 0x400, 64);
    ChannelOut(a * 0x1_0000 + r * 256 + g, b / 8, b % 8, 8, 32);
  }

  // ------------------------------------------------------------------------
  // Memory
  // ------------------------------------------------------------------------

  predicate Fits(l: Layout, memory: seq<nat>) {
    Sound(l) && |memory| == l.pitch * l.height
  }

  lemma CellInMemory(l: Layout, x: nat, y: nat)
    requires Sound(l) && Inside(l, x, y)
    ensures Offset(l, x, y) + l.size <= l.pitch * l.height
  {
    assert x * l.size + l.size <= l.width * l.size by { assert (x + 1) * l.size <= l.width * l.size; }
    assert (y + 1) * l.pitch <= l.height * l.pitch;
  }

  /** Distinct pixels have disjoint cells, however the rows are padded. */
  lemma CellsApart(l: Layout, x: nat, y: nat, x': nat, y': nat)
    requires Sound(l) && Inside(l, x, y) && Inside(l, x', y') && (x, y) != (x', y')
    ensures Offset(l, x, y) + l.size <= Offset(l, x', y') || Offset(l, x', y') + l.size <= Offset(l, x, y)
  {
    if y < y' { RowsApart(l, x, y, x', y'); }
    else if y' < y { RowsApart(l, x', y', x, y); }
    else if x < x' { assert (x + 1) * l.size <= x' * l.size; }
    else { assert (x' + 1) * l.size <= x * l.size; }
  }

  lemma RowsApart(l: Layout, x: nat, y: nat, x': nat, y': nat)
    requires Sound(l) && x < l.width && y < y'
    ensures Offset(l, x, y) + l.size <= Offset(l, x', y')
  {
    assert (x + 1) * l.size <= l.width * l.size;
    assert (y + 1) * l.pitch <= y' * l.pitch;
  }

  function PixelAt(l: Layout, memory: seq<nat>, x: nat, y: nat): (cell: seq<nat>)
    requires Fits(l, memory) && Inside(l, x, y)
    ensures |cell| == l.size
  {
    CellInMemory(l, x, y);
    memory[Offset(l, x, y)..Offset(l, x, y) + l.size]
  }

  // Bytes between the last pixel of a row and the next row.
  ghost predicate Padding(l: Layout, i: nat) {
    forall x, y :: Inside(l, x, y) ==> !(Offset(l, x, y) <= i < Offset(l, x, y) + l.size)
  }

  function PutPixel(l: Layout, memory: seq<nat>, x: nat, y: nat, c: nat): (m: seq<nat>)
    requires Fits(l, memory) && Inside(l, x, y)
    ensures |m| == |memory|
  {
    CellInMemory(l, x, y);
    var o := Offset(l, x, y);
    memory[..o] + Encode(l.size, c) + memory[o + l.size..]
  }

  lemma PutPixelExact(l: Layout, memory: seq<nat>, x: nat, y: nat, c: nat, x': nat, y': nat)
    requires Fits(l, memory) && Inside(l, x, y) && Inside(l, x', y')
    ensures PixelAt(l, PutPixel(l, memory, x, y, c), x', y') ==
            if (x', y') == (x, y) then Encode(l.size, c) else PixelAt(l, memory, x', y')
  {
    CellInMemory(l, x, y);
    CellInMemory(l, x', y');
    if (x', y') != (x, y) { CellsApart(l, x, y, x', y'); }
  }

  lemma PutPixelPadding(l: Layout, memory: seq<nat>, x: nat, y: nat, c: nat, i: nat)
    requires Fits(l, memory) && Inside(l, x, y) && Padding(l, i) && i < |memory|
    ensures PutPixel(l, memory, x, y, c)[i] == memory[i]
  {
    CellInMemory(l, x, y);
  }

  /** Two surfaces with the same pixels and the same padding are the same bytes. */
  lemma SamePixelsSameMemory(l: Layout, a: seq<nat>, b: seq<nat>)
    requires Fits(l, a) && Fits(l, b)
    requires forall x, y :: Inside(l, x, y) ==> PixelAt(l, a, x, y) == PixelAt(l, b, x, y)
    requires forall i :: 0 <= i < |a| && Padding(l, i) ==> a[i] == b[i]
    ensures a == b
  {
    forall i | 0 <= i < |a| ensures a[i] == b[i] {
      if !Padding(l, i) {
        var x, y :| Inside(l, x, y) && Offset(l, x, y) <= i < Offset(l, x, y) + l.size;
        CellInMemory(l, x, y);
        assert a[i] == PixelAt(l, a, x, y)[i - Offset(l, x, y)];
        assert b[i] == PixelAt(l, b, x, y)[i - Offset(l, x, y)];
      }
    }
  }

  // `get` and `set` on a surface: zero, or nothing done, off its edges.
  function GetAt(l: Layout, memory: seq<nat>, x: nat, y: nat): nat
    requires Fits(l, memory)
  {
    if !Inside(l, x, y) || !IsCell(l.size, PixelAt(l, memory, x, y)) then 0
    else Decode(l.size, PixelAt(l, memory, x, y))
  }

  function SetAt(l: Layout, memory: seq<nat>, x: nat, y: nat, c: nat): (m: seq<nat>)
    requires Fits(l, memory)
    ensures |m| == |memory|
  {
    if Inside(l, x, y) then PutPixel(l, memory, x, y, c) else memory
  }

  // ------------------------------------------------------------------------
  // Rectangles
  // ------------------------------------------------------------------------

  /** Where a rectangle's colours come from: one colour, or the back buffer's pixels. */
  datatype Source = Solid(colour: nat) | Buffer(width: nat, words: seq<nat>)

  function ColourAt(source: Source, x: nat, y: nat): nat {
    match source
    case Solid(c) => c
    case Buffer(width, words) => if y * width + x < |words| then words[y * width + x] else 0
  }

  // Row `y`, from `x` up to `right`, in the order the loops write it.
  function PutRow(l: Layout, memory: seq<nat>, source: Source, y: nat, x: nat, right: nat): (m: seq<nat>)
    requires Fits(l, memory) && y < l.height && right <= l.width
    ensures |m| == |memory|
    decreases right - x
  {
    if x >= right then memory
    else PutRow(l, PutPixel(l, memory, x, y, ColourAt(source, x, y)), source, y, x + 1, right)
  }

  function PutRect(l: Layout, memory: seq<nat>, source: Source, x: nat, y: nat, right: nat, bottom: nat): (m: seq<nat>)
    requires Fits(l, memory) && right <= l.width && bottom <= l.height
    ensures |m| == |memory|
    decreases bottom - y
  {
    if y >= bottom then memory
    else PutRect(l, PutRow(l, memory, source, y, x, right), source, x, y + 1, right, bottom)
  }

  lemma PutRectUnfolds(l: Layout, memory: seq<nat>, source: Source, x: nat, y: nat, right: nat, bottom: nat)
    requires Fits(l, memory) && right <= l.width && y < bottom <= l.height
    ensures PutRect(l, memory, source, x, y, right, bottom) ==
            PutRect(l, PutRow(l, memory, source, y, x, right), source, x, y + 1, right, bottom)
  {
  }

  lemma {:induction false} PutRowExact(
      l: Layout, memory: seq<nat>, source: Source, y: nat, x: nat, right: nat, x': nat, y': nat)
    requires Fits(l, memory) && y < l.height && right <= l.width && Inside(l, x', y')
    ensures PixelAt(l, PutRow(l, memory, source, y, x, right), x', y') ==
            if y' == y && x <= x' < right then Encode(l.size, ColourAt(source, x', y'))
            else PixelAt(l, memory, x', y')
    decreases right - x
  {
    if x < right {
      var first := PutPixel(l, memory, x, y, ColourAt(source, x, y));
      PutPixelExact(l, memory, x, y, ColourAt(source, x, y), x', y');
      PutRowExact(l, first, source, y, x + 1, right, x', y');
      assert PutRow(l, memory, source, y, x, right) == PutRow(l, first, source, y, x + 1, right);
    }
  }

  /** A rectangle changes exactly the pixels inside it. */
  lemma {:induction false} PutRectExact(
      l: Layout, memory: seq<nat>, source: Source, x: nat, y: nat, right: nat, bottom: nat, x': nat, y': nat)
    requires Fits(l, memory) && right <= l.width && bottom <= l.height && Inside(l, x', y')
    ensures PixelAt(l, PutRect(l, memory, source, x, y, right, bottom), x', y') ==
            if x <= x' < right && y <= y' < bottom then Encode(l.size, ColourAt(source, x', y'))
            else PixelAt(l, memory, x', y')
    decreases bottom - y
  {
    if y < bottom {
      PutRowExact(l, memory, source, y, x, right, x', y');
      PutRectExact(l, PutRow(l, memory, source, y, x, right), source, x, y + 1, right, bottom, x', y');
    }
  }

  lemma {:induction false} PutRowPadding(
      l: Layout, memory: seq<nat>, source: Source, y: nat, x: nat, right: nat, i: nat)
    requires Fits(l, memory) && y < l.height && right <= l.width && Padding(l, i) && i < |memory|
    ensures PutRow(l, memory, source, y, x, right)[i] == memory[i]
    decreases right - x
  {
    if x < right {
      PutPixelPadding(l, memory, x, y, ColourAt(source, x, y), i);
      PutRowPadding(l, PutPixel(l, memory, x, y, ColourAt(source, x, y)), source, y, x + 1, right, i);
    }
  }

  lemma {:induction false} PutRectPadding(
      l: Layout, memory: seq<nat>, source: Source, x: nat, y: nat, right: nat, bottom: nat, i: nat)
    requires Fits(l, memory) && right <= l.width && bottom <= l.height && Padding(l, i) && i < |memory|
    ensures PutRect(l, memory, source, x, y, right, bottom)[i] == memory[i]
    decreases bottom - y
  {
    if y < bottom {
      PutRowPadding(l, memory, source, y, x, right, i);
      PutRectPadding(l, PutRow(l, memory, source, y, x, right), source, x, y + 1, right, bottom, i);
    }
  }
}
