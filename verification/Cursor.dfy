/** The software cursor, and why drawing it and erasing it leaves no trace. */
module CursorModel {
  import opened Words
  import opened Pixels
  import opened Framebuffer

  const CURSOR: nat := 12
  const CELLS: nat := CURSOR * CURSOR

  // The arrow's outline, one cell at a time: cell `k` is row `k / CURSOR`, column `k % CURSOR`.
  predicate InArrow(row: nat, col: nat)
    requires col < CURSOR
  {
    col <= row < CURSOR - col / 2
  }

  predicate Shape(k: nat) {
    InArrow(k / CURSOR, k % CURSOR)
  }

  function ArrowColour(background: u32, title: u32, row: nat, col: nat): u32 {
    if col == 0 || col == row || row + 1 >= CURSOR - col / 2 then background else title
  }

  // `origin as u32 + offset`, in 32-bit arithmetic.
  function WrappedAdd(origin: int, offset: nat): u32 {
    (origin + offset) % U32_MODULUS
  }

  predicate IsI32(n: int) {
    -0x8000_0000 <= n < 0x8000_0000
  }

  function X(dx: int, k: nat): u32 {
    WrappedAdd(dx, k % CURSOR)
  }

  function Y(dy: int, k: nat): u32 {
    WrappedAdd(dy, k / CURSOR)
  }

  datatype Palette = Palette(background: u32, title: u32)

  /** The surface's memory, and what was saved from under the cursor. */
  datatype Saved = Saved(memory: seq<nat>, under: seq<nat>)

  // One cell drawn: what is there is saved first.
  function DrawnCell(l: Layout, s: Saved, p: Palette, dx: int, dy: int, k: nat): (t: Saved)
    requires Fits(l, s.memory) && |s.under| == CELLS && k < CELLS
    ensures |t.memory| == |s.memory| && |t.under| == CELLS
  {
    if !Shape(k) then s
    else
      var x, y := X(dx, k), Y(dy, k);
      Saved(SetAt(l, s.memory, x, y, ArrowColour(p.background, p.title, k / CURSOR, k % CURSOR)),
            s.under[k := GetAt(l, s.memory, x, y)])
  }

  function DrawFrom(l: Layout, s: Saved, p: Palette, dx: int, dy: int, k: nat): (t: Saved)
    requires Fits(l, s.memory) && |s.under| == CELLS && k <= CELLS
    ensures |t.memory| == |s.memory| && |t.under| == CELLS
    decreases CELLS - k
  {
    if k == CELLS then s else DrawFrom(l, DrawnCell(l, s, p, dx, dy, k), p, dx, dy, k + 1)
  }

  function ErasedCell(l: Layout, s: Saved, dx: int, dy: int, k: nat): (t: Saved)
    requires Fits(l, s.memory) && |s.under| == CELLS && k < CELLS
    ensures |t.memory| == |s.memory| && t.under == s.under
  {
    if !Shape(k) then s else s.(memory := SetAt(l, s.memory, X(dx, k), Y(dy, k), s.under[k]))
  }

  function EraseFrom(l: Layout, s: Saved, dx: int, dy: int, k: nat): (t: Saved)
    requires Fits(l, s.memory) && |s.under| == CELLS && k <= CELLS
    ensures |t.memory| == |s.memory| && t.under == s.under
    decreases CELLS - k
  {
    if k == CELLS then s else EraseFrom(l, ErasedCell(l, s, dx, dy, k), dx, dy, k + 1)
  }

  // Whether cell `k` of the arrow lands on pixel (x, y).
  predicate Hits(dx: int, dy: int, k: nat, x: nat, y: nat) {
    Shape(k) && X(dx, k) == x && Y(dy, k) == y
  }

  /** No two cells land on one pixel, even when the position wraps round. */
  lemma CellsDistinct(dx: int, dy: int, j: nat, k: nat)
    requires j < CELLS && k < CELLS && X(dx, j) == X(dx, k) && Y(dy, j) == Y(dy, k)
    ensures j == k
  {
    SameShift(dx, j % CURSOR, k % CURSOR);
    SameShift(dy, j / CURSOR, k / CURSOR);
  }

  lemma SameShift(origin: int, a: nat, b: nat)
    requires a < U32_MODULUS && b < U32_MODULUS && WrappedAdd(origin, a) == WrappedAdd(origin, b)
    ensures a == b
  {
  }

  lemma SetAtExact(l: Layout, memory: seq<nat>, x: nat, y: nat, c: nat, x': nat, y': nat)
    requires Fits(l, memory) && Inside(l, x', y')
    ensures PixelAt(l, SetAt(l, memory, x, y, c), x', y') ==
            if (x', y') == (x, y) then Encode(l.size, c) else PixelAt(l, memory, x', y')
  {
    if Inside(l, x, y) { PutPixelExact(l, memory, x, y, c, x', y'); }
  }

  lemma DrawnCellExact(l: Layout, s: Saved, p: Palette, dx: int, dy: int, k: nat, x: nat, y: nat)
    requires Fits(l, s.memory) && |s.under| == CELLS && k < CELLS && Inside(l, x, y) && !Hits(dx, dy, k, x, y)
    ensures PixelAt(l, DrawnCell(l, s, p, dx, dy, k).memory, x, y) == PixelAt(l, s.memory, x, y)
  {
    SetAtExact(l, s.memory, X(dx, k), Y(dy, k), ArrowColour(p.background, p.title, k / CURSOR, k % CURSOR), x, y);
  }

  lemma {:induction false} DrawMisses(l: Layout, s: Saved, p: Palette, dx: int, dy: int, k: nat, x: nat, y: nat)
    requires Fits(l, s.memory) && |s.under| == CELLS && k <= CELLS && Inside(l, x, y)
    requires forall j :: k <= j < CELLS ==> !Hits(dx, dy, j, x, y)
    ensures PixelAt(l, DrawFrom(l, s, p, dx, dy, k).memory, x, y) == PixelAt(l, s.memory, x, y)
    decreases CELLS - k
  {
    if k < CELLS {
      DrawnCellExact(l, s, p, dx, dy, k, x, y);
      DrawMisses(l, DrawnCell(l, s, p, dx, dy, k), p, dx, dy, k + 1, x, y);
    }
  }

  /** Each saved colour is what the surface held before anything was drawn. */
  lemma {:induction false} DrawSaves(l: Layout, s: Saved, p: Palette, dx: int, dy: int, k: nat, j: nat)
    requires Fits(l, s.memory) && |s.under| == CELLS && k <= CELLS && j < CELLS
    ensures DrawFrom(l, s, p, dx, dy, k).under[j] ==
            if j >= k && Shape(j) then GetAt(l, s.memory, X(dx, j), Y(dy, j)) else s.under[j]
    decreases CELLS - k
  {
    if k < CELLS {
      DrawSaves(l, DrawnCell(l, s, p, dx, dy, k), p, dx, dy, k + 1, j);
      var x, y := X(dx, j), Y(dy, j);
      if j > k && Inside(l, x, y) {
        if Hits(dx, dy, k, x, y) { CellsDistinct(dx, dy, j, k); }
        DrawnCellExact(l, s, p, dx, dy, k, x, y);
      }
    }
  }

  // The cell that lands on a pixel leaves its own colour there, whatever else is drawn.
  lemma {:induction false} DrawHits(
      l: Layout, s: Saved, p: Palette, dx: int, dy: int, k: nat, j: nat, x: nat, y: nat)
    requires Fits(l, s.memory) && |s.under| == CELLS && k <= j < CELLS
    requires Hits(dx, dy, j, x, y) && Inside(l, x, y)
    ensures PixelAt(l, DrawFrom(l, s, p, dx, dy, k).memory, x, y) ==
            Encode(l.size, ArrowColour(p.background, p.title, j / CURSOR, j % CURSOR))
    decreases CELLS - k
  {
    var t := DrawnCell(l, s, p, dx, dy, k);
    if k == j {
      SetAtExact(l, s.memory, x, y, ArrowColour(p.background, p.title, j / CURSOR, j % CURSOR), x, y);
      forall i | k + 1 <= i < CELLS ensures !Hits(dx, dy, i, x, y) {
        if Hits(dx, dy, i, x, y) { CellsDistinct(dx, dy, i, j); }
      }
      DrawMisses(l, t, p, dx, dy, k + 1, x, y);
    } else {
      DrawHits(l, t, p, dx, dy, k + 1, j, x, y);
    }
  }

  // Pixel (px, py) is the one that row `r`, column `c` of a twelve by twelve square at (dx, dy) falls on.
  predicate FallsOn(dx: int, dy: int, r: nat, c: nat, px: nat, py: nat) {
    px == (dx + c) % 0x1_0000_0000 && py == (dy + r) % 0x1_0000_0000
  }

  /** The arrow: its edge shows the background colour and its inside the title's. */
  lemma DrawPaints(l: Layout, s: Saved, p: Palette, dx: int, dy: int, r: nat, c: nat, px: nat, py: nat)
    requires Fits(l, s.memory) && |s.under| == CELLS && Inside(l, px, py)
    requires c <= r < 12 - c / 2 && FallsOn(dx, dy, r, c, px, py)
    ensures PixelAt(l, DrawFrom(l, s, p, dx, dy, 0).memory, px, py) ==
            Encode(l.size, if c == 0 || c == r || r + 1 >= 12 - c / 2 then p.background else p.title)
  {
    var k := r * 12 + c;
    assert k / CURSOR == r && k % CURSOR == c;
    DrawHits(l, s, p, dx, dy, 0, k, px, py);
  }

  /** Outside the arrow nothing changes. */
  lemma DrawSpares(l: Layout, s: Saved, p: Palette, dx: int, dy: int, px: nat, py: nat)
    requires Fits(l, s.memory) && |s.under| == CELLS && Inside(l, px, py)
    requires forall r: nat, c: nat :: c <= r < 12 - c / 2 ==> !FallsOn(dx, dy, r, c, px, py)
    ensures PixelAt(l, DrawFrom(l, s, p, dx, dy, 0).memory, px, py) == PixelAt(l, s.memory, px, py)
  {
    forall j | 0 <= j < CELLS ensures !Hits(dx, dy, j, px, py) {
      assert FallsOn(dx, dy, j / CURSOR, j % CURSOR, px, py) <==> X(dx, j) == px && Y(dy, j) == py;
    }
    DrawMisses(l, s, p, dx, dy, 0, px, py);
  }

  lemma ErasedCellExact(l: Layout, s: Saved, dx: int, dy: int, k: nat, x: nat, y: nat)
    requires Fits(l, s.memory) && |s.under| == CELLS && k < CELLS && Inside(l, x, y)
    ensures PixelAt(l, ErasedCell(l, s, dx, dy, k).memory, x, y) ==
            if Hits(dx, dy, k, x, y) then Encode(l.size, s.under[k]) else PixelAt(l, s.memory, x, y)
  {
    SetAtExact(l, s.memory, X(dx, k), Y(dy, k), s.under[k], x, y);
  }

  // Erasing puts each saved colour back where its cell landed, and touches nothing else.
  lemma {:induction false} EraseMisses(l: Layout, s: Saved, dx: int, dy: int, k: nat, x: nat, y: nat)
    requires Fits(l, s.memory) && |s.under| == CELLS && k <= CELLS && Inside(l, x, y)
    requires forall j :: k <= j < CELLS ==> !Hits(dx, dy, j, x, y)
    ensures PixelAt(l, EraseFrom(l, s, dx, dy, k).memory, x, y) == PixelAt(l, s.memory, x, y)
    decreases CELLS - k
  {
    if k < CELLS {
      ErasedCellExact(l, s, dx, dy, k, x, y);
      EraseMisses(l, ErasedCell(l, s, dx, dy, k), dx, dy, k + 1, x, y);
    }
  }

  lemma {:induction false} EraseHits(l: Layout, s: Saved, dx: int, dy: int, k: nat, j: nat, x: nat, y: nat)
    requires Fits(l, s.memory) && |s.under| == CELLS && k <= j < CELLS
    requires Hits(dx, dy, j, x, y) && Inside(l, x, y)
    ensures PixelAt(l, EraseFrom(l, s, dx, dy, k).memory, x, y) == Encode(l.size, s.under[j])
    decreases CELLS - k
  {
    var t := ErasedCell(l, s, dx, dy, k);
    if k == j {
      ErasedCellExact(l, s, dx, dy, k, x, y);
      forall i | k + 1 <= i < CELLS ensures !Hits(dx, dy, i, x, y) {
        if Hits(dx, dy, i, x, y) { CellsDistinct(dx, dy, i, j); }
      }
      EraseMisses(l, t, dx, dy, k + 1, x, y);
    } else {
      EraseHits(l, t, dx, dy, k + 1, j, x, y);
    }
  }

  lemma {:induction false} DrawPadding(l: Layout, s: Saved, p: Palette, dx: int, dy: int, k: nat, i: nat)
    requires Fits(l, s.memory) && |s.under| == CELLS && k <= CELLS && Padding(l, i) && i < |s.memory|
    ensures DrawFrom(l, s, p, dx, dy, k).memory[i] == s.memory[i]
    decreases CELLS - k
  {
    if k < CELLS {
      var x, y := X(dx, k), Y(dy, k);
      if Inside(l, x, y) {
        PutPixelPadding(l, s.memory, x, y, ArrowColour(p.background, p.title, k / CURSOR, k % CURSOR), i);
      }
      DrawPadding(l, DrawnCell(l, s, p, dx, dy, k), p, dx, dy, k + 1, i);
    }
  }

  lemma {:induction false} ErasePadding(l: Layout, s: Saved, dx: int, dy: int, k: nat, i: nat)
    requires Fits(l, s.memory) && |s.under| == CELLS && k <= CELLS && Padding(l, i) && i < |s.memory|
    ensures EraseFrom(l, s, dx, dy, k).memory[i] == s.memory[i]
    decreases CELLS - k
  {
    if k < CELLS {
      if Inside(l, X(dx, k), Y(dy, k)) { PutPixelPadding(l, s.memory, X(dx, k), Y(dy, k), s.under[k], i); }
      ErasePadding(l, ErasedCell(l, s, dx, dy, k), dx, dy, k + 1, i);
    }
  }

  // Every cell of the surface holds something a cell can hold.
  ghost predicate WellFormed(l: Layout, memory: seq<nat>)
    requires Fits(l, memory)
  {
    forall x, y :: Inside(l, x, y) ==> IsCell(l.size, PixelAt(l, memory, x, y))
  }

  lemma RestoredPixel(l: Layout, s: Saved, p: Palette, dx: int, dy: int, x: nat, y: nat)
    requires Fits(l, s.memory) && WellFormed(l, s.memory) && |s.under| == CELLS && Inside(l, x, y)
    ensures var drawn := DrawFrom(l, s, p, dx, dy, 0);
            PixelAt(l, EraseFrom(l, drawn, dx, dy, 0).memory, x, y) == PixelAt(l, s.memory, x, y)
  {
    var drawn := DrawFrom(l, s, p, dx, dy, 0);
    if j: nat :| j < CELLS && Hits(dx, dy, j, x, y) {
      DrawSaves(l, s, p, dx, dy, 0, j);
      EraseHits(l, drawn, dx, dy, 0, j, x, y);
      ReadBackIsExact(l.size, PixelAt(l, s.memory, x, y));
    } else {
      DrawMisses(l, s, p, dx, dy, 0, x, y);
      EraseMisses(l, drawn, dx, dy, 0, x, y);
    }
  }

  /**
   Drawing the cursor and erasing it leaves the surface exactly as it was, wherever the cursor is: on
   screen, hanging over an edge or off it, on the back buffer or on the device at any depth.
   */
  lemma EraseUndoesDraw(l: Layout, s: Saved, p: Palette, dx: int, dy: int)
    requires Fits(l, s.memory) && WellFormed(l, s.memory) && |s.under| == CELLS
    ensures EraseFrom(l, DrawFrom(l, s, p, dx, dy, 0), dx, dy, 0).memory == s.memory
  {
    var drawn := DrawFrom(l, s, p, dx, dy, 0);
    var erased := EraseFrom(l, drawn, dx, dy, 0);
    forall x, y | Inside(l, x, y) ensures PixelAt(l, erased.memory, x, y) == PixelAt(l, s.memory, x, y) {
      RestoredPixel(l, s, p, dx, dy, x, y);
    }
    forall i | 0 <= i < |s.memory| && Padding(l, i) ensures erased.memory[i] == s.memory[i] {
      DrawPadding(l, s, p, dx, dy, 0, i);
      ErasePadding(l, drawn, dx, dy, 0, i);
    }
    SamePixelsSameMemory(l, erased.memory, s.memory);
  }

  class Cursor {
    var x: int
    var y: int
    var drawnX: int
    var drawnY: int
    const under: array<u32>
    var drawn: bool

    ghost predicate Valid()
      reads this
    {
      under.Length == CELLS && IsI32(x) && IsI32(y) && IsI32(drawnX) && IsI32(drawnY)
    }

    constructor ()
      ensures Valid() && !drawn && fresh(under) && x == 0 && y == 0
    {
      x, y, drawnX, drawnY, drawn := 0, 0, 0, 0, false;
      under := new u32[CELLS](_ => 0);
    }

    method MoveTo(x: int, y: int)
      requires Valid() && IsI32(x) && IsI32(y)
      modifies this`x, this`y
      ensures Valid() && this.x == x && this.y == y
    {
      this.x, this.y := x, y;
    }

    method Draw(fb: Surface, p: Palette)
      requires Valid() && fb.Valid() && fb.shadow != under
      modifies this`drawnX, this`drawnY, this`drawn, under
      modifies fb`x0, fb`y0, fb`x1, fb`y1, fb.device, fb.shadow
      ensures Valid() && fb.Valid() && fb.shadow == old(fb.shadow)
      ensures drawn && drawnX == x && drawnY == y
      ensures Saved(fb.Memory(), under[..]) == DrawFrom(fb.Target(), old(Saved(fb.Memory(), under[..])), p, x, y, 0)
    {
      drawnX, drawnY := x, y;
      ghost var target := DrawFrom(fb.Target(), Saved(fb.Memory(), under[..]), p, x, y, 0);
      for k := 0 to CELLS
        invariant Valid() && fb.Valid() && fb.shadow == old(fb.shadow) && drawnX == x && drawnY == y
        invariant DrawFrom(fb.Target(), Saved(fb.Memory(), under[..]), p, x, y, k) == target
      {
        DrawCell(fb, p, k);
      }
      drawn := true;
    }

    // One cell of the arrow: save what is there, then draw over it.
    method DrawCell(fb: Surface, p: Palette, k: nat)
      requires Valid() && fb.Valid() && fb.shadow != under && k < CELLS
      modifies under, fb`x0, fb`y0, fb`x1, fb`y1, fb.device, fb.shadow
      ensures fb.Valid() && fb.shadow == old(fb.shadow)
      ensures Saved(fb.Memory(), under[..]) ==
              DrawnCell(fb.Target(), old(Saved(fb.Memory(), under[..])), p, drawnX, drawnY, k)
    {
      var row, col := k / CURSOR, k % CURSOR;
      if col > row || row >= CURSOR - col / 2 {
        return;
      }
      var px, py := WrappedAdd(drawnX, col), WrappedAdd(drawnY, row);
      var saved := fb.GetPixel(px, py);
      under[k] := saved;
      fb.SetPixel(px, py, ArrowColour(p.background, p.title, row, col));
    }

    method Erase(fb: Surface)
      requires Valid() && fb.Valid() && fb.shadow != under
      modifies this`drawn, fb`x0, fb`y0, fb`x1, fb`y1, fb.device, fb.shadow
      ensures Valid() && fb.Valid() && fb.shadow == old(fb.shadow) && !drawn && under[..] == old(under[..])
      ensures fb.Memory() == if old(drawn)
                             then EraseFrom(fb.Target(), old(Saved(fb.Memory(), under[..])), drawnX, drawnY, 0).memory
                             else old(fb.Memory())
    {
      if !drawn {
        return;
      }
      ghost var target := EraseFrom(fb.Target(), Saved(fb.Memory(), under[..]), drawnX, drawnY, 0);
      for k := 0 to CELLS
        invariant Valid() && fb.Valid() && fb.shadow == old(fb.shadow) && under[..] == old(under[..])
        invariant EraseFrom(fb.Target(), Saved(fb.Memory(), under[..]), drawnX, drawnY, k) == target
      {
        EraseCell(fb, k);
      }
      drawn := false;
    }

    method EraseCell(fb: Surface, k: nat)
      requires Valid() && fb.Valid() && fb.shadow != under && k < CELLS
      modifies fb`x0, fb`y0, fb`x1, fb`y1, fb.device, fb.shadow
      ensures fb.Valid() && fb.shadow == old(fb.shadow)
      ensures Saved(fb.Memory(), under[..]) ==
              ErasedCell(fb.Target(), old(Saved(fb.Memory(), under[..])), drawnX, drawnY, k)
    {
      var row, col := k / CURSOR, k % CURSOR;
      if col > row || row >= CURSOR - col / 2 {
        return;
      }
      fb.SetPixel(WrappedAdd(drawnX, col), WrappedAdd(drawnY, row), under[k]);
    }
  }

  // Bytes and words are all a surface can hold.
  lemma SurfaceIsWellFormed(fb: Surface)
    requires fb.Valid()
    ensures WellFormed(fb.Target(), fb.Memory())
  {
    var l, memory := fb.Target(), fb.Memory();
    forall x, y | Inside(l, x, y) ensures IsCell(l.size, PixelAt(l, memory, x, y)) {
      CellInMemory(l, x, y);
    }
  }

  /** Drawn at one place, moved, then erased: the surface is as it was before. */
  method DrawMoveErase(cursor: Cursor, fb: Surface, p: Palette, x: int, y: int)
    requires cursor.Valid() && fb.Valid() && fb.shadow != cursor.under && IsI32(x) && IsI32(y)
    modifies cursor, cursor.under, fb`x0, fb`y0, fb`x1, fb`y1, fb.device, fb.shadow
    ensures fb.Valid() && fb.shadow == old(fb.shadow) && fb.Memory() == old(fb.Memory())
  {
    SurfaceIsWellFormed(fb);
    EraseUndoesDraw(fb.Target(), Saved(fb.Memory(), cursor.under[..]), p, cursor.x, cursor.y);
    cursor.Draw(fb, p);
    cursor.MoveTo(x, y);
    cursor.Erase(fb);
  }
}
