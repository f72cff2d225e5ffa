/** The text console of last resort, as a window onto a console that never scrolls. */
module VgaConsole {
  import opened Common

  const WIDTH: nat := 80
  const HEIGHT: nat := 25
  const CELLS: nat := WIDTH * HEIGHT
  const ATTRIBUTE: nat := 0x0700
  const BLANK: nat := ATTRIBUTE + 32

  const NEWLINE: byte := 10
  const RETURN: byte := 13

  // ------------------------------------------------------------------------
  // The screen
  // ------------------------------------------------------------------------

  datatype Screen = Screen(cells: seq<nat>, cursor: nat)

  predicate Shape(s: Screen) {
    |s.cells| == CELLS && s.cursor < CELLS
  }

  function Activated(): Screen {
    Screen(seq(CELLS, _ => BLANK), 0)
  }

  function Scrolled(cells: seq<nat>): (r: seq<nat>)
    requires |cells| == CELLS
    ensures |r| == CELLS
  {
    cells[WIDTH..] + seq(WIDTH, _ => BLANK)
  }

  function Put(s: Screen, byte_: byte): (t: Screen)
    requires Shape(s)
    ensures Shape(t)
  {
    var cells := if byte_ == NEWLINE || byte_ == RETURN then s.cells else s.cells[s.cursor := ATTRIBUTE + byte_];
    var cursor :=
      if byte_ == NEWLINE then (s.cursor / WIDTH + 1) * WIDTH
      else if byte_ == RETURN then s.cursor / WIDTH * WIDTH
      else s.cursor + 1;
    if cursor >= CELLS then Screen(Scrolled(cells), WIDTH * (HEIGHT - 1)) else Screen(cells, cursor)
  }

  function PutAll(s: Screen, bytes: seq<byte>): (t: Screen)
    requires Shape(s)
    ensures Shape(t)
    decreases |bytes|
  {
    if bytes == [] then s else PutAll(Put(s, bytes[0]), bytes[1..])
  }

  // ------------------------------------------------------------------------
  // The console that never scrolls
  // ------------------------------------------------------------------------

  /** Cells written so far, at positions counted from the first line ever shown. */
  datatype Endless = Endless(written: map<nat, nat>, cursor: nat)

  function At(e: Endless, i: nat): nat {
    if i in e.written then e.written[i] else BLANK
  }

  function Type(e: Endless, byte_: byte): Endless {
    if byte_ == NEWLINE then e.(cursor := (e.cursor / WIDTH + 1) * WIDTH)
    else if byte_ == RETURN then e.(cursor := e.cursor / WIDTH * WIDTH)
    else Endless(e.written[e.cursor := ATTRIBUTE + byte_], e.cursor + 1)
  }

  function TypeAll(e: Endless, bytes: seq<byte>): Endless
    decreases |bytes|
  {
    if bytes == [] then e else TypeAll(Type(e, bytes[0]), bytes[1..])
  }

  // The first of the last `HEIGHT` lines.
  function TopLine(e: Endless): nat {
    if e.cursor / WIDTH < HEIGHT then 0 else e.cursor / WIDTH - (HEIGHT - 1)
  }

  ghost predicate IsWindow(s: Screen, e: Endless) {
    && Shape(s)
    && e.cursor == TopLine(e) * WIDTH + s.cursor
    && forall i :: 0 <= i < CELLS ==> s.cells[i] == At(e, TopLine(e) * WIDTH + i)
  }

  // Nothing has been written below the cursor's line.
  ghost predicate BlankBelow(e: Endless) {
    forall i :: i in e.written ==> i / WIDTH <= e.cursor / WIDTH
  }

  // The screen one byte later, before it is known whether it must scroll.
  lemma LineArithmetic(top: nat, cursor: nat)
    ensures (top * WIDTH + cursor) / WIDTH == top + cursor / WIDTH
    ensures ((top * WIDTH + cursor) / WIDTH + 1) * WIDTH == top * WIDTH + (cursor / WIDTH + 1) * WIDTH
    ensures (top * WIDTH + cursor) / WIDTH * WIDTH == top * WIDTH + cursor / WIDTH * WIDTH
  {
  }

  lemma TypeKeepsBlankBelow(e: Endless, byte_: byte)
    requires BlankBelow(e)
    ensures BlankBelow(Type(e, byte_)) && e.cursor / WIDTH <= Type(e, byte_).cursor / WIDTH <= e.cursor / WIDTH + 1
  {
    LineArithmetic(e.cursor / WIDTH, e.cursor % WIDTH);
  }

  // The cells after one byte, seen from the old top line.
  lemma WrittenSeen(s: Screen, e: Endless, byte_: byte, i: nat)
    requires IsWindow(s, e) && i < CELLS
    ensures var cells := if byte_ == NEWLINE || byte_ == RETURN then s.cells
                         else s.cells[s.cursor := ATTRIBUTE + byte_];
            cells[i] == At(Type(e, byte_), TopLine(e) * WIDTH + i)
  {
  }

  // Where one byte moves the cursor to, seen from the old top line.
  function Moved(cursor: nat, byte_: byte): nat {
    if byte_ == NEWLINE then (cursor / WIDTH + 1) * WIDTH
    else if byte_ == RETURN then cursor / WIDTH * WIDTH
    else cursor + 1
  }

  lemma CursorFollows(s: Screen, e: Endless, byte_: byte)
    requires IsWindow(s, e)
    ensures var cursor := Moved(s.cursor, byte_);
            && cursor <= CELLS && Type(e, byte_).cursor == TopLine(e) * WIDTH + cursor
            && TopLine(Type(e, byte_)) == if cursor == CELLS then TopLine(e) + 1 else TopLine(e)
  {
    var top, cursor := TopLine(e), Moved(s.cursor, byte_);
    LineArithmetic(top, s.cursor);
    LineArithmetic(top, cursor);
    assert e.cursor / WIDTH == top + s.cursor / WIDTH;
  }

  lemma PutScrolls(s: Screen, e: Endless, byte_: byte, i: nat)
    requires IsWindow(s, e) && BlankBelow(e) && Moved(s.cursor, byte_) == CELLS && i < CELLS
    ensures Put(s, byte_).cells[i] == At(Type(e, byte_), (TopLine(e) + 1) * WIDTH + i)
  {
    CursorFollows(s, e, byte_);
    if i + WIDTH < CELLS {
      WrittenSeen(s, e, byte_, i + WIDTH);
    } else {
      // The line that scrolls in: the byte was written above it, like everything before.
      LineArithmetic(TopLine(e) + 1, i);
      LineArithmetic(TopLine(e), s.cursor);
      assert (TopLine(e) + 1) * WIDTH + i !in Type(e, byte_).written;
    }
  }

  // The cells of the new screen, one at a time, from wherever its top line now is.
  lemma PutCell(s: Screen, e: Endless, byte_: byte, i: nat)
    requires IsWindow(s, e) && BlankBelow(e) && i < CELLS
    ensures Put(s, byte_).cells[i] == At(Type(e, byte_), TopLine(Type(e, byte_)) * WIDTH + i)
  {
    CursorFollows(s, e, byte_);
    if Moved(s.cursor, byte_) == CELLS { PutScrolls(s, e, byte_, i); } else { WrittenSeen(s, e, byte_, i); }
  }

  lemma PutCursor(s: Screen, e: Endless, byte_: byte)
    requires IsWindow(s, e)
    ensures var s' := Put(s, byte_);
            Shape(s') && Type(e, byte_).cursor == TopLine(Type(e, byte_)) * WIDTH + s'.cursor
  {
    CursorFollows(s, e, byte_);
  }

  lemma PutIsWindow(s: Screen, e: Endless, byte_: byte)
    requires IsWindow(s, e) && BlankBelow(e)
    ensures IsWindow(Put(s, byte_), Type(e, byte_)) && BlankBelow(Type(e, byte_))
  {
    TypeKeepsBlankBelow(e, byte_);
    PutCursor(s, e, byte_);
    var e' := Type(e, byte_);
    forall i: nat | i < CELLS ensures Put(s, byte_).cells[i] == At(e', TopLine(e') * WIDTH + i) {
      PutCell(s, e, byte_, i);
    }
  }

  lemma {:induction false} PutAllIsWindow(s: Screen, e: Endless, bytes: seq<byte>)
    requires IsWindow(s, e) && BlankBelow(e)
    ensures IsWindow(PutAll(s, bytes), TypeAll(e, bytes)) && BlankBelow(TypeAll(e, bytes))
    decreases |bytes|
  {
    if bytes != [] {
      PutIsWindow(s, e, bytes[0]);
      PutAllIsWindow(Put(s, bytes[0]), Type(e, bytes[0]), bytes[1..]);
    }
  }

  /**
   For every byte sequence after activation the cursor is on the grid, and the screen is exactly the
   last twenty-five lines of what a console that never scrolled would show.
   */
  lemma ScreenIsLastLines(bytes: seq<byte>)
    ensures IsWindow(PutAll(Activated(), bytes), TypeAll(Endless(map[], 0), bytes))
    ensures forall i :: 0 <= i < |Activated().cells| ==> Activated().cells[i] == 0x720
  {
    PutAllIsWindow(Activated(), Endless(map[], 0), bytes);
  }

  function Shown(text: seq<byte>): seq<nat> {
    seq(|text|, i requires 0 <= i < |text| => text[i] as nat + 0x700)
  }

  /** Text without line ends that fits before the end of the screen stands in the cells from the cursor on. */
  lemma {:induction false} TextIsShown(s: Screen, text: seq<byte>)
    requires Shape(s) && s.cursor + |text| < 2000
    requires forall i :: 0 <= i < |text| ==> text[i] != 10 && text[i] != 13
    ensures PutAll(s, text) ==
            Screen(s.cells[..s.cursor] + Shown(text) + s.cells[s.cursor + |text|..], s.cursor + |text|)
    decreases |text|
  {
    if text == [] {
      assert s.cells == s.cells[..s.cursor] + Shown(text) + s.cells[s.cursor..];
    } else {
      var t := Put(s, text[0]);
      TextIsShown(t, text[1..]);
      assert t.cells[..t.cursor] + Shown(text[1..]) == s.cells[..s.cursor] + Shown(text);
      assert t.cells[t.cursor + |text[1..]|..] == s.cells[s.cursor + |text|..];
    }
  }

  // ------------------------------------------------------------------------
  // The console in place
  // ------------------------------------------------------------------------

  class Console {
    const buffer: array<nat>
    var cursor: nat
    var active: bool

    ghost predicate Valid()
      reads this
    {
      buffer.Length == CELLS && (active ==> cursor < CELLS)
    }

    ghost function State(): Screen
      reads this, buffer
    {
      Screen(buffer[..], cursor)
    }

    constructor (buffer: array<nat>)
      requires buffer.Length == CELLS
      ensures Valid() && !active && this.buffer == buffer
    {
      this.buffer := buffer;
      cursor, active := 0, false;
    }

    method Activate()
      requires Valid()
      modifies this, buffer
      ensures Valid() && active && State() == Activated()
    {
      for i := 0 to CELLS
        invariant buffer[..i] == seq(i, _ => BLANK)
      {
        buffer[i] := BLANK;
      }
      cursor, active := 0, true;
    }

    method PutByte(byte_: byte)
      requires Valid()
      modifies this`cursor, buffer
      ensures Valid()
      ensures State() == if active then Put(old(State()), byte_) else old(State())
    {
      if !active {
        return;
      }
      if byte_ == NEWLINE {
        cursor := (cursor / WIDTH + 1) * WIDTH;
      } else if byte_ == RETURN {
        cursor := cursor / WIDTH * WIDTH;
      } else {
        buffer[cursor] := ATTRIBUTE + byte_;
        cursor := cursor + 1;
      }
      if cursor >= CELLS {
        Scroll();
        cursor := WIDTH * (HEIGHT - 1);
      }
    }

    method Scroll()
      requires buffer.Length == CELLS
      modifies buffer
      ensures buffer[..] == Scrolled(old(buffer[..]))
    {
      ghost var before := buffer[..];
      for row := 1 to HEIGHT
        invariant forall k :: 0 <= k < (row - 1) * WIDTH ==> buffer[k] == before[k + WIDTH]
        invariant forall k :: (row - 1) * WIDTH <= k < CELLS ==> buffer[k] == before[k]
      {
        for col := 0 to WIDTH
          invariant forall k :: 0 <= k < (row - 1) * WIDTH + col ==> buffer[k] == before[k + WIDTH]
          invariant forall k :: (row - 1) * WIDTH + col <= k < CELLS ==> buffer[k] == before[k]
        {
          buffer[(row - 1) * WIDTH + col] := buffer[row * WIDTH + col];
        }
      }
      for col := 0 to WIDTH
        invariant forall k :: 0 <= k < CELLS - WIDTH ==> buffer[k] == before[k + WIDTH]
        invariant forall k :: CELLS - WIDTH <= k < CELLS - WIDTH + col ==> buffer[k] == BLANK
      {
        buffer[(HEIGHT - 1) * WIDTH + col] := BLANK;
      }
    }
  }
}
