/** The framebuffer as the kernel runs it: stores into two arrays, and a damage box widened in place. */
module Framebuffer {
  import opened Common
  import opened Words
  import opened Pixels
  import opened Compositing

  class Surface {
    const g: Geometry
    const device: array<byte>
    // One word a pixel, or null for a surface drawn on directly.
    var shadow: array?<u32>
    var x0: u32
    var y0: u32
    var x1: u32
    var y1: u32

    ghost predicate Valid()
      reads this
    {
      && Usable(g) && device.Length == g.pitch * g.height
      && (shadow != null ==> shadow.Length == g.width * g.height)
    }

    constructor (g: Geometry, device: array<byte>)
      requires Usable(g) && device.Length == g.pitch * g.height
      ensures Valid() && this.g == g && this.device == device && shadow == null && Damage() == NO_DAMAGE
    {
      this.g := g;
      this.device := device;
      shadow := null;
      x0, y0, x1, y1 := U32_MAX, U32_MAX, 0, 0;
    }

    function Damage(): Box
      reads this
    {
      Box(x0, y0, x1, y1)
    }

    ghost function State(): Screen
      requires Valid() && shadow != null
      reads this, device, shadow
    {
      Screen(shadow[..], device[..], Damage())
    }

    // Where drawing goes: the back buffer if there is one, else the device.
    function Target(): Layout
      requires Valid()
      reads this
    {
      if shadow != null then Shadow(g) else Device(g)
    }

    ghost function Memory(): (m: seq<nat>)
      requires Valid()
      reads this, device, shadow
      ensures Fits(Target(), m)
    {
      if shadow != null then shadow[..] else device[..]
    }

    /** Drawing goes through the buffer from here on exactly if both dimensions allow it. */
    method AttachBackBuffer() returns (ok: bool)
      requires Valid()
      modifies this`shadow
      ensures Valid() && ok == (g.width <= 1920 && g.height <= 1200)
      ensures if ok then shadow != null && fresh(shadow) && ScreenFits(g, State()) else shadow == old(shadow)
    {
      if g.width > SHADOW_W || g.height > SHADOW_H {
        return false;
      }
      shadow := new u32[g.width * g.height](_ => 0);
      return true;
    }

    method Mark(x: u32, y: u32, w: u32, h: u32)
      requires Valid()
      modifies this`x0, this`y0, this`x1, this`y1
      ensures Damage() == Marked(old(Damage()), x, y, w, h)
    {
      x0 := Min(x0, x);
      y0 := Min(y0, y);
      x1 := Max(x1, SaturatingAdd(x, w));
      y1 := Max(y1, SaturatingAdd(y, h));
    }

    /** The device's bytes for this one pixel become the colour's encoding; no other byte changes. */
    method Store(x: u32, y: u32, colour: u32)
      requires Valid() && Inside(Device(g), x, y)
      modifies device
      ensures device[..] == PutPixel(Device(g), old(device[..]), x, y, colour)
    {
      CellInMemory(Device(g), x, y);
      var o := y * g.pitch + x * g.bytesPerPixel;
      match g.bytesPerPixel {
        case 4 => StoreFour(o, colour);
        case 3 => StoreThree(o, colour);
        case _ => StoreTwo(o, colour);
      }
    }

    method StoreFour(o: nat, colour: u32)
      requires o + 4 <= device.Length
      modifies device
      ensures device[..] == old(device[..o]) + Encode(4, colour) + old(device[o + 4..])
    {
      device[o], device[o + 1], device[o + 2], device[o + 3] :=
        colour % 256, colour / 256 % 256, colour / 0x1_0000 % 256, colour / 0x100_0000;
    }

    method StoreThree(o: nat, colour: u32)
      requires o + 3 <= device.Length
      modifies device
      ensures device[..] == old(device[..o]) + Encode(3, colour) + old(device[o + 3..])
    {
      device[o] := colour % 256;
      device[o + 1] := colour / 256 % 256;
      device[o + 2] := colour / 0x1_0000 % 256;
    }

    method StoreTwo(o: nat, colour: u32)
      requires o + 2 <= device.Length
      modifies device
      ensures device[..] == old(device[..o]) + Encode(2, colour) + old(device[o + 2..])
    {
      var packed := Packed(colour);
      device[o], device[o + 1] := packed % 256, packed / 256;
    }

    // Writes one word of the back buffer.
    method StoreShadow(x: u32, y: u32, colour: u32)
      requires Valid() && shadow != null && Inside(Shadow(g), x, y)
      modifies shadow
      ensures shadow[..] == PutPixel(Shadow(g), old(shadow[..]), x, y, colour)
    {
      CellInMemory(Shadow(g), x, y);
      shadow[y * g.width + x] := colour;
    }

    method SetPixel(x: u32, y: u32, colour: u32)
      requires Valid()
      modifies this`x0, this`y0, this`x1, this`y1, device, shadow
      ensures Valid() && shadow == old(shadow)
      ensures shadow != null ==> State() == Step(g, old(State()), Set(x, y, colour))
      ensures shadow == null ==>
                && device[..] == DirectStep(g, old(device[..]), Set(x, y, colour))
                && Damage() == old(Damage())
      ensures Memory() == SetAt(Target(), old(Memory()), x, y, colour)
    {
      if x >= g.width || y >= g.height {
        return;
      }
      if shadow != null {
        StoreShadow(x, y, colour);
        Mark(x, y, 1, 1);
        return;
      }
      Store(x, y, colour);
    }

    /** The colour that the device's bytes for this one pixel decode to. */
    method Load(x: u32, y: u32) returns (colour: nat)
      requires Valid() && Inside(Device(g), x, y)
      ensures IsCell(g.bytesPerPixel, PixelAt(Device(g), device[..], x, y))
      ensures colour == Decode(g.bytesPerPixel, PixelAt(Device(g), device[..], x, y))
    {
      CellInMemory(Device(g), x, y);
      var o := y * g.pitch + x * g.bytesPerPixel;
      assert PixelAt(Device(g), device[..], x, y) == device[o..o + g.bytesPerPixel];
      match g.bytesPerPixel {
        case 4 => colour := LoadFour(o);
        case 3 => colour := LoadThree(o);
        case _ => colour := LoadTwo(o);
      }
    }

    method LoadFour(o: nat) returns (colour: nat)
      requires o + 4 <= device.Length
      ensures IsCell(4, device[o..o + 4]) && colour == Decode(4, device[o..o + 4])
    {
      var b0: nat, b1: nat, b2: nat, b3: nat := device[o], device[o + 1], device[o + 2], device[o + 3];
      assert device[o..o + 4] == [b0, b1, b2, b3];
      colour := b0 + b1 * 256 + b2 * 0x1_0000 + b3 * 0x100_0000;
    }

    method LoadThree(o: nat) returns (colour: nat)
      requires o + 3 <= device.Length
      ensures IsCell(3, device[o..o + 3]) && colour == Decode(3, device[o..o + 3])
    {
      var b0: nat, b1: nat, b2: nat := device[o], device[o + 1], device[o + 2];
      assert device[o..o + 3] == [b0, b1, b2];
      colour := b0 + b1 * 256 + b2 * 0x1_0000;
    }

    method LoadTwo(o: nat) returns (colour: nat)
      requires o + 2 <= device.Length
      ensures IsCell(2, device[o..o + 2]) && colour == Decode(2, device[o..o + 2])
    {
      var b0: nat, b1: nat := device[o], device[o + 1];
      assert device[o..o + 2] == [b0, b1];
      var packed := b0 + b1 * 256;
      colour := packed / 2048 % 32 * 0x8_0000 + packed / 32 % 64 * 0x400 + packed % 32 * 8;
    }

    /** Reads one pixel back: zero off the surface, the buffer's word if there is one, else the device's colour. */
    method GetPixel(x: u32, y: u32) returns (colour: nat)
      requires Valid()
      ensures colour == GetAt(Target(), Memory(), x, y)
    {
      if x >= g.width || y >= g.height {
        return 0;
      }
      if shadow != null {
        CellInMemory(Shadow(g), x, y);
        return shadow[y * g.width + x];
      }
      colour := Load(x, y);
    }

    method FillRect(x: u32, y: u32, w: u32, h: u32, colour: u32)
      requires Valid()
      modifies this`x0, this`y0, this`x1, this`y1, device, shadow
      ensures Valid() && shadow == old(shadow)
      ensures shadow != null ==> State() == Step(g, old(State()), Fill(x, y, w, h, colour))
      ensures shadow == null ==>
                && device[..] == DirectStep(g, old(device[..]), Fill(x, y, w, h, colour))
                && Damage() == old(Damage())
    {
      if x >= g.width || y >= g.height || w == 0 || h == 0 {
        return;
      }
      var right, bottom := Right(g, x, w), Bottom(g, y, h);
      if shadow != null {
        FillShadow(x, y, right, bottom, colour);
        Mark(x, y, right - x, bottom - y);
        return;
      }
      FillDevice(x, y, right, bottom, colour);
    }

    method FillShadow(x: u32, y: u32, right: nat, bottom: nat, colour: u32)
      requires Valid() && shadow != null && x < right <= g.width && y < bottom <= g.height
      modifies shadow
      ensures shadow[..] == PutRect(Shadow(g), old(shadow[..]), Solid(colour), x, y, right, bottom)
    {
      ghost var source := Solid(colour);
      ghost var target := PutRect(Shadow(g), shadow[..], source, x, y, right, bottom);
      for row := y to bottom
        invariant PutRect(Shadow(g), shadow[..], source, x, row, right, bottom) == target
      {
        PutRectUnfolds(Shadow(g), shadow[..], source, x, row, right, bottom);
        FillShadowRow(x, row, right, colour);
      }
    }

    method FillShadowRow(x: u32, row: nat, right: nat, colour: u32)
      requires Valid() && shadow != null && x < right <= g.width && row < g.height
      modifies shadow
      ensures shadow[..] == PutRow(Shadow(g), old(shadow[..]), Solid(colour), row, x, right)
    {
      ghost var target := PutRow(Shadow(g), shadow[..], Solid(colour), row, x, right);
      for col := x to right
        invariant PutRow(Shadow(g), shadow[..], Solid(colour), row, col, right) == target
      {
        StoreShadow(col, row, colour);
      }
    }

    method FillDevice(x: u32, y: u32, right: nat, bottom: nat, colour: u32)
      requires Valid() && x < right <= g.width && y < bottom <= g.height
      modifies device
      ensures device[..] == PutRect(Device(g), old(device[..]), Solid(colour), x, y, right, bottom)
    {
      ghost var source := Solid(colour);
      ghost var target := PutRect(Device(g), device[..], source, x, y, right, bottom);
      for row := y to bottom
        invariant PutRect(Device(g), device[..], source, x, row, right, bottom) == target
      {
        ghost var before := device[..];
        PutRectUnfolds(Device(g), before, source, x, row, right, bottom);
        FillDeviceRow(x, row, right, colour);
        assert device[..] == PutRow(Device(g), before, source, row, x, right);
      }
    }

    method FillDeviceRow(x: u32, row: nat, right: nat, colour: u32)
      requires Valid() && x < right <= g.width && row < g.height
      modifies device
      ensures device[..] == PutRow(Device(g), old(device[..]), Solid(colour), row, x, right)
    {
      ghost var target := PutRow(Device(g), device[..], Solid(colour), row, x, right);
      for col := x to right
        invariant PutRow(Device(g), device[..], Solid(colour), row, col, right) == target
      {
        Store(col, row, colour);
      }
    }

    /** The device's pixels inside the clipped rectangle become the buffer's; with no buffer nothing changes. */
    method PresentArea(x: u32, y: u32, w: u32, h: u32)
      requires Valid()
      modifies device
      ensures Valid() && shadow == old(shadow) && Damage() == old(Damage())
      ensures shadow != null ==> State() == Step(g, old(State()), Present(x, y, w, h))
      ensures shadow == null ==> device[..] == old(device[..])
    {
      if shadow == null || w == 0 || h == 0 || x >= g.width || y >= g.height {
        return;
      }
      var right, bottom := Right(g, x, w), Bottom(g, y, h);
      ghost var source := Buffer(g.width, shadow[..]);
      ghost var target := PutRect(Device(g), device[..], source, x, y, right, bottom);
      for row := y to bottom
        invariant PutRect(Device(g), device[..], source, x, row, right, bottom) == target
      {
        PutRectUnfolds(Device(g), device[..], source, x, row, right, bottom);
        PresentRow(x, row, right);
      }
    }

    method PresentRow(x: u32, row: nat, right: nat)
      requires Valid() && shadow != null && x < right <= g.width && row < g.height
      modifies device
      ensures device[..] == PutRow(Device(g), old(device[..]), Buffer(g.width, shadow[..]), row, x, right)
    {
      ghost var source := Buffer(g.width, shadow[..]);
      ghost var target := PutRow(Device(g), device[..], source, row, x, right);
      for col := x to right
        invariant PutRow(Device(g), device[..], source, row, col, right) == target
      {
        CellInMemory(Shadow(g), col, row);
        var colour := shadow[row * g.width + col];
        Store(col, row, colour);
      }
    }

    /** Presents exactly the damage box, and leaves it empty. */
    method PresentDamaged()
      requires Valid()
      modifies this`x0, this`y0, this`x1, this`y1, device
      ensures Valid() && shadow == old(shadow) && Damage() == NO_DAMAGE
      ensures shadow != null ==> State() == Step(g, old(State()), PresentDamage)
      ensures shadow == null ==> device[..] == old(device[..])
    {
      var left, top, right, bottom := x0, y0, x1, y1;
      x0, y0, x1, y1 := U32_MAX, U32_MAX, 0, 0;
      if left >= right || top >= bottom {
        return;
      }
      PresentArea(left, top, right - left, bottom - top);
    }
  }
}
