/**
 Drawing through the back buffer, on values: what each operation does to the buffer, the device and
 the damage box, and why the device always ends up as if it had been drawn on directly.
 */
module Compositing {
  import opened Common
  import opened Words
  import opened Pixels

  const U32_MAX: nat := 0xFFFF_FFFF

  // Beyond either of these a mode is drawn without a back buffer.
  const SHADOW_W: nat := 1920
  const SHADOW_H: nat := 1200

  datatype Geometry = Geometry(width: nat, height: nat, pitch: nat, bytesPerPixel: nat)

  // A usable device; offsets into it are 32-bit, so it has to end below 4 GiB.
  predicate Usable(g: Geometry) {
    && 0 < g.width <= U32_MAX && 0 < g.height <= U32_MAX && 2 <= g.bytesPerPixel <= 4
    && g.width * g.bytesPerPixel <= g.pitch && g.pitch * g.height <= U32_MAX
  }

  function Device(g: Geometry): Layout {
    Layout(g.width, g.height, g.pitch, g.bytesPerPixel)
  }

  function Shadow(g: Geometry): Layout {
    Layout(g.width, g.height, g.width, 1)
  }

  /** The damage box, `[x0, x1) x [y0, y1)`; empty when `x0 >= x1` or `y0 >= y1`. */
  datatype Box = Box(x0: nat, y0: nat, x1: nat, y1: nat)

  const NO_DAMAGE := Box(U32_MAX, U32_MAX, 0, 0)

  predicate In(box: Box, x: nat, y: nat) {
    box.x0 <= x < box.x1 && box.y0 <= y < box.y1
  }

  function Max(a: nat, b: nat): nat {
    if a < b then b else a
  }

  function SaturatingAdd(a: nat, b: nat): nat {
    Min(a + b, U32_MAX)
  }

  function Marked(box: Box, x: nat, y: nat, w: nat, h: nat): Box {
    Box(Min(box.x0, x), Min(box.y0, y), Max(box.x1, SaturatingAdd(x, w)), Max(box.y1, SaturatingAdd(y, h)))
  }

  /** With a back buffer: its words, the device's bytes, and what has not been copied across. */
  datatype Screen = Screen(words: seq<nat>, device: seq<nat>, damage: Box)

  predicate ScreenFits(g: Geometry, s: Screen) {
    Usable(g) && Fits(Shadow(g), s.words) && Fits(Device(g), s.device)
  }

  function Right(g: Geometry, x: nat, w: nat): nat {
    Min(SaturatingAdd(x, w), g.width)
  }

  function Bottom(g: Geometry, y: nat, h: nat): nat {
    Min(SaturatingAdd(y, h), g.height)
  }

  datatype Op =
    | Set(x: u32, y: u32, colour: u32)
    | Fill(x: u32, y: u32, w: u32, h: u32, colour: u32)
    | Present(x: u32, y: u32, w: u32, h: u32)
    | PresentDamage

  function Clear(g: Geometry, colour: u32): Op
    requires Usable(g)
  {
    Fill(0, 0, g.width, g.height, colour)
  }

  // A rectangle operation touches nothing when it is empty or starts off the surface.
  predicate Nothing(g: Geometry, x: nat, y: nat, w: nat, h: nat) {
    x >= g.width || y >= g.height || w == 0 || h == 0
  }

  function PresentRect(g: Geometry, s: Screen, x: nat, y: nat, w: nat, h: nat): (t: Screen)
    requires ScreenFits(g, s)
    ensures ScreenFits(g, t)
  {
    if Nothing(g, x, y, w, h) then s
    else s.(device := PutRect(Device(g), s.device, Buffer(g.width, s.words), x, y, Right(g, x, w), Bottom(g, y, h)))
  }

  function Step(g: Geometry, s: Screen, op: Op): (t: Screen)
    requires ScreenFits(g, s)
    ensures ScreenFits(g, t)
  {
    match op
    case Set(x, y, c) =>
      if x >= g.width || y >= g.height then s
      else s.(words := PutPixel(Shadow(g), s.words, x, y, c), damage := Marked(s.damage, x, y, 1, 1))
    case Fill(x, y, w, h, c) =>
      if Nothing(g, x, y, w, h) then s
      else
        s.(words := PutRect(Shadow(g), s.words, Solid(c), x, y, Right(g, x, w), Bottom(g, y, h)),
           damage := Marked(s.damage, x, y, Right(g, x, w) - x, Bottom(g, y, h) - y))
    case Present(x, y, w, h) => PresentRect(g, s, x, y, w, h)
    case PresentDamage =>
      var d := s.damage;
      var t := s.(damage := NO_DAMAGE);
      if d.x0 >= d.x1 || d.y0 >= d.y1 then t
      else PresentRect(g, t, d.x0, d.y0, d.x1 - d.x0, d.y1 - d.y0)
  }

  /** The same operation on a bare device: drawing changes its bytes at once, presenting changes none. */
  function DirectStep(g: Geometry, device: seq<nat>, op: Op): (d: seq<nat>)
    requires Usable(g) && Fits(Device(g), device)
    ensures Fits(Device(g), d)
  {
    match op
    case Set(x, y, c) =>
      if x >= g.width || y >= g.height then device else PutPixel(Device(g), device, x, y, c)
    case Fill(x, y, w, h, c) =>
      if Nothing(g, x, y, w, h) then device
      else PutRect(Device(g), device, Solid(c), x, y, Right(g, x, w), Bottom(g, y, h))
    case _ => device
  }

  function Run(g: Geometry, s: Screen, ops: seq<Op>): (t: Screen)
    requires ScreenFits(g, s)
    ensures ScreenFits(g, t)
    decreases |ops|
  {
    if ops == [] then s else Run(g, Step(g, s, ops[0]), ops[1..])
  }

  function DirectRun(g: Geometry, device: seq<nat>, ops: seq<Op>): (d: seq<nat>)
    requires Usable(g) && Fits(Device(g), device)
    ensures Fits(Device(g), d)
    decreases |ops|
  {
    if ops == [] then device else DirectRun(g, DirectStep(g, device, ops[0]), ops[1..])
  }

  // ------------------------------------------------------------------------
  // The invariant
  // ------------------------------------------------------------------------

  // What the device would hold at (x, y) if the back buffer's pixel had been stored there.
  function Shown(g: Geometry, words: seq<nat>, x: nat, y: nat): seq<nat>
    requires Usable(g) && Fits(Shadow(g), words) && Inside(Device(g), x, y)
  {
    Encode(g.bytesPerPixel, PixelAt(Shadow(g), words, x, y)[0])
  }

  // Away from the damage, the device shows the back buffer.
  ghost predicate Agrees(g: Geometry, s: Screen)
    requires ScreenFits(g, s)
  {
    forall x, y :: Inside(Device(g), x, y) && !In(s.damage, x, y) ==>
      PixelAt(Device(g), s.device, x, y) == Shown(g, s.words, x, y)
  }

  // Everywhere, the directly drawn device shows the back buffer.
  ghost predicate DirectAgrees(g: Geometry, words: seq<nat>, direct: seq<nat>)
    requires Usable(g) && Fits(Shadow(g), words) && Fits(Device(g), direct)
  {
    forall x, y :: Inside(Device(g), x, y) ==> PixelAt(Device(g), direct, x, y) == Shown(g, words, x, y)
  }

  ghost predicate SamePadding(g: Geometry, a: seq<nat>, b: seq<nat>)
    requires Fits(Device(g), a) && Fits(Device(g), b)
  {
    forall i :: 0 <= i < |a| && Padding(Device(g), i) ==> a[i] == b[i]
  }

  lemma ShadowWord(g: Geometry, words: seq<nat>, x: nat, y: nat)
    requires Usable(g) && Fits(Shadow(g), words) && Inside(Shadow(g), x, y)
    ensures y * g.width + x < |words|
    ensures PixelAt(Shadow(g), words, x, y) == [words[y * g.width + x]]
    ensures ColourAt(Buffer(g.width, words), x, y) == words[y * g.width + x]
  {
    CellInMemory(Shadow(g), x, y);
  }

  // What one operation does to one pixel of the back buffer.
  function NewWord(g: Geometry, words: seq<nat>, op: Op, x: nat, y: nat): nat
    requires Usable(g) && Fits(Shadow(g), words) && Inside(Shadow(g), x, y)
  {
    if Covers(g, op, x, y) then op.colour else PixelAt(Shadow(g), words, x, y)[0]
  }

  // Whether an operation draws on pixel (x, y).
  predicate Covers(g: Geometry, op: Op, x: nat, y: nat) {
    match op
    case Set(x', y', _) => x == x' < g.width && y == y' < g.height
    case Fill(x', y', w, h, _) =>
      !Nothing(g, x', y', w, h) && x' <= x < Right(g, x', w) && y' <= y < Bottom(g, y', h)
    case _ => false
  }

  lemma StepWord(g: Geometry, s: Screen, op: Op, x: nat, y: nat)
    requires ScreenFits(g, s) && Inside(Shadow(g), x, y)
    ensures PixelAt(Shadow(g), Step(g, s, op).words, x, y) == [NewWord(g, s.words, op, x, y)]
  {
    match op {
      case Set(x', y', c) =>
        if x' < g.width && y' < g.height { PutPixelExact(Shadow(g), s.words, x', y', c, x, y); }
      case Fill(x', y', w, h, c) =>
        if !Nothing(g, x', y', w, h) {
          PutRectExact(Shadow(g), s.words, Solid(c), x', y', Right(g, x', w), Bottom(g, y', h), x, y);
        }
      case _ =>
    }
  }

  lemma DirectStepPixel(g: Geometry, device: seq<nat>, op: Op, x: nat, y: nat)
    requires Usable(g) && Fits(Device(g), device) && Inside(Device(g), x, y)
    ensures PixelAt(Device(g), DirectStep(g, device, op), x, y) ==
            if Covers(g, op, x, y) then Encode(g.bytesPerPixel, op.colour) else PixelAt(Device(g), device, x, y)
  {
    match op {
      case Set(x', y', c) =>
        if x' < g.width && y' < g.height { PutPixelExact(Device(g), device, x', y', c, x, y); }
      case Fill(x', y', w, h, c) =>
        if !Nothing(g, x', y', w, h) {
          PutRectExact(Device(g), device, Solid(c), x', y', Right(g, x', w), Bottom(g, y', h), x, y);
        }
      case _ =>
    }
  }

  // Presenting makes the device show the back buffer inside the rectangle, and changes nothing else.
  lemma PresentPixel(g: Geometry, s: Screen, x': nat, y': nat, w: nat, h: nat, x: nat, y: nat)
    requires ScreenFits(g, s) && Inside(Device(g), x, y)
    ensures PixelAt(Device(g), PresentRect(g, s, x', y', w, h).device, x, y) ==
            if !Nothing(g, x', y', w, h) && x' <= x < Right(g, x', w) && y' <= y < Bottom(g, y', h)
            then Shown(g, s.words, x, y) else PixelAt(Device(g), s.device, x, y)
  {
    if !Nothing(g, x', y', w, h) {
      ShadowWord(g, s.words, x, y);
      PutRectExact(Device(g), s.device, Buffer(g.width, s.words), x', y', Right(g, x', w), Bottom(g, y', h), x, y);
    }
  }

  // A pixel an operation draws on is damage afterwards; damage only grows until it is presented.
  lemma DamageCovers(g: Geometry, s: Screen, op: Op, x: nat, y: nat)
    requires ScreenFits(g, s) && Inside(Device(g), x, y) && op != PresentDamage
    ensures Covers(g, op, x, y) || In(s.damage, x, y) ==> In(Step(g, s, op).damage, x, y)
  {
  }

  lemma StepAgreesAt(g: Geometry, s: Screen, op: Op, x: nat, y: nat)
    requires ScreenFits(g, s) && Agrees(g, s) && Inside(Device(g), x, y)
    ensures var t := Step(g, s, op);
            !In(t.damage, x, y) ==> PixelAt(Device(g), t.device, x, y) == Shown(g, t.words, x, y)
  {
    StepWord(g, s, op, x, y);
    match op {
      case Present(x', y', w, h) => PresentPixel(g, s, x', y', w, h, x, y);
      case PresentDamage =>
        var d := s.damage;
        if d.x0 < d.x1 && d.y0 < d.y1 {
          PresentPixel(g, s.(damage := NO_DAMAGE), d.x0, d.y0, d.x1 - d.x0, d.y1 - d.y0, x, y);
        }
      case _ => DamageCovers(g, s, op, x, y);
    }
  }

  /** Every operation keeps the device showing the back buffer outside the damage box. */
  lemma StepAgrees(g: Geometry, s: Screen, op: Op)
    requires ScreenFits(g, s) && Agrees(g, s)
    ensures Agrees(g, Step(g, s, op))
  {
    forall x, y | Inside(Device(g), x, y) && !In(Step(g, s, op).damage, x, y)
      ensures PixelAt(Device(g), Step(g, s, op).device, x, y) == Shown(g, Step(g, s, op).words, x, y)
    {
      StepAgreesAt(g, s, op, x, y);
    }
  }

  lemma StepDirectAgrees(g: Geometry, s: Screen, direct: seq<nat>, op: Op)
    requires ScreenFits(g, s) && Fits(Device(g), direct) && DirectAgrees(g, s.words, direct)
    ensures DirectAgrees(g, Step(g, s, op).words, DirectStep(g, direct, op))
  {
    forall x, y | Inside(Device(g), x, y)
      ensures PixelAt(Device(g), DirectStep(g, direct, op), x, y) == Shown(g, Step(g, s, op).words, x, y)
    {
      StepWord(g, s, op, x, y);
      DirectStepPixel(g, direct, op, x, y);
    }
  }

  lemma StepPadding(g: Geometry, s: Screen, direct: seq<nat>, op: Op)
    requires ScreenFits(g, s) && Fits(Device(g), direct) && SamePadding(g, s.device, direct)
    ensures SamePadding(g, Step(g, s, op).device, DirectStep(g, direct, op))
  {
    forall i | 0 <= i < |s.device| && Padding(Device(g), i)
      ensures Step(g, s, op).device[i] == DirectStep(g, direct, op)[i]
    {
      match op {
        case Set(x, y, c) =>
          if x < g.width && y < g.height { PutPixelPadding(Device(g), direct, x, y, c, i); }
        case Fill(x, y, w, h, c) =>
          if !Nothing(g, x, y, w, h) {
            PutRectPadding(Device(g), direct, Solid(c), x, y, Right(g, x, w), Bottom(g, y, h), i);
          }
        case Present(x, y, w, h) => PresentPadding(g, s, x, y, w, h, i);
        case PresentDamage =>
          var d := s.damage;
          if d.x0 < d.x1 && d.y0 < d.y1 {
            PresentPadding(g, s.(damage := NO_DAMAGE), d.x0, d.y0, d.x1 - d.x0, d.y1 - d.y0, i);
          }
      }
    }
  }

  lemma PresentPadding(g: Geometry, s: Screen, x: nat, y: nat, w: nat, h: nat, i: nat)
    requires ScreenFits(g, s) && Padding(Device(g), i) && i < |s.device|
    ensures PresentRect(g, s, x, y, w, h).device[i] == s.device[i]
  {
    if !Nothing(g, x, y, w, h) {
      PutRectPadding(Device(g), s.device, Buffer(g.width, s.words), x, y, Right(g, x, w), Bottom(g, y, h), i);
    }
  }

  lemma {:induction false} RunAgrees(g: Geometry, s: Screen, direct: seq<nat>, ops: seq<Op>)
    requires ScreenFits(g, s) && Fits(Device(g), direct)
    requires Agrees(g, s) && DirectAgrees(g, s.words, direct) && SamePadding(g, s.device, direct)
    ensures var t, d := Run(g, s, ops), DirectRun(g, direct, ops);
            Agrees(g, t) && DirectAgrees(g, t.words, d) && SamePadding(g, t.device, d)
    decreases |ops|
  {
    if ops != [] {
      StepAgrees(g, s, ops[0]);
      StepDirectAgrees(g, s, direct, ops[0]);
      StepPadding(g, s, direct, ops[0]);
      RunAgrees(g, Step(g, s, ops[0]), DirectStep(g, direct, ops[0]), ops[1..]);
    }
  }

  // Clearing makes the whole surface damage, whatever the buffer and the device held before.
  lemma ClearEstablishes(g: Geometry, s: Screen, colour: u32)
    requires ScreenFits(g, s)
    ensures var t, d := Step(g, s, Clear(g, colour)), DirectStep(g, s.device, Clear(g, colour));
            Agrees(g, t) && DirectAgrees(g, t.words, d) && SamePadding(g, t.device, d)
  {
    var op := Clear(g, colour);
    var t, d := Step(g, s, op), DirectStep(g, s.device, op);
    forall x, y | Inside(Device(g), x, y)
      ensures In(t.damage, x, y) && PixelAt(Device(g), d, x, y) == Shown(g, t.words, x, y)
    {
      assert Covers(g, op, x, y);
      DamageCovers(g, s, op, x, y);
      StepWord(g, s, op, x, y);
      DirectStepPixel(g, s.device, op, x, y);
    }
    StepPadding(g, s, s.device, op);
  }

  lemma FullyPresented(g: Geometry, s: Screen, direct: seq<nat>)
    requires ScreenFits(g, s) && Fits(Device(g), direct)
    requires Agrees(g, s) && DirectAgrees(g, s.words, direct) && SamePadding(g, s.device, direct)
    requires s.damage == NO_DAMAGE
    ensures s.device == direct
  {
    forall x, y | Inside(Device(g), x, y)
      ensures PixelAt(Device(g), s.device, x, y) == PixelAt(Device(g), direct, x, y)
    {
      assert !In(s.damage, x, y);
    }
    SamePixelsSameMemory(Device(g), s.device, direct);
  }

  /**
   The back buffer is invisible. Start anywhere, clear, then run any `set`s, `fill`s and presents: the
   device always shows the back buffer outside the damage box, and once the damage is presented the
   device holds byte for byte what drawing straight onto it would have left, padding included.
   */
  lemma BackBufferIsInvisible(g: Geometry, s: Screen, colour: u32, ops: seq<Op>)
    requires ScreenFits(g, s)
    ensures var t := Run(g, Step(g, s, Clear(g, colour)), ops);
            && Agrees(g, t)
            && Step(g, t, PresentDamage).device == DirectRun(g, DirectStep(g, s.device, Clear(g, colour)), ops)
  {
    var t0, d0 := Step(g, s, Clear(g, colour)), DirectStep(g, s.device, Clear(g, colour));
    ClearEstablishes(g, s, colour);
    RunAgrees(g, t0, d0, ops);
    var t, d := Run(g, t0, ops), DirectRun(g, d0, ops);
    StepAgrees(g, t, PresentDamage);
    StepDirectAgrees(g, t, d, PresentDamage);
    StepPadding(g, t, d, PresentDamage);
    FullyPresented(g, Step(g, t, PresentDamage), d);
  }

  /** Forgetting the damage is harmless straight after the whole surface was presented by hand. */
  lemma DiscardAfterFullPresent(g: Geometry, s: Screen)
    requires ScreenFits(g, s)
    ensures Agrees(g, PresentRect(g, s, 0, 0, g.width, g.height).(damage := NO_DAMAGE))
  {
    var t := PresentRect(g, s, 0, 0, g.width, g.height);
    forall x, y | Inside(Device(g), x, y) ensures PixelAt(Device(g), t.device, x, y) == Shown(g, t.words, x, y) {
      PresentPixel(g, s, 0, 0, g.width, g.height, x, y);
    }
  }
}
