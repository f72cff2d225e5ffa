/**
 How far each drawing operation reaches, in whole numbers: which pixels of the back buffer and of the
 device it changes, and to what. A rectangle that runs past an edge, or past the end of the 32-bit
 range, is drawn as far as the surface goes.
 */
module DrawingExtent {
  import opened Common
  import opened Words
  import opened Pixels
  import opened Compositing

  // The clipped bounds say the same of a pixel on the surface as the unclipped ones, whose sums never wrap.
  lemma ClippingIsHarmless(g: Geometry, px: nat, py: nat, x: nat, y: nat, w: nat, h: nat)
    requires Usable(g) && px < g.width && py < g.height
    ensures (x <= px < x + w && y <= py < y + h) <==>
            (!Nothing(g, x, y, w, h) && x <= px < Right(g, x, w) && y <= py < Bottom(g, y, h))
  {
  }

  /** A pixel of the buffer is one word, in rows of the surface's width. */
  lemma WordLies(g: Geometry, words: seq<nat>, px: nat, py: nat)
    requires Usable(g) && Fits(Shadow(g), words) && px < g.width && py < g.height
    ensures var i := py * g.width + px; i < |words| && PixelAt(Shadow(g), words, px, py) == [words[i]]
  {
    ShadowWord(g, words, px, py);
  }

  /** Byte `k` of a device pixel lies that far into its cell, in rows of the device's pitch. */
  lemma ByteLies(g: Geometry, device: seq<nat>, px: nat, py: nat, k: nat)
    requires Usable(g) && Fits(Device(g), device) && px < g.width && py < g.height && k < g.bytesPerPixel
    ensures var i := py * g.pitch + px * g.bytesPerPixel + k;
            i < |device| && PixelAt(Device(g), device, px, py)[k] == device[i]
  {
    CellInMemory(Device(g), px, py);
  }

  /** A filled rectangle holds the colour, and every other pixel of the buffer keeps what it held. */
  lemma FillReaches(g: Geometry, s: Screen, x: u32, y: u32, w: u32, h: u32, c: u32, px: nat, py: nat)
    requires ScreenFits(g, s) && px < g.width && py < g.height
    ensures PixelAt(Shadow(g), Step(g, s, Fill(x, y, w, h, c)).words, px, py) ==
            if x <= px < x + w && y <= py < y + h then [c] else PixelAt(Shadow(g), s.words, px, py)
    ensures Step(g, s, Fill(x, y, w, h, c)).device == s.device
  {
    StepWord(g, s, Fill(x, y, w, h, c), px, py);
    ClippingIsHarmless(g, px, py, x, y, w, h);
  }

  /** The same on a bare device, in the bytes of its format. */
  lemma DirectFillReaches(g: Geometry, device: seq<nat>, x: u32, y: u32, w: u32, h: u32, c: u32, px: nat, py: nat)
    requires Usable(g) && Fits(Device(g), device) && px < g.width && py < g.height
    ensures PixelAt(Device(g), DirectStep(g, device, Fill(x, y, w, h, c)), px, py) ==
            if x <= px < x + w && y <= py < y + h then Encode(g.bytesPerPixel, c)
            else PixelAt(Device(g), device, px, py)
  {
    DirectStepPixel(g, device, Fill(x, y, w, h, c), px, py);
    ClippingIsHarmless(g, px, py, x, y, w, h);
  }

  /** One pixel set: that one alone, and nothing when it is off the surface. */
  lemma SetReaches(g: Geometry, s: Screen, x: u32, y: u32, c: u32, px: nat, py: nat)
    requires ScreenFits(g, s) && px < g.width && py < g.height
    ensures PixelAt(Shadow(g), Step(g, s, Set(x, y, c)).words, px, py) ==
            if px == x && py == y then [c] else PixelAt(Shadow(g), s.words, px, py)
    ensures Step(g, s, Set(x, y, c)).device == s.device
    ensures PixelAt(Device(g), DirectStep(g, s.device, Set(x, y, c)), px, py) ==
            if px == x && py == y then Encode(g.bytesPerPixel, c) else PixelAt(Device(g), s.device, px, py)
  {
    StepWord(g, s, Set(x, y, c), px, py);
    DirectStepPixel(g, s.device, Set(x, y, c), px, py);
  }

  // Presenting a rectangle gives its device pixels the buffer's colours.
  lemma PresentRectReaches(g: Geometry, s: Screen, x: nat, y: nat, w: nat, h: nat, px: nat, py: nat)
    requires ScreenFits(g, s) && px < g.width && py < g.height
    ensures PixelAt(Device(g), PresentRect(g, s, x, y, w, h).device, px, py) ==
            if x <= px < x + w && y <= py < y + h
            then Encode(g.bytesPerPixel, PixelAt(Shadow(g), s.words, px, py)[0])
            else PixelAt(Device(g), s.device, px, py)
  {
    PresentPixel(g, s, x, y, w, h, px, py);
    ClippingIsHarmless(g, px, py, x, y, w, h);
  }

  /** Presenting carries its rectangle across, no more and no less, and leaves the buffer and the damage alone. */
  lemma PresentReaches(g: Geometry, s: Screen, x: u32, y: u32, w: u32, h: u32, px: nat, py: nat)
    requires ScreenFits(g, s) && px < g.width && py < g.height
    ensures var t := Step(g, s, Present(x, y, w, h));
            && t.words == s.words && t.damage == s.damage
            && PixelAt(Device(g), t.device, px, py) ==
               if x <= px < x + w && y <= py < y + h
               then Encode(g.bytesPerPixel, PixelAt(Shadow(g), s.words, px, py)[0])
               else PixelAt(Device(g), s.device, px, py)
  {
    PresentRectReaches(g, s, x, y, w, h, px, py);
  }

  /** Presenting the damage carries the damage box across, no more and no less, and empties it. */
  lemma PresentDamageReaches(g: Geometry, s: Screen, px: nat, py: nat)
    requires ScreenFits(g, s) && px < g.width && py < g.height
    ensures var t := Step(g, s, PresentDamage);
            && t.words == s.words && t.damage == Box(U32_MAX, U32_MAX, 0, 0)
            && PixelAt(Device(g), t.device, px, py) ==
               if s.damage.x0 <= px < s.damage.x1 && s.damage.y0 <= py < s.damage.y1
               then Encode(g.bytesPerPixel, PixelAt(Shadow(g), s.words, px, py)[0])
               else PixelAt(Device(g), s.device, px, py)
  {
    var d := s.damage;
    if d.x0 < d.x1 && d.y0 < d.y1 {
      PresentRectReaches(g, s.(damage := NO_DAMAGE), d.x0, d.y0, d.x1 - d.x0, d.y1 - d.y0, px, py);
    }
  }

  predicate Encloses(a: Box, b: Box) {
    a.x0 <= b.x0 && a.y0 <= b.y0 && b.x1 <= a.x1 && b.y1 <= a.y1
  }

  /** The damage after a fill is the smallest box around the damage before and the pixels filled. */
  lemma DamageIsTight(g: Geometry, s: Screen, x: u32, y: u32, w: u32, h: u32, c: u32, box: Box)
    requires ScreenFits(g, s) && Encloses(box, s.damage)
    requires forall px: nat, py: nat ::
      px < g.width && py < g.height && x <= px < x + w && y <= py < y + h ==> In(box, px, py)
    ensures Encloses(Step(g, s, Fill(x, y, w, h, c)).damage, s.damage)
    ensures Encloses(box, Step(g, s, Fill(x, y, w, h, c)).damage)
  {
    if !Nothing(g, x, y, w, h) {
      assert In(box, x, y) && In(box, Right(g, x, w) - 1, Bottom(g, y, h) - 1);
    }
  }

  /** A clear leaves one colour everywhere, and all of it to be presented. */
  lemma ClearReachesAll(g: Geometry, s: Screen, c: u32, px: nat, py: nat)
    requires ScreenFits(g, s) && px < g.width && py < g.height
    ensures var t := Step(g, s, Clear(g, c));
            && PixelAt(Shadow(g), t.words, px, py) == [c]
            && t.damage.x0 <= px < t.damage.x1 && t.damage.y0 <= py < t.damage.y1
  {
    FillReaches(g, s, 0, 0, g.width, g.height, c, px, py);
    DamageCovers(g, s, Clear(g, c), px, py);
  }
}
