/** What the drawing puts in a pixel, from the words of its command to the fields of its halfword. */
module RasterPixels {
  import opened Words
  import opened RasterGeometry
  import opened RasterFill
  import opened RasterPlane
  import opened RasterLine
  import opened RasterDraw

  // ---- which pixels: the rule that favours top and left ----

  /** A rectangle drawn as a quad takes its top row and left column and leaves its bottom row and right column. */
  lemma BoxIsHalfOpen(a: Vertex, b: Vertex, c: Vertex, d: Vertex, x: int, y: int)
    requires a.x == c.x < b.x == d.x && a.y == b.y < c.y == d.y
    ensures Covered(Triangle(a, b, c), x, y) || Covered(Triangle(b, c, d), x, y) <==> a.x <= x < b.x && a.y <= y < c.y
  {
    var w, h := b.x - a.x, c.y - a.y;
    MulMono(1, w, h);
    assert Convex(a, b, d, c) by {
      assert w * h == h * w;
    }
    ConvexSplits(a, b, d, c);
    SidesOfBox(a, b, c, d, x, y);
    QuadPartition(a, b, c, d, x, y);
  }

  lemma SidesOfBox(a: Vertex, b: Vertex, c: Vertex, d: Vertex, x: int, y: int)
    requires a.x == c.x < b.x == d.x && a.y == b.y < c.y == d.y
    ensures PassesOutline(a, b, d, c, x, y) <==> a.x <= x < b.x && a.y <= y < c.y
  {
    SignOf(b.x - a.x, y - a.y);
    SignOf(b.x - a.x, d.y - y);
    SignOf(c.y - a.y, x - a.x);
    SignOf(c.y - a.y, d.x - x);
    assert Edge(a, b, x, y) == (b.x - a.x) * (y - a.y);
    assert Edge(d, c, x, y) == (b.x - a.x) * (d.y - y);
    assert Edge(b, d, x, y) == (c.y - a.y) * (d.x - x);
    assert Edge(c, a, x, y) == (c.y - a.y) * (x - a.x);
  }

  lemma SignOf(a: int, b: int)
    requires a > 0
    ensures (a * b >= 0 <==> b >= 0) && (a * b >= 1 <==> b >= 1)
  {
    if b >= 1 { MulMono(1, b, a); } else if b <= -1 { MulMono(b, -1, a); }
  }

  /** Inside all three edges a pixel is always drawn; outside any of them never. */
  lemma InsideIsCovered(t: Triangle, x: int, y: int)
    ensures var p, q, r := Edge(t.b, t.c, x, y), Edge(t.c, t.a, x, y), Edge(t.a, t.b, x, y);
            && ((p > 0 && q > 0 && r > 0) || (p < 0 && q < 0 && r < 0) ==> Covered(t, x, y))
            && (Covered(t, x, y) ==> (p >= 0 && q >= 0 && r >= 0) || (p <= 0 && q <= 0 && r <= 0))
  {
    WeightsSum(t, x, y);
    AreaTurned(t);
    EdgeReversed(t.a, t.b, x, y);
    EdgeReversed(t.b, t.c, x, y);
    EdgeReversed(t.c, t.a, x, y);
    hide Edge;
  }

  // ---- which colour ----

  /** An opaque pixel keeps the top five bits of each byte of the command's colour, red lowest, and the mark it was told to. */
  lemma ColourStored(s: DrawState, behind: U16, x: nat, y: nat, colour: U32)
    requires !(s.checkMask && behind >= 0x8000) && !s.dither
    ensures var p := Painted(s, behind, x, y, FromCommand(colour), false);
            && p % 0x20 == colour % 0x100 / 8
            && p / 0x20 % 0x20 == colour / 0x100 % 0x100 / 8
            && p / 0x400 % 0x20 == colour / 0x1_0000 % 0x100 / 8
            && (p >= 0x8000 <==> s.setMask)
  {
    PixelFields(FromCommand(colour), 0, s.setMask);
    hide ToPixel;
  }

  /** The fields of a halfword the drawing makes. */
  lemma PixelFields(c: Rgb, offset: int, marked: bool)
    ensures var p := ToPixel(c, offset) + (if marked then 0x8000 else 0);
            && p % 0x20 == FiveBits(c.r, offset) && p / 0x20 % 0x20 == FiveBits(c.g, offset) && p / 0x400 % 0x20 == FiveBits(c.b, offset)
            && (p >= 0x8000 <==> marked)
  {
    FieldFits(c.r, offset);
    FieldFits(c.g, offset);
    FieldFits(c.b, offset);
    hide FiveBits;
    FieldsOf(FiveBits(c.r, offset), FiveBits(c.g, offset), FiveBits(c.b, offset), marked);
  }

  lemma FieldFits(value: nat, offset: int)
    ensures FiveBits(value, offset) < 0x20
  {
  }

  /** A protected pixel is left as it was, whatever is drawn on it. */
  lemma ProtectedStands(s: DrawState, behind: U16, x: nat, y: nat, colour: Rgb, translucent: bool)
    requires s.checkMask && behind >= 0x8000
    ensures Painted(s, behind, x, y, colour, translucent) == behind
  {
  }

  /** Dithering adds the place's own offset before the low bits go, and so moves a channel by at most one step of the thirty-two. */
  lemma DitherMovesOneStep(s: DrawState, behind: U16, x: nat, y: nat, colour: U32)
    requires !(s.checkMask && behind >= 0x8000) && s.dither
    ensures var p := Painted(s, behind, x, y, FromCommand(colour), false);
            && p % 0x20 == Clamp(colour % 0x100 + Dither(x, y), 0, 0xFF) / 8
            && p / 0x20 % 0x20 == Clamp(colour / 0x100 % 0x100 + Dither(x, y), 0, 0xFF) / 8
            && p / 0x400 % 0x20 == Clamp(colour / 0x1_0000 % 0x100 + Dither(x, y), 0, 0xFF) / 8
            && Abs(p % 0x20 - colour % 0x100 / 8) <= 1 && Abs(p / 0x20 % 0x20 - colour / 0x100 % 0x100 / 8) <= 1
            && Abs(p / 0x400 % 0x20 - colour / 0x1_0000 % 0x100 / 8) <= 1
  {
    hide Dither, FiveBits, ToPixel;
    DitherRange(x, y);
    OneStep(colour % 0x100, Dither(x, y));
    OneStep(colour / 0x100 % 0x100, Dither(x, y));
    OneStep(colour / 0x1_0000 % 0x100, Dither(x, y));
    PixelFields(FromCommand(colour), Dither(x, y), s.setMask);
  }

  lemma OneStep(value: nat, offset: int)
    requires value < 0x100 && -4 <= offset <= 3
    ensures FiveBits(value, offset) == Clamp(value + offset, 0, 0xFF) / 8 < 0x20
    ensures Abs(FiveBits(value, offset) - value / 8) <= 1
  {
  }

  lemma DitherRange(x: nat, y: nat)
    ensures -4 <= Dither(x, y) <= 3
  {
  }

  /** In any two rows that begin on an even one each of the eight offsets occurs once to four pixels, and the pattern repeats two on and two down. */
  lemma DitherSpreads(x: nat, y: nat)
    ensures Dither(x + 2, y + 2) == Dither(x, y)
    ensures y % 2 == 0 ==>
              {Dither(0, y), Dither(1, y), Dither(2, y), Dither(3, y), Dither(0, y + 1), Dither(1, y + 1), Dither(2, y + 1), Dither(3, y + 1)} ==
              {-4, -3, -2, -1, 0, 1, 2, 3}
    ensures y % 2 == 0 && x % 2 == 0 ==> Dither(x, y) < Dither(x + 1, y)
    ensures y % 2 == 1 && x % 2 == 0 ==> Dither(x, y) > Dither(x + 1, y)
    ensures Dither(0, 0) == -4 && Dither(1, 0) == 0
  {
    if y % 4 == 0 {} else if y % 4 == 1 {} else if y % 4 == 2 {} else {}
    if x % 4 == 0 {} else if x % 4 == 1 {} else if x % 4 == 2 {} else {}
  }

  /** What blending makes of one channel: five bits behind, eight in front, five out. */
  function BlendedFive(mode: nat, behind: nat, front: nat): int {
    match mode
    case 0 => (8 * behind + front) / 16
    case 1 => Min(31, behind + front / 8)
    case 2 => Max(0, 8 * behind - front) / 8
    case _ => Min(31, behind + front / 32)
  }

  /** A translucent pixel, channel by channel, in each of the four modes. */
  lemma BlendStored(s: DrawState, behind: U16, x: nat, y: nat, colour: U32)
    requires !(s.checkMask && behind >= 0x8000) && !s.dither
    ensures var p := Painted(s, behind, x, y, FromCommand(colour), true);
            && p % 0x20 == BlendedFive(s.blendMode, behind % 0x20, colour % 0x100)
            && p / 0x20 % 0x20 == BlendedFive(s.blendMode, behind / 0x20 % 0x20, colour / 0x100 % 0x100)
            && p / 0x400 % 0x20 == BlendedFive(s.blendMode, behind / 0x400 % 0x20, colour / 0x1_0000 % 0x100)
            && (p >= 0x8000 <==> s.setMask)
  {
    hide BlendChannel, BlendedFive, FiveBits, ToPixel;
    var r, g, b := colour % 0x100, colour / 0x100 % 0x100, colour / 0x1_0000 % 0x100;
    PixelFields(Blend(s.blendMode, FromPixel(behind), FromCommand(colour)), 0, s.setMask);
    BlendedChannel(s.blendMode, behind % 0x20, r);
    BlendedChannel(s.blendMode, behind / 0x20 % 0x20, g);
    BlendedChannel(s.blendMode, behind / 0x400 % 0x20, b);
  }

  lemma BlendedChannel(mode: nat, behind: nat, front: nat)
    requires behind < 0x20 && front < 0x100
    ensures FiveBits(BlendChannel(mode, behind * 8, front), 0) == BlendedFive(mode, behind, front)
  {
    match mode {
      case 0 => HalfEach(behind, front);
      case 1 => Added(behind, front, 1);
      case 2 => Taken(behind, front);
      case _ => Added(behind, front, 4);
    }
  }

  lemma HalfEach(behind: nat, front: nat)
    requires behind < 0x20 && front < 0x100
    ensures FiveBits(behind * 8 / 2 + front / 2, 0) == (8 * behind + front) / 16
  {
    var q, r := front / 16, front % 16;
    assert front == 16 * q + r;
    assert (8 * behind + front) / 16 == q + (8 * behind + r) / 16;
    assert behind * 8 / 2 + front / 2 == 4 * behind + 8 * q + r / 2;
    assert (4 * behind + r / 2) / 8 == (8 * behind + r) / 16;
  }

  lemma Added(behind: nat, front: nat, part: nat)
    requires behind < 0x20 && front < 0x100 && (part == 1 || part == 4)
    ensures FiveBits(behind * 8 + front / part, 0) == Min(31, behind + front / (8 * part))
  {
    if part == 1 {} else {}
  }

  lemma Taken(behind: nat, front: nat)
    requires behind < 0x20 && front < 0x100
    ensures FiveBits(behind * 8 - Min(behind * 8, front), 0) == Max(0, 8 * behind - front) / 8
  {
  }

  /** Mode 0 ends between the two, mode 1 never darkens, mode 2 never brightens, and mode 3 brightens by at most a quarter. */
  lemma ModesApart(behind: nat, front: nat)
    requires behind < 0x20 && front < 0x100
    ensures Min(behind, front / 8) <= BlendedFive(0, behind, front) <= Max(behind, front / 8)
    ensures behind <= BlendedFive(3, behind, front) <= BlendedFive(1, behind, front) <= 31
    ensures 32 * (BlendedFive(3, behind, front) - behind) <= front
    ensures BlendedFive(2, behind, front) <= behind && (front >= 8 && behind > 0 ==> BlendedFive(2, behind, front) < behind)
  {
  }

  // ---- the colour of a triangle ----

  /** Each channel of a covered pixel is between the same bytes of the three corners' colours, and each texture coordinate between theirs. */
  lemma TintBetween(t: Triangle, x: int, y: int)
    requires Covered(t, x, y) && SpansAtMost(t, 2047, 2047)
    ensures var p, a, b, c := TriangleTint(t, x, y), t.a.colour, t.b.colour, t.c.colour;
            && Min(a % 0x100, Min(b % 0x100, c % 0x100)) <= p.r <= Max(a % 0x100, Max(b % 0x100, c % 0x100))
            && Min(a / 0x100 % 0x100, Min(b / 0x100 % 0x100, c / 0x100 % 0x100)) <= p.g
            && p.g <= Max(a / 0x100 % 0x100, Max(b / 0x100 % 0x100, c / 0x100 % 0x100))
            && Min(a / 0x1_0000 % 0x100, Min(b / 0x1_0000 % 0x100, c / 0x1_0000 % 0x100)) <= p.b
            && p.b <= Max(a / 0x1_0000 % 0x100, Max(b / 0x1_0000 % 0x100, c / 0x1_0000 % 0x100))
    ensures Area(t) != 0
            && Min(t.a.u, Min(t.b.u, t.c.u)) <= PlanesOf(t).across.At(x, y) <= Max(t.a.u, Max(t.b.u, t.c.u))
            && Min(t.a.v, Min(t.b.v, t.c.v)) <= PlanesOf(t).down.At(x, y) <= Max(t.a.v, Max(t.b.v, t.c.v))
  {
    CoveredHasArea(t, x, y);
    hide Covered, PlanesOf, Area, SpansAtMost, Plane.At, Share, AnchorOf;
    PlanesStayWithinCorners(t, Red, x, y);
    PlanesStayWithinCorners(t, Green, x, y);
    PlanesStayWithinCorners(t, Blue, x, y);
    PlanesStayWithinCorners(t, Across, x, y);
    PlanesStayWithinCorners(t, Down, x, y);
  }

  /** So a triangle of one colour is that colour all over. */
  lemma FlatTriangle(t: Triangle, x: int, y: int)
    requires Covered(t, x, y) && SpansAtMost(t, 2047, 2047) && t.a.colour == t.b.colour == t.c.colour
    ensures TriangleTint(t, x, y) == FromCommand(t.a.colour)
  {
    TintBetween(t, x, y);
    hide TriangleTint, Covered, SpansAtMost, PlanesOf, Area;
  }

  /**
    From the command to VRAM: a triangle of one colour, drawn opaque and undithered, leaves in every
    covered pixel of the draw area that is not protected the five top bits of each byte of that colour.
   */
  lemma FlatTriangleStores(was: Vram, now: Vram, t: Triangle, s: DrawState, x: nat, y: nat)
    requires PaintedOn(was, now, CoveredPixels(t, s), t, s, false) && SpansAtMost(t, 2047, 2047)
    requires t.a.colour == t.b.colour == t.c.colour && !s.dither
    requires x < 1024 && y < 512 && InDrawArea(s, x, y) && Covered(t, x, y)
    requires !(s.checkMask && was[y * 1024 + x] >= 0x8000)
    ensures var p, colour := now[y * 1024 + x], t.a.colour;
            && p % 0x20 == colour % 0x100 / 8
            && p / 0x20 % 0x20 == colour / 0x100 % 0x100 / 8
            && p / 0x400 % 0x20 == colour / 0x1_0000 % 0x100 / 8
            && (p >= 0x8000 <==> s.setMask)
  {
    FlatTriangle(t, x, y);
    ColourStored(s, was[At(x, y)], x, y, t.a.colour);
    hide Covered, Painted, TriangleTint, SpansAtMost, FromCommand;
    assert (x, y) in CoveredPixels(t, s);
    assert now[At(x, y)] == Painted(s, was[At(x, y)], x, y, TriangleTint(t, x, y), false);
  }

  // ---- the settings ----

  /** What the words that set the draw area and the modes come to, field by field. */
  lemma SettingsRead(gpu: Gpu, how: Shading, left: nat, top: nat, right: nat, bottom: nat, page: nat, mode: nat, dithered: bool, mask: nat)
    requires left < 1024 && top < 512 && right < 1024 && bottom < 512 && page < 32 && mode < 4 && mask < 4
    requires gpu.drawAreaTop == 0xE300_0000 + top * 1024 + left && gpu.drawAreaBottom == 0xE400_0000 + bottom * 1024 + right
    requires gpu.drawMode == (if dithered then 0x200 else 0) + mode * 32 + page && gpu.maskSetting == mask
    ensures var s := gpu.Prepare(how);
            && s.clipLeft == left && s.clipTop == top && s.clipRight == right && s.clipBottom == bottom && s.blendMode == mode
            && s.setMask == (mask == 1 || mask == 3) && s.checkMask == (mask == 2 || mask == 3)
            && s.dither == (dithered && how.gouraud) && gpu.LineState(how) == s.(dither := dithered)
  {
    AreaRead(0x1C60, top, left);
    AreaRead(0x1C80, bottom, right);
    assert gpu.drawMode / 32 % 4 == mode && (gpu.drawMode / 512 % 2 == 1 <==> dithered);
  }

  lemma AreaRead(opcode: nat, y: nat, x: nat)
    requires y < 512 && x < 1024
    ensures (opcode * 0x8_0000 + y * 1024 + x) % 1024 == x && (opcode * 0x8_0000 + y * 1024 + x) / 1024 % 512 == y
  {
  }

  // ---- the colours of a line ----

  /** A shaded line has both its ends' colours exactly, and in between is never more than three quarters of a shade off the straight mix of the two. */
  lemma ShadeIsMix(a: U8, b: U8, steps: nat, k: nat)
    requires 0 < steps < 1024 && k <= steps
    ensures Shade(a, b, steps, 0) == a && Shade(a, b, steps, steps) == b
    ensures 4 * Abs(steps * Shade(a, b, steps, k) - ((steps - k) * a + k * b)) <= 3 * steps
  {
    StepsToMix(a, b, steps, k);
    StepsToMix(a, b, steps, 0);
    StepsToMix(a, b, steps, steps);
    hide Shade;
    assert (steps - k) * a + k * b == steps * a + k * (b - a);
    EndsExactly(Shade(a, b, steps, 0), a, steps);
    EndsExactly(Shade(a, b, steps, steps), b, steps);
  }

  lemma EndsExactly(shade: int, end: int, steps: nat)
    requires steps > 0 && 4 * Abs(steps * shade - steps * end) <= 3 * steps
    ensures shade == end
  {
    assert steps * shade - steps * end == (shade - end) * steps;
    if shade > end { MulMono(1, shade - end, steps); }
    if shade < end { MulMono(shade - end, -1, steps); }
  }

  lemma StepsToMix(a: U8, b: U8, steps: nat, k: nat)
    requires 0 < steps < 1024 && k <= steps
    ensures 4 * Abs(steps * Shade(a, b, steps, k) - (steps * a + k * (b - a))) <= 3 * steps
  {
    var step := ColourStep(a, b, steps);
    var left := (b - a) * 0x1000 - step * steps;
    assert Abs(left) < steps by { TruncDivRemainder((b - a) * 0x1000, steps); }
    var mixed := a * 0x1000 + 0x800 + k * step;
    var shade := Shade(a, b, steps, k);
    assert shade == mixed / 0x1000;
    hide Shade, ColourStep, TruncDiv;
    var part := mixed % 0x1000 - 0x800;
    assert 0x1000 * shade == a * 0x1000 + k * step - part;
    AbsProduct(k, left, 1023, steps);
    AbsProduct(part, steps, 0x800, steps);
    ScaledMix(a, b - a, steps, k, step, left, shade, part);
  }

  lemma ScaledMix(a: int, rise: int, steps: int, k: int, step: int, left: int, shade: int, part: int)
    requires 0x1000 * shade == a * 0x1000 + k * step - part && left == rise * 0x1000 - step * steps
    ensures 0x1000 * (steps * shade - (steps * a + k * rise)) == -(k * left) - part * steps
  {
    assert 0x1000 * (steps * shade) == steps * (0x1000 * shade) == steps * (a * 0x1000) + steps * (k * step) - steps * part;
    assert steps * (k * step) == k * (step * steps) == k * (rise * 0x1000 - left) == 0x1000 * (k * rise) - k * left;
    assert steps * (a * 0x1000) == 0x1000 * (steps * a);
  }
}
