/** The rasterizer's loops over VRAM, proved against the fill rule, the planes and the line walk. */
module RasterDraw {
  import opened Words
  import opened RasterGeometry
  import opened RasterPlane
  import opened RasterFill
  import opened RasterLine

  const WIDTH := 1024
  const HEIGHT := 512

  datatype Rgb = Rgb(r: nat, g: nat, b: nat)

  datatype Shading = Shading(gouraud: bool, translucent: bool)

  /** What prepare works out once for a primitive that is not textured. */
  datatype DrawState = DrawState(
    clipLeft: nat, clipTop: nat, clipRight: nat, clipBottom: nat,
    blendMode: nat, checkMask: bool, dither: bool, setMask: bool)

  predicate InDrawArea(s: DrawState, x: int, y: int) {
    s.clipLeft <= x <= s.clipRight && s.clipTop <= y <= s.clipBottom
  }

  function FromCommand(colour: U32): Rgb { Rgb(colour % 0x100, colour / 0x100 % 0x100, colour / 0x1_0000 % 0x100) }

  function FromPixel(pixel: U16): Rgb { Rgb(pixel % 32 * 8, pixel / 32 % 32 * 8, pixel / 1024 % 32 * 8) }

  function Dither(x: nat, y: nat): int {
    [[-4, 0, -3, 1], [2, -2, 3, -1], [-3, 1, -4, 0], [3, -1, 2, -2]][y % 4][x % 4]
  }

  function FiveBits(value: nat, offset: int): nat { Clamp(value + offset, 0, 0xFF) / 8 }

  function ToPixel(c: Rgb, offset: int): (p: U16)
    ensures p < 0x8000
  {
    FiveBits(c.b, offset) * 1024 + FiveBits(c.g, offset) * 32 + FiveBits(c.r, offset)
  }

  function BlendChannel(mode: nat, behind: nat, front: nat): nat {
    match mode
    case 0 => behind / 2 + front / 2
    case 1 => behind + front
    case 2 => behind - Min(behind, front)
    case _ => behind + front / 4
  }

  function Blend(mode: nat, behind: Rgb, front: Rgb): Rgb {
    Rgb(BlendChannel(mode, behind.r, front.r), BlendChannel(mode, behind.g, front.g), BlendChannel(mode, behind.b, front.b))
  }

  /** What a pixel holding behind becomes: protected, blended, dithered and marked. */
  function Painted(s: DrawState, behind: U16, x: nat, y: nat, colour: Rgb, translucent: bool): U16 {
    if s.checkMask && behind >= 0x8000 then behind
    else
      var mixed := if translucent then Blend(s.blendMode, FromPixel(behind), colour) else colour;
      ToPixel(mixed, if s.dither then Dither(x, y) else 0) + (if s.setMask then 0x8000 else 0)
  }

  /** The colour the three colour planes give a pixel. */
  function TintAt(planes: Planes, x: int, y: int): Rgb {
    Rgb(planes.red.At(x, y), planes.green.At(x, y), planes.blue.At(x, y))
  }

  function LineColour(from: Vertex, to: Vertex, how: Shading, k: int): Rgb
    requires Drawable(from, to) && 0 <= k <= Steps(from, to)
  {
    var start, finish := FromCommand(FirstEnd(from, to).colour), FromCommand(SecondEnd(from, to).colour);
    if !how.gouraud then start
    else
      var n := Steps(from, to);
      ShadeBetween(start.r, finish.r, n, k); ShadeBetween(start.g, finish.g, n, k); ShadeBetween(start.b, finish.b, n, k);
      Rgb(Shade(start.r, finish.r, n, k), Shade(start.g, finish.g, n, k), Shade(start.b, finish.b, n, k))
  }

  /** Where a pixel is kept: rows of WIDTH, one after another. */
  function At(x: int, y: int): int { y * 1024 + x }

  /** A pixel of a row the walk has finished, or of this row left of where it is. */
  predicate Passed(px: int, py: int, x: int, y: int) { py < y || (py == y && px < x) }

  /** The pixels a triangle takes in the draw area. */
  ghost function CoveredPixels(t: Triangle, s: DrawState): set<(int, int)> {
    set px: int, py: int | s.clipLeft <= px <= s.clipRight && s.clipTop <= py <= s.clipBottom && Covered(t, px, py) :: (px, py)
  }

  function TriangleTint(t: Triangle, x: int, y: int): Rgb {
    if Area(t) == 0 then Rgb(0, 0, 0) else TintAt(PlanesOf(t), x, y)
  }

  type Vram = v: seq<U16> | |v| == 1024 * 512 witness seq(1024 * 512, _ => 0)

  /** Each pixel of the set has been painted once in the triangle's tint, and no other has changed. */
  ghost predicate PaintedOn(was: Vram, now: Vram, on: set<(int, int)>, t: Triangle, s: DrawState, translucent: bool) {
    forall px, py :: 0 <= px < 1024 && 0 <= py < 512 ==>
      now[At(px, py)] == if (px, py) in on then Painted(s, was[At(px, py)], px, py, TriangleTint(t, px, py), translucent) else was[At(px, py)]
  }

  lemma OneMorePainted(was: Vram, before: Vram, on: set<(int, int)>, t: Triangle, s: DrawState, translucent: bool, x: nat, y: nat)
    requires PaintedOn(was, before, on, t, s, translucent) && x < 1024 && y < 512 && (x, y) !in on
    ensures PaintedOn(was, before[At(x, y) := Painted(s, before[At(x, y)], x, y, TriangleTint(t, x, y), translucent)], on + {(x, y)}, t, s, translucent)
  {
    hide Painted, TriangleTint;
  }

  class Gpu {
    const vram: array<U16>
    var pixelsDrawn: nat
    var drawMode: U32
    var drawAreaTop: U32
    var drawAreaBottom: U32
    var maskSetting: U32

    constructor ()
      ensures fresh(vram) && vram.Length == WIDTH * HEIGHT && pixelsDrawn == 0
      ensures drawMode == 0 && drawAreaTop == 0 && drawAreaBottom == 0 && maskSetting == 0
      ensures forall i :: 0 <= i < vram.Length ==> vram[i] == 0
    {
      vram := new U16[1024 * 512](i => 0);
      pixelsDrawn, drawMode, drawAreaTop, drawAreaBottom, maskSetting := 0, 0, 0, 0, 0;
    }

    function Prepare(how: Shading): (s: DrawState)
      reads this`drawAreaTop, this`drawAreaBottom, this`drawMode, this`maskSetting
      ensures s.clipRight < 1024 && s.clipBottom < 512
    {
      DrawState(drawAreaTop % 1024, drawAreaTop / 1024 % 512, drawAreaBottom % 1024, drawAreaBottom / 1024 % 512,
                drawMode / 32 % 4, maskSetting / 2 % 2 == 1, drawMode / 512 % 2 == 1 && how.gouraud, maskSetting % 2 == 1)
    }

    method Put(s: DrawState, x: nat, y: nat, colour: Rgb, translucent: bool)
      requires vram.Length == 1024 * 512 && x < 1024 && y < 512
      modifies vram
      ensures vram[..] == old(vram[..])[At(x, y) := Painted(s, old(vram[At(x, y)]), x, y, colour, translucent)]
    {
      var at := y * 1024 + x;
      var behind := vram[at];
      if s.checkMask && behind >= 0x8000 {
        return;
      }
      var mixed := colour;
      if translucent {
        mixed := Blend(s.blendMode, FromPixel(behind), colour);
      }
      var offset := if s.dither then Dither(x, y) else 0;
      vram[at] := ToPixel(mixed, offset) + (if s.setMask then 0x8000 else 0);
    }

    /** The sort of plan, in place on three corners, with the anchor carried through it. */
    static method SortPair(v: array<Vertex>, anchor: nat, a: nat, b: nat) returns (carried: nat)
      requires v.Length == 3 && a < b < 3 && anchor < 3
      modifies v
      ensures carried < 3
      ensures old(v[b].y >= v[a].y) ==> v[..] == old(v[..]) && carried == anchor
      ensures old(v[b].y < v[a].y) ==>
                && v[..] == old(v[..][a := v[b]][b := v[a]])
                && carried == (if anchor == a then b else if anchor == b then a else anchor)
    {
      carried := anchor;
      if v[b].y >= v[a].y {
        return;
      }
      v[a], v[b] := v[b], v[a];
      if carried == a {
        carried := b;
      } else if carried == b {
        carried := a;
      }
    }

    static method Plan(t: Triangle) returns (planes: Planes)
      requires Area(t) != 0
      ensures planes == PlanesOf(t)
    {
      var v := new Vertex[3] [t.a, t.b, t.c];
      var anchor := 0;
      if v[1].x <= v[0].x {
        anchor := if v[2].x <= v[1].x then 2 else 1;
      } else if v[2].x < v[0].x {
        anchor := 2;
      }
      ghost var o0 := Order(t, AnchorOf(t));
      ghost var o1 := SortLastPair(o0);
      ghost var o2 := SortFirstPair(o1);
      ghost var o3 := SortLastPair(o2);
      assert Holds(v[..], anchor, o0);
      anchor := SortPair(v, anchor, 1, 2);
      assert Holds(v[..], anchor, o1);
      anchor := SortPair(v, anchor, 0, 1);
      assert Holds(v[..], anchor, o2);
      anchor := SortPair(v, anchor, 1, 2);
      assert Holds(v[..], anchor, o3);
      var sorted := Triangle(v[0], v[1], v[2]);
      var held := if anchor == 0 then First else if anchor == 1 then Second else Third;
      assert sorted == o3.t && held == o3.anchor && o3 == SortDown(t);
      SortingKeepsArea(t);
      DeterminantIsArea(sorted);
      var det := Determinant(sorted);
      planes := Planes(PlaneOf(sorted, held, ValuesOf(sorted, Red), det),
                       PlaneOf(sorted, held, ValuesOf(sorted, Green), det),
                       PlaneOf(sorted, held, ValuesOf(sorted, Blue), det),
                       PlaneOf(sorted, held, ValuesOf(sorted, Across), det),
                       PlaneOf(sorted, held, ValuesOf(sorted, Down), det));
    }

    static predicate Holds(v: seq<Vertex>, anchor: nat, o: Order) {
      && |v| == 3 && v[0] == o.t.a && v[1] == o.t.b && v[2] == o.t.c
      && anchor == (if o.anchor.First? then 0 else if o.anchor.Second? then 1 else 2)
    }

    /**
      Fills a triangle. Every pixel of the draw area that the fill rule covers is painted once, with
      the tint its planes give it, and counted once; every other pixel of VRAM is left as it was.
     */
    method DrawTriangle(t: Triangle, how: Shading)
      requires vram.Length == 1024 * 512
      modifies this`pixelsDrawn, vram
      ensures var covered := CoveredPixels(t, old(Prepare(how)));
              && PaintedOn(old(vram[..]), vram[..], covered, t, old(Prepare(how)), how.translucent)
              && pixelsDrawn == old(pixelsDrawn) + |covered|
    {
      hide Painted, TriangleTint, Edge, Covered, PlanesOf, Least, PaintedOn;
      ghost var s0, was := Prepare(how), vram[..];
      NothingPainted(was, t, s0, how.translucent);
      var area := Edge(t.a, t.b, t.c.x, t.c.y);
      if area == 0 {
        NothingCovered(t);
        assert CoveredPixels(t, s0) == {};
        return;
      }
      var a, b, c := t.a, t.b, t.c;
      if area < 0 {
        b, c := c, b;
      }
      assert Triangle(a, b, c) == Wound(t);
      var s := Prepare(how);
      var left := Max(s.clipLeft, Min(a.x, Min(b.x, c.x)));
      var right := Min(s.clipRight, Max(a.x, Max(b.x, c.x)));
      var top := Max(s.clipTop, Min(a.y, Min(b.y, c.y)));
      var bottom := Min(s.clipBottom, Max(a.y, Max(b.y, c.y)));
      var planes := Plan(t);
      var least0, least1, least2 := Least(b, c), Least(c, a), Least(a, b);

      BoxBounds(t, left, right, s);
      BoxRows(t, top, bottom, s);
      ghost var seen: set<(int, int)> := {};
      var y := top;
      while y <= bottom
        invariant top <= y
        invariant forall px, py :: (px, py) in seen <==> InDrawArea(s, px, py) && Covered(t, px, py) && Passed(px, py, left, y)
        invariant pixelsDrawn == old(pixelsDrawn) + |seen|
        invariant PaintedOn(was, vram[..], seen, t, s, how.translucent)
      {
        var x := left;
        while x <= right
          invariant left <= x
          invariant forall px, py :: (px, py) in seen <==> InDrawArea(s, px, py) && Covered(t, px, py) && Passed(px, py, x, y)
          invariant pixelsDrawn == old(pixelsDrawn) + |seen|
          invariant PaintedOn(was, vram[..], seen, t, s, how.translucent)
        {
          var weight0, weight1, weight2 := Edge(b, c, x, y), Edge(c, a, x, y), Edge(a, b, x, y);
          CoveredByWeights(t, x, y);
          if weight0 >= least0 && weight1 >= least1 && weight2 >= least2 {
            pixelsDrawn := pixelsDrawn + 1;
            TintIs(t, x, y);
            OneMorePainted(was, vram[..], seen, t, s, how.translucent, x, y);
            Put(s, x, y, TintAt(planes, x, y), how.translucent);
            seen := seen + {(x, y)};
          }
          x := x + 1;
        }
        y := y + 1;
      }
      AllSeen(seen, t, s, left, y);
    }

    /**
      A quad is the fan of its two triangles, whatever its shape. Split by its diagonal, it paints
      the pixels of the two together once each, in the tint of the triangle each belongs to.
     */
    method DrawQuad(a: Vertex, b: Vertex, c: Vertex, d: Vertex, how: Shading)
      requires vram.Length == 1024 * 512
      modifies this`pixelsDrawn, vram
      ensures var s := old(Prepare(how));
              pixelsDrawn == old(pixelsDrawn) + |CoveredPixels(Triangle(a, b, c), s)| + |CoveredPixels(Triangle(b, c, d), s)|
      ensures FanPainted(old(vram[..]), vram[..], a, b, c, d, old(Prepare(how)), how.translucent)
      ensures OppositeSides(b, c, a, d) ==>
                var s := old(Prepare(how));
                && pixelsDrawn == old(pixelsDrawn) + |FanPixels(a, b, c, d, s)|
                && QuadPainted(old(vram[..]), vram[..], a, b, c, d, s, how.translucent)
      ensures NeverTurnsBack(a, b, c, d) ==>
                FanPixels(a, b, c, d, old(Prepare(how))) == OuterPixels(a, b, c, d, old(Prepare(how)))
    {
      hide CoveredPixels, OuterPixels, PaintedOn, FanPainted, QuadPainted, OppositeSides, NeverTurnsBack;
      ghost var s, was := Prepare(how), vram[..];
      DrawTriangle(Triangle(a, b, c), how);
      ghost var between := vram[..];
      DrawTriangle(Triangle(b, c, d), how);
      TwicePainted(was, between, vram[..], a, b, c, d, s, how.translucent);
      if OppositeSides(b, c, a, d) {
        QuadPixelsPartition(a, b, c, d, s);
        PaintedOnce(was, vram[..], a, b, c, d, s, how.translucent);
      }
      if NeverTurnsBack(a, b, c, d) { OuterIsFan(a, b, c, d, s); }
    }

    /**
      Draws a line. Each of its positions inside the draw area is painted once, in the colour of that
      step, and counted once; every other pixel of VRAM is left as it was.
     */
    method DrawLine(from: Vertex, to: Vertex, how: Shading)
      requires vram.Length == 1024 * 512
      modifies this`pixelsDrawn, vram
      ensures !Drawable(from, to) ==> vram[..] == old(vram[..]) && pixelsDrawn == old(pixelsDrawn)
      ensures Drawable(from, to) ==>
                var s, n := old(LineState(how)), Steps(from, to) + 1;
                && pixelsDrawn == old(pixelsDrawn) + |DrawnSteps(from, to, s, n)|
                && LineDrawn(old(vram[..]), vram[..], from, to, how, s, n)
    {
      hide Painted, LineColour, PositionStep, ColourStep, PixelX, PixelY, LineDrawn, DrawnSteps, FromCommand, LineState;
      var dx, dy := to.x - from.x, to.y - from.y;
      if Abs(dx) >= WIDTH || Abs(dy) >= HEIGHT {
        return;
      }
      assert Drawable(from, to);
      var s := LineState(how);
      var steps := Max(Abs(dx), Abs(dy));
      assert steps == Steps(from, to);
      hide Drawable, Steps, FirstEnd, SecondEnd, Abs, Along, Max, InDrawArea, At;
      var first, second := Ends(from, to);
      var stepX := PositionStep(second.x - first.x, steps);
      var stepY := PositionStep(second.y - first.y, steps);
      var x := first.x * 0x1_0000_0000 + 0x8000_0000 - 1024;
      var y := first.y * 0x1_0000_0000 + 0x8000_0000 - (if stepY < 0 then 1024 else 0);
      var start, finish := FromCommand(first.colour), FromCommand(second.colour);
      var red, green, blue := start.r * 0x1000 + 0x800, start.g * 0x1000 + 0x800, start.b * 0x1000 + 0x800;
      ghost var startX, startY, startRed, startGreen, startBlue := x, y, red, green, blue;
      var stepRed, stepGreen, stepBlue := ColourStep(start.r, finish.r, steps), ColourStep(start.g, finish.g, steps), ColourStep(start.b, finish.b, steps);

      var step := 0;
      NoSteps(vram[..], from, to, how, s);
      AlongStart(x, stepX); AlongStart(y, stepY); AlongStart(red, stepRed); AlongStart(green, stepGreen); AlongStart(blue, stepBlue);
      while step <= steps
        invariant 0 <= step <= steps + 1
        invariant x == Along(startX, stepX, step) && y == Along(startY, stepY, step)
        invariant red == Along(startRed, stepRed, step)
        invariant green == Along(startGreen, stepGreen, step)
        invariant blue == Along(startBlue, stepBlue, step)
        invariant pixelsDrawn == old(pixelsDrawn) + |DrawnSteps(from, to, s, step)|
        invariant LineDrawn(old(vram[..]), vram[..], from, to, how, s, step)
      {
        var px, py := x / 0x1_0000_0000, y / 0x1_0000_0000;
        PixelIs(from, to, step, x, y);
        AlongNext(startX, stepX, step); AlongNext(startY, stepY, step);
        x, y := x + stepX, y + stepY;
        var colour := start;
        LineColourIs(from, to, how, step);
        if how.gouraud {
          colour := Rgb(red / 0x1000, green / 0x1000, blue / 0x1000);
        }
        AlongNext(startRed, stepRed, step); AlongNext(startGreen, stepGreen, step); AlongNext(startBlue, stepBlue, step);
        red, green, blue := red + stepRed, green + stepGreen, blue + stepBlue;
        NextStep(from, to, s, step);
        ghost var before := vram[..];
        Plot(s, px, py, colour, how.translucent);
        StepDrawn(old(vram[..]), before, vram[..], from, to, how, s, step);
        step := step + 1;
      }
    }

    /** The two ends, in the order the walk takes them. */
    static method Ends(from: Vertex, to: Vertex) returns (first: Vertex, second: Vertex)
      ensures first == FirstEnd(from, to) && second == SecondEnd(from, to)
    {
      var backwards := from.x >= to.x && to.x - from.x != 0;
      first := if backwards then to else from;
      second := if backwards then from else to;
    }

    /** One position of a line, which the draw area may still turn away. */
    method Plot(s: DrawState, x: int, y: int, colour: Rgb, translucent: bool)
      requires vram.Length == 1024 * 512 && s.clipRight < 1024 && s.clipBottom < 512
      modifies this`pixelsDrawn, vram
      ensures pixelsDrawn == old(pixelsDrawn) + (if InDrawArea(s, x, y) then 1 else 0)
      ensures vram[..] ==
              if InDrawArea(s, x, y) then old(vram[..])[At(x, y) := Painted(s, old(vram[At(x, y)]), x, y, colour, translucent)]
              else old(vram[..])
    {
      hide Painted;
      if s.clipLeft <= x <= s.clipRight && s.clipTop <= y <= s.clipBottom {
        pixelsDrawn := pixelsDrawn + 1;
        Put(s, x, y, colour, translucent);
      }
    }

    /** A line is dithered whenever dithering is on at all. */
    function LineState(how: Shading): (s: DrawState)
      reads this`drawAreaTop, this`drawAreaBottom, this`drawMode, this`maskSetting
      ensures s.clipRight < 1024 && s.clipBottom < 512
    {
      Prepare(how).(dither := drawMode / 512 % 2 == 1)
    }
  }

  /** The steps of a line, before the given one, that fall in the draw area. */
  ghost function DrawnSteps(from: Vertex, to: Vertex, s: DrawState, before: int): set<int> {
    set k | 0 <= k < before && InDrawArea(s, PixelX(from, to, k), PixelY(from, to, k))
  }

  lemma NextStep(from: Vertex, to: Vertex, s: DrawState, k: int)
    requires k >= 0
    ensures var here := InDrawArea(s, PixelX(from, to, k), PixelY(from, to, k));
            && DrawnSteps(from, to, s, k + 1) == DrawnSteps(from, to, s, k) + (if here then {k} else {})
            && k !in DrawnSteps(from, to, s, k)
  {
  }

  /** A quantity carried from step to step by addition. */
  function Along(start: int, step: int, k: int): int { start + k * step }

  lemma AlongStart(start: int, step: int)
    ensures Along(start, step, 0) == start
  {
  }

  lemma AlongNext(start: int, step: int, k: int)
    ensures Along(start, step, k + 1) == Along(start, step, k) + step
  {
  }

  lemma PixelIs(from: Vertex, to: Vertex, k: int, x: int, y: int)
    requires var first, second := FirstEnd(from, to), SecondEnd(from, to);
             var stepX, stepY := PositionStep(second.x - first.x, Steps(from, to)), PositionStep(second.y - first.y, Steps(from, to));
             && x == Along(first.x * 0x1_0000_0000 + 0x8000_0000 - 1024, stepX, k)
             && y == Along(first.y * 0x1_0000_0000 + 0x8000_0000 - (if stepY < 0 then 1024 else 0), stepY, k)
    ensures x / 0x1_0000_0000 == PixelX(from, to, k) && y / 0x1_0000_0000 == PixelY(from, to, k)
  {
    hide PositionStep;
  }

  /**
    VRAM with the steps before n drawn on it: each of them inside the draw area painted over what
    was there, and every pixel that none of them touches as it was.
   */
  ghost predicate LineDrawn(was: seq<U16>, now: seq<U16>, from: Vertex, to: Vertex, how: Shading, s: DrawState, n: int)
    requires Drawable(from, to) && 0 <= n <= Steps(from, to) + 1 && s.clipRight < 1024 && s.clipBottom < 512
  {
    && |was| == |now| == 1024 * 512
    && (forall k | k in DrawnSteps(from, to, s, n) ::
          var x, y := PixelX(from, to, k), PixelY(from, to, k);
          now[At(x, y)] == Painted(s, was[At(x, y)], x, y, LineColour(from, to, how, k), how.translucent))
    && (forall x, y :: 0 <= x < 1024 && 0 <= y < 512 && Untouched(from, to, s, n, x, y) ==> now[At(x, y)] == was[At(x, y)])
  }

  ghost predicate Untouched(from: Vertex, to: Vertex, s: DrawState, n: int, x: int, y: int) {
    forall k | k in DrawnSteps(from, to, s, n) :: PixelX(from, to, k) != x || PixelY(from, to, k) != y
  }

  lemma NoSteps(was: seq<U16>, from: Vertex, to: Vertex, how: Shading, s: DrawState)
    requires Drawable(from, to) && s.clipRight < 1024 && s.clipBottom < 512 && |was| == 1024 * 512
    ensures LineDrawn(was, was, from, to, how, s, 0) && DrawnSteps(from, to, s, 0) == {}
  {
  }

  lemma StepDrawn(was: seq<U16>, before: seq<U16>, now: seq<U16>, from: Vertex, to: Vertex, how: Shading, s: DrawState, n: int)
    requires Drawable(from, to) && 0 <= n <= Steps(from, to) && s.clipRight < 1024 && s.clipBottom < 512
    requires LineDrawn(was, before, from, to, how, s, n)
    requires var x, y := PixelX(from, to, n), PixelY(from, to, n);
             if InDrawArea(s, x, y)
             then now == before[At(x, y) := Painted(s, before[At(x, y)], x, y, LineColour(from, to, how, n), how.translucent)]
             else now == before
    ensures LineDrawn(was, now, from, to, how, s, n + 1)
  {
    hide Painted, LineColour, PixelX, PixelY;
    NextStep(from, to, s, n);
    var x, y := PixelX(from, to, n), PixelY(from, to, n);
    forall k | k in DrawnSteps(from, to, s, n)
      ensures PixelX(from, to, k) != x || PixelY(from, to, k) != y
    {
      LinePixelsDistinct(from, to, k, n);
    }
    if InDrawArea(s, x, y) {
      assert Untouched(from, to, s, n, x, y);
      assert n in DrawnSteps(from, to, s, n + 1);
    }
    forall px, py | 0 <= px < 1024 && 0 <= py < 512 && Untouched(from, to, s, n + 1, px, py)
      ensures now[At(px, py)] == was[At(px, py)]
    {
      assert Untouched(from, to, s, n, px, py);
    }
  }

  /** A pixel the whole line passes over, or that lies outside the draw area, is one no step was drawn on. */
  lemma UntouchedExactly(from: Vertex, to: Vertex, s: DrawState, x: int, y: int)
    ensures Untouched(from, to, s, Steps(from, to) + 1, x, y) <==> !(InDrawArea(s, x, y) && LineTouches(from, to, x, y))
  {
    hide PixelX, PixelY;
    if InDrawArea(s, x, y) && LineTouches(from, to, x, y) {
      var k :| 0 <= k <= Steps(from, to) && PixelX(from, to, k) == x && PixelY(from, to, k) == y;
      assert k in DrawnSteps(from, to, s, Steps(from, to) + 1);
    }
  }

  lemma LineColourIs(from: Vertex, to: Vertex, how: Shading, k: int)
    requires Drawable(from, to) && 0 <= k <= Steps(from, to)
    ensures var start, finish := FromCommand(FirstEnd(from, to).colour), FromCommand(SecondEnd(from, to).colour);
            var n := Steps(from, to);
            var shown := LineColour(from, to, how, k);
            && (!how.gouraud ==> shown == start)
            && (how.gouraud ==> shown.r == Along(start.r * 0x1000 + 0x800, ColourStep(start.r, finish.r, n), k) / 0x1000)
            && (how.gouraud ==> shown.g == Along(start.g * 0x1000 + 0x800, ColourStep(start.g, finish.g, n), k) / 0x1000)
            && (how.gouraud ==> shown.b == Along(start.b * 0x1000 + 0x800, ColourStep(start.b, finish.b, n), k) / 0x1000)
            && Min(start.r, finish.r) <= shown.r <= Max(start.r, finish.r)
            && Min(start.g, finish.g) <= shown.g <= Max(start.g, finish.g)
            && Min(start.b, finish.b) <= shown.b <= Max(start.b, finish.b)
  {
    hide ColourStep;
    var start, finish := FromCommand(FirstEnd(from, to).colour), FromCommand(SecondEnd(from, to).colour);
    var n := Steps(from, to);
    ShadeBetween(start.r, finish.r, n, k);
    ShadeBetween(start.g, finish.g, n, k);
    ShadeBetween(start.b, finish.b, n, k);
  }

  // ---- the fan ----

  ghost function FanPixels(a: Vertex, b: Vertex, c: Vertex, d: Vertex, s: DrawState): set<(int, int)> {
    CoveredPixels(Triangle(a, b, c), s) + CoveredPixels(Triangle(b, c, d), s)
  }

  /** The pixels of the draw area inside a quad's four outer edges. */
  ghost function OuterPixels(a: Vertex, b: Vertex, c: Vertex, d: Vertex, s: DrawState): set<(int, int)> {
    set px: int, py: int | s.clipLeft <= px <= s.clipRight && s.clipTop <= py <= s.clipBottom && PassesOuter(a, b, c, d, px, py) :: (px, py)
  }

  /** The second triangle over the first: a pixel both cover would be painted twice. */
  ghost predicate FanPainted(was: Vram, now: Vram, a: Vertex, b: Vertex, c: Vertex, d: Vertex, s: DrawState, translucent: bool) {
    exists between: Vram ::
      && PaintedOn(was, between, CoveredPixels(Triangle(a, b, c), s), Triangle(a, b, c), s, translucent)
      && PaintedOn(between, now, CoveredPixels(Triangle(b, c, d), s), Triangle(b, c, d), s, translucent)
  }

  /** The tint a quad's pixel takes: from the planes of the triangle it belongs to. */
  ghost function QuadTint(a: Vertex, b: Vertex, c: Vertex, d: Vertex, s: DrawState, x: int, y: int): Rgb {
    if (x, y) in CoveredPixels(Triangle(a, b, c), s) then TriangleTint(Triangle(a, b, c), x, y) else TriangleTint(Triangle(b, c, d), x, y)
  }

  /** Each pixel of the fan painted once, and no other. */
  ghost predicate QuadPainted(was: Vram, now: Vram, a: Vertex, b: Vertex, c: Vertex, d: Vertex, s: DrawState, translucent: bool) {
    forall px, py :: 0 <= px < 1024 && 0 <= py < 512 ==>
      now[At(px, py)] == if (px, py) in FanPixels(a, b, c, d, s)
                         then Painted(s, was[At(px, py)], px, py, QuadTint(a, b, c, d, s, px, py), translucent)
                         else was[At(px, py)]
  }

  lemma TwicePainted(was: Vram, between: Vram, now: Vram, a: Vertex, b: Vertex, c: Vertex, d: Vertex, s: DrawState, translucent: bool)
    requires PaintedOn(was, between, CoveredPixels(Triangle(a, b, c), s), Triangle(a, b, c), s, translucent)
    requires PaintedOn(between, now, CoveredPixels(Triangle(b, c, d), s), Triangle(b, c, d), s, translucent)
    ensures FanPainted(was, now, a, b, c, d, s, translucent)
  {
    hide PaintedOn, CoveredPixels;
  }

  /** With no pixel in both triangles, painting one after the other is painting the fan once. */
  lemma PaintedOnce(was: Vram, now: Vram, a: Vertex, b: Vertex, c: Vertex, d: Vertex, s: DrawState, translucent: bool)
    requires FanPainted(was, now, a, b, c, d, s, translucent)
    requires CoveredPixels(Triangle(a, b, c), s) !! CoveredPixels(Triangle(b, c, d), s)
    ensures QuadPainted(was, now, a, b, c, d, s, translucent)
  {
    hide CoveredPixels, Painted, TriangleTint;
  }

  /**
    Two triangles either side of a diagonal share no pixel, so the pixels counted
    are the pixels of the fan, and every pixel inside the outer edges is among them.
   */
  lemma QuadPixelsPartition(a: Vertex, b: Vertex, c: Vertex, d: Vertex, s: DrawState)
    requires OppositeSides(b, c, a, d)
    ensures CoveredPixels(Triangle(a, b, c), s) !! CoveredPixels(Triangle(b, c, d), s)
    ensures |FanPixels(a, b, c, d, s)| == |CoveredPixels(Triangle(a, b, c), s)| + |CoveredPixels(Triangle(b, c, d), s)|
    ensures OuterPixels(a, b, c, d, s) <= FanPixels(a, b, c, d, s)
  {
    hide Covered, PassesOuter, OppositeSides;
    forall px: int, py: int
      ensures PassesOuter(a, b, c, d, px, py) ==> Covered(Triangle(a, b, c), px, py) || Covered(Triangle(b, c, d), px, py)
      ensures !(Covered(Triangle(a, b, c), px, py) && Covered(Triangle(b, c, d), px, py))
    {
      QuadPartition(a, b, c, d, px, py);
    }
  }

  /** Where no corner turns back, the fan is exactly the pixels inside the outer edges. */
  lemma OuterIsFan(a: Vertex, b: Vertex, c: Vertex, d: Vertex, s: DrawState)
    requires NeverTurnsBack(a, b, c, d)
    ensures FanPixels(a, b, c, d, s) == OuterPixels(a, b, c, d, s)
  {
    if Convex(a, b, d, c) { ConvexSplits(a, b, d, c); } else { ConvexSplits(a, c, d, b); }
    AreaTurned(Triangle(b, c, a));
    EdgeReversed(b, c, d.x, d.y);
    EdgeReversed(b, c, a.x, a.y);
    assert OppositeSides(b, c, a, d);
    hide Covered, PassesOuter, OppositeSides, NeverTurnsBack;
    forall px: int, py: int
      ensures PassesOuter(a, b, c, d, px, py) <==> Covered(Triangle(a, b, c), px, py) || Covered(Triangle(b, c, d), px, py)
    {
      QuadPartition(a, b, c, d, px, py);
    }
  }

  lemma NothingPainted(was: Vram, t: Triangle, s: DrawState, translucent: bool)
    ensures PaintedOn(was, was, {}, t, s, translucent)
  {
  }

  lemma TintIs(t: Triangle, x: int, y: int)
    requires Area(t) != 0
    ensures TriangleTint(t, x, y) == TintAt(PlanesOf(t), x, y)
  {
  }

  /** Past the last row of its box, the walk has seen every pixel the triangle covers. */
  lemma AllSeen(seen: set<(int, int)>, t: Triangle, s: DrawState, left: int, y: int)
    requires forall px, py :: (px, py) in seen <==> InDrawArea(s, px, py) && Covered(t, px, py) && Passed(px, py, left, y)
    requires forall px, py :: InDrawArea(s, px, py) && Covered(t, px, py) ==> py < y
    ensures seen == CoveredPixels(t, s)
  {
    hide Covered;
    forall p: (int, int)
      ensures p in seen <==> p in CoveredPixels(t, s)
    {
      var (px, py) := p;
      assert p == (px, py);
      assert (px, py) in CoveredPixels(t, s) <==> InDrawArea(s, px, py) && Covered(t, px, py);
    }
  }

  lemma NothingCovered(t: Triangle)
    requires Area(t) == 0
    ensures forall px, py :: !Covered(t, px, py)
  {
  }

  lemma CoveredByWeights(t: Triangle, x: int, y: int)
    requires Area(t) != 0
    ensures var w := Wound(t);
            Covered(t, x, y) <==>
            Edge(w.b, w.c, x, y) >= Least(w.b, w.c) && Edge(w.c, w.a, x, y) >= Least(w.c, w.a) && Edge(w.a, w.b, x, y) >= Least(w.a, w.b)
  {
  }

  /** Beyond the right of the box, or left of it, there is nothing more in a row. */
  lemma BoxBounds(t: Triangle, left: int, right: int, s: DrawState)
    requires left == Max(s.clipLeft, Min(t.a.x, Min(t.b.x, t.c.x))) && right == Min(s.clipRight, Max(t.a.x, Max(t.b.x, t.c.x)))
    ensures forall px, py :: InDrawArea(s, px, py) && Covered(t, px, py) ==> left <= px <= right
  {
    forall px, py | InDrawArea(s, px, py) && Covered(t, px, py)
      ensures left <= px <= right
    {
      CoveredIsInside(t, px, py);
      InsideBox(t, px, py);
    }
  }

  lemma BoxRows(t: Triangle, top: int, bottom: int, s: DrawState)
    requires top == Max(s.clipTop, Min(t.a.y, Min(t.b.y, t.c.y))) && bottom == Min(s.clipBottom, Max(t.a.y, Max(t.b.y, t.c.y)))
    ensures forall px, py :: InDrawArea(s, px, py) && Covered(t, px, py) ==> top <= py <= bottom
  {
    forall px, py | InDrawArea(s, px, py) && Covered(t, px, py)
      ensures top <= py <= bottom
    {
      CoveredIsInside(t, px, py);
      InsideBox(t, px, py);
    }
  }
}
