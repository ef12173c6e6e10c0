/** Corners, edge functions and the top-left rule of the rasterizer. */
module RasterGeometry {
  import opened Words

  datatype Vertex = Vertex(x: int, y: int, colour: U32, u: U8, v: U8)

  /** The three corners of a triangle, in the order a command lists them. */
  datatype Triangle = Triangle(a: Vertex, b: Vertex, c: Vertex)

  /** An eleven-bit coordinate plus an eleven-bit offset: where a GP0 vertex can lie. */
  predicate InReach(p: Vertex) { -2048 <= p.x <= 2047 && -2048 <= p.y <= 2047 }

  function Edge(a: Vertex, b: Vertex, x: int, y: int): int {
    (b.x - a.x) * (y - a.y) - (b.y - a.y) * (x - a.x)
  }

  function Area(t: Triangle): int { Edge(t.a, t.b, t.c.x, t.c.y) }

  predicate TopOrLeft(a: Vertex, b: Vertex) {
    if a.y == b.y then b.x > a.x else b.y < a.y
  }

  /** The smallest value an edge accepts: zero on an edge the rule favours, and one on any other. */
  function Least(a: Vertex, b: Vertex): int { if TopOrLeft(a, b) then 0 else 1 }

  predicate Passes(a: Vertex, b: Vertex, x: int, y: int) { Edge(a, b, x, y) >= Least(a, b) }

  /** The same triangle with its corners in the order that makes twice its area positive or zero. */
  function Wound(t: Triangle): Triangle {
    if Area(t) < 0 then Triangle(t.a, t.c, t.b) else t
  }

  /** What a triangle draws: the pixels that all three of its wound edges accept, if it has any area. */
  predicate Covered(t: Triangle, x: int, y: int) {
    var w := Wound(t);
    Area(t) != 0 && Passes(w.b, w.c, x, y) && Passes(w.c, w.a, x, y) && Passes(w.a, w.b, x, y)
  }

  lemma EdgeReversed(a: Vertex, b: Vertex, x: int, y: int)
    ensures Edge(b, a, x, y) == -Edge(a, b, x, y)
  {
    var p, q, r, s := b.x - a.x, b.y - a.y, x - a.x, y - a.y;
    assert Edge(b, a, x, y) == (-p) * (s - q) - (-q) * (r - p);
    assert (-p) * (s - q) == -(p * s) + p * q;
    assert (-q) * (r - p) == -(q * r) + q * p;
  }

  /** Moving the origin to the first corner keeps every later expansion small. */
  lemma EdgeAbout(o: Vertex, a: Vertex, b: Vertex, x: int, y: int)
    ensures Edge(a, b, x, y) == (a.x - o.x) * (b.y - o.y) - (a.y - o.y) * (b.x - o.x)
                              + (b.x - a.x) * (y - o.y) - (b.y - a.y) * (x - o.x)
  {
    var ax, ay, dx, dy, px, py := a.x - o.x, a.y - o.y, b.x - o.x, b.y - o.y, x - o.x, y - o.y;
    assert Edge(a, b, x, y) == (dx - ax) * (py - ay) - (dy - ay) * (px - ax);
    assert (dx - ax) * (py - ay) == (dx - ax) * py - dx * ay + ax * ay;
    assert (dy - ay) * (px - ax) == (dy - ay) * px - dy * ax + ay * ax;
  }

  /** The three edge functions share the area out: the weights of the interpolation. */
  lemma WeightsSum(t: Triangle, x: int, y: int)
    ensures Edge(t.b, t.c, x, y) + Edge(t.c, t.a, x, y) + Edge(t.a, t.b, x, y) == Area(t)
  {
    EdgeAbout(t.a, t.b, t.c, x, y);
    EdgeAbout(t.a, t.c, t.a, x, y);
    EdgeAbout(t.a, t.a, t.b, x, y);
    var dx, dy, cx, cy, px, py := t.b.x - t.a.x, t.b.y - t.a.y, t.c.x - t.a.x, t.c.y - t.a.y, x - t.a.x, y - t.a.y;
    assert (cx - dx) * py == cx * py - dx * py;
    assert (cy - dy) * px == cy * px - dy * px;
    assert (t.a.x - t.c.x) * py == -(cx * py);
    assert (t.a.y - t.c.y) * px == -(cy * px);
  }

  /** Turning the corners round by one leaves the area as it was; exchanging two negates it. */
  lemma AreaTurned(t: Triangle)
    ensures Area(Triangle(t.b, t.c, t.a)) == Area(t)
    ensures Area(Triangle(t.a, t.c, t.b)) == -Area(t)
    ensures Area(Triangle(t.b, t.a, t.c)) == -Area(t)
  {
    EdgeAbout(t.a, t.b, t.c, t.a.x, t.a.y);
    EdgeReversed(t.a, t.b, t.c.x, t.c.y);
    assert Edge(t.a, t.c, t.b.x, t.b.y) == -Area(t);
  }

  /** Every edge function at every pixel of the draw area fits its 32-bit register. */
  lemma EdgeFits(a: Vertex, b: Vertex, x: int, y: int)
    requires InReach(a) && InReach(b) && -2048 <= x <= 2047 && -2048 <= y <= 2047
    ensures -0x8000_0000 <= Edge(a, b, x, y) < 0x8000_0000
  {
    AbsProduct(b.x - a.x, y - a.y, 4095, 4095);
    AbsProduct(b.y - a.y, x - a.x, 4095, 4095);
  }
}
