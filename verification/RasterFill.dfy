/** The fill rule as a partition of the screen. */
module RasterFill {
  import opened RasterGeometry

  /** Any order of the same three corners. */
  predicate SameCorners(s: Triangle, t: Triangle) {
    || s == t || s == Triangle(t.b, t.c, t.a) || s == Triangle(t.c, t.a, t.b)
    || s == Triangle(t.a, t.c, t.b) || s == Triangle(t.c, t.b, t.a) || s == Triangle(t.b, t.a, t.c)
  }

  lemma CoverageIgnoresOrder(s: Triangle, t: Triangle, x: int, y: int)
    requires SameCorners(s, t)
    ensures Covered(s, x, y) <==> Covered(t, x, y)
  {
    AreaTurned(t);
    AreaTurned(Triangle(t.b, t.c, t.a));
    AreaTurned(Triangle(t.a, t.c, t.b));
  }

  /** On one line, exactly one of the two directions passes: the seam rule. */
  lemma SeamRule(a: Vertex, b: Vertex, x: int, y: int)
    requires a.x != b.x || a.y != b.y
    ensures Passes(a, b, x, y) <==> !Passes(b, a, x, y)
  {
    EdgeReversed(a, b, x, y);
  }

  /** The line ab separates c from d, with neither of them on it. */
  predicate OppositeSides(a: Vertex, b: Vertex, c: Vertex, d: Vertex) {
    (Edge(a, b, c.x, c.y) > 0 && Edge(a, b, d.x, d.y) < 0) ||
    (Edge(a, b, c.x, c.y) < 0 && Edge(a, b, d.x, d.y) > 0)
  }

  /** Two triangles on opposite sides of a shared edge never share a pixel. */
  lemma SharedEdgeDrawnOnce(a: Vertex, b: Vertex, c: Vertex, d: Vertex, x: int, y: int)
    requires OppositeSides(a, b, c, d)
    ensures !(Covered(Triangle(a, b, c), x, y) && Covered(Triangle(a, b, d), x, y))
  {
    SeamRule(a, b, x, y);
  }

  /** The outline of a quad walked a, b, d, c: b and c, where the halves meet, may be straight but never turn back. */
  predicate Convex(a: Vertex, b: Vertex, d: Vertex, c: Vertex) {
    && Edge(a, b, d.x, d.y) >= 0 && Edge(b, d, c.x, c.y) > 0
    && Edge(d, c, a.x, a.y) >= 0 && Edge(c, a, b.x, b.y) > 0
  }

  predicate PassesOutline(a: Vertex, b: Vertex, d: Vertex, c: Vertex, x: int, y: int) {
    Passes(a, b, x, y) && Passes(b, d, x, y) && Passes(d, c, x, y) && Passes(c, a, x, y)
  }

  function Cross(px: int, py: int, qx: int, qy: int): int { px * qy - py * qx }

  /** Half of all directions: exactly one of any direction and its opposite. */
  predicate UpOrRight(x: int, y: int) { if y == 0 then x > 0 else y < 0 }

  /** They form a cone: a direction that lies between two of them, or along one of them, is a third. */
  lemma BetweenUpOrRight(px: int, py: int, qx: int, qy: int, rx: int, ry: int)
    requires Cross(px, py, qx, qy) > 0 && Cross(px, py, rx, ry) >= 0 && Cross(rx, ry, qx, qy) >= 0
    requires Cross(px, py, rx, ry) > 0 || Cross(rx, ry, qx, qy) > 0
    requires Cross(rx, ry, qx, qy) > 0 ==> UpOrRight(px, py)
    requires Cross(px, py, rx, ry) > 0 ==> UpOrRight(qx, qy)
    ensures UpOrRight(rx, ry)
  {
    var pq, pr, rq := Cross(px, py, qx, qy), Cross(px, py, rx, ry), Cross(rx, ry, qx, qy);
    MixedDirection(px, py, qx, qy, rx, ry);
    hide Cross;
    NotBelow(pq, ry, rq, py, pr, qy);
    if ry == 0 {
      if rq > 0 && pr > 0 { assert Cross(px, py, qx, qy) == 0 by { FlatCross(px, py, qx, qy); } }
      NotLeft(pq, rx, rq, px, pr, qx);
    }
  }

  lemma FlatCross(px: int, py: int, qx: int, qy: int)
    requires py == 0 && qy == 0
    ensures Cross(px, py, qx, qy) == 0
  {
  }

  /** A mix of two heights, each at or above the horizon where it has any weight, is there too. */
  lemma NotBelow(k: int, r: int, s: int, p: int, t: int, q: int)
    requires k > 0 && s >= 0 && t >= 0 && (s > 0 ==> p <= 0) && (t > 0 ==> q <= 0)
    requires k * r == s * p + t * q
    ensures r <= 0
    ensures r == 0 ==> (s > 0 ==> p == 0) && (t > 0 ==> q == 0)
  {
    assert s * p <= 0 && t * q <= 0;
    if s > 0 && p < 0 { assert s * p < 0; }
    if t > 0 && q < 0 { assert t * q < 0; }
  }

  lemma NotLeft(k: int, r: int, s: int, p: int, t: int, q: int)
    requires k > 0 && s >= 0 && t >= 0 && s + t > 0 && (s > 0 ==> p > 0) && (t > 0 ==> q > 0)
    requires k * r == s * p + t * q
    ensures r > 0
  {
    if s > 0 { assert s * p > 0; }
    if t > 0 { assert t * q > 0; }
  }

  lemma MixedDirection(px: int, py: int, qx: int, qy: int, rx: int, ry: int)
    ensures Cross(px, py, qx, qy) * ry == Cross(rx, ry, qx, qy) * py + Cross(px, py, rx, ry) * qy
    ensures Cross(px, py, qx, qy) * rx == Cross(rx, ry, qx, qy) * px + Cross(px, py, rx, ry) * qx
  {
  }

  /** An edge function is affine, so at a pixel it is the weighted mean of its corner values. */
  lemma EdgeInterpolates(t: Triangle, p: Vertex, q: Vertex, x: int, y: int)
    ensures Edge(p, q, x, y) * Area(t) ==
            Edge(t.b, t.c, x, y) * Edge(p, q, t.a.x, t.a.y) +
            Edge(t.c, t.a, x, y) * Edge(p, q, t.b.x, t.b.y) +
            Edge(t.a, t.b, x, y) * Edge(p, q, t.c.x, t.c.y)
  {
    var o := t.a;
    EdgeAbout(o, t.b, t.c, x, y);
    EdgeAbout(o, t.c, t.a, x, y);
    EdgeAbout(o, t.a, t.b, x, y);
    EdgeAbout(o, p, q, x, y);
    EdgeAbout(o, p, q, t.a.x, t.a.y);
    EdgeAbout(o, p, q, t.b.x, t.b.y);
    EdgeAbout(o, p, q, t.c.x, t.c.y);
    AffineMean(t.b.x - o.x, t.b.y - o.y, t.c.x - o.x, t.c.y - o.y, x - o.x, y - o.y,
               (p.x - o.x) * (q.y - o.y) - (p.y - o.y) * (q.x - o.x), q.x - p.x, q.y - p.y);
  }

  /** The identity behind it, with the first corner at the origin and e(x, y) = k + my - nx. */
  lemma AffineMean(dx: int, dy: int, cx: int, cy: int, x: int, y: int, k: int, m: int, n: int)
    ensures (k + m * y - n * x) * (dx * cy - dy * cx) ==
            (dx * cy - dy * cx + (cx - dx) * y - (cy - dy) * x) * k +
            (cy * x - cx * y) * (k + m * dy - n * dx) +
            (dx * y - dy * x) * (k + m * cy - n * cx)
  {
    CornersResolve(dx, dy, cx, cy, x, y);
    WeightedMean(dx * cy - dy * cx, cy * x - cx * y, dx * y - dy * x, dx, dy, cx, cy, x, y, k, m, n);
  }

  lemma WeightedMean(area: int, v: int, w: int, dx: int, dy: int, cx: int, cy: int, x: int, y: int, k: int, m: int, n: int)
    requires v * dy + w * cy == y * area
    requires v * dx + w * cx == x * area
    ensures (k + m * y - n * x) * area ==
            (area - v - w) * k + v * (k + m * dy - n * dx) + w * (k + m * cy - n * cx)
  {
    MeanTerm(area, k, m, y, n, x);
    MeanTerm(v, k, m, dy, n, dx);
    MeanTerm(w, k, m, cy, n, cx);
    Distribute(m, v * dy, w * cy, y * area);
    Distribute(n, v * dx, w * cx, x * area);
    assert (area - v - w) * k == area * k - v * k - w * k;
    assert area * y == y * area && area * x == x * area;
  }

  lemma Distribute(m: int, a: int, b: int, c: int)
    requires a + b == c
    ensures m * a + m * b == m * c
  {
  }

  lemma MeanTerm(v: int, k: int, m: int, dy: int, n: int, dx: int)
    ensures v * (k + m * dy - n * dx) == v * k + m * (v * dy) - n * (v * dx)
  {
  }

  /** A point is the mix of the two corners that its two weights say. */
  lemma CornersResolve(dx: int, dy: int, cx: int, cy: int, x: int, y: int)
    ensures var area, v, w := dx * cy - dy * cx, cy * x - cx * y, dx * y - dy * x;
            && v * dy + w * cy == y * area
            && v * dx + w * cx == x * area
            && area + (cx - dx) * y - (cy - dy) * x == area - v - w
  {
  }

  /** A weighted mean of two values that are not negative is zero only where the positive ones have no weight. */
  lemma PositiveMean(e: int, area: int, u: int, p: int, w: int, q: int)
    requires area > 0 && p >= 0 && q >= 0 && u >= 0 && w >= 0
    requires e * area == u * p + w * q
    ensures e >= 0
    ensures e == 0 ==> (p > 0 ==> u == 0) && (q > 0 ==> w == 0)
  {
    assert u * p >= 0 && w * q >= 0;
    if u > 0 && p > 0 { assert u * p > 0; }
    if w > 0 && q > 0 { assert w * q > 0; }
  }

  /** Each triangle of a convex quad lies inside the quad's outline, corners and seams included. */
  lemma HalfWithinOutline(a: Vertex, b: Vertex, d: Vertex, c: Vertex, x: int, y: int)
    requires Convex(a, b, d, c)
    requires Passes(a, b, x, y) && Passes(b, c, x, y) && Passes(c, a, x, y)
    ensures Passes(b, d, x, y) && Passes(d, c, x, y)
  {
    hide Edge;
    ConvexTurns(a, b, d, c);
    OwnEdge(b, d);
    OwnEdge(d, c);
    MeanOfCorners(Triangle(a, b, c), b, d, x, y);
    if Edge(b, d, x, y) == 0 {
      OutlineTurn(a, b, d, c);
    }
    AreaTurned(Triangle(a, b, c));
    AreaTurned(Triangle(b, c, a));
    MeanOfCorners(Triangle(b, c, a), d, c, x, y);
    if Edge(d, c, x, y) == 0 {
      OutlineReturn(a, b, d, c);
    }
  }

  lemma OwnEdge(a: Vertex, b: Vertex)
    ensures Edge(a, b, a.x, a.y) == 0 && Edge(a, b, b.x, b.y) == 0
  {
    EdgeAbout(a, a, b, b.x, b.y);
  }

  /** The turns of a convex outline, read from the corners the halves need them at. */
  lemma ConvexTurns(a: Vertex, b: Vertex, d: Vertex, c: Vertex)
    requires Convex(a, b, d, c)
    ensures Area(Triangle(a, b, c)) > 0 && Edge(d, c, b.x, b.y) > 0
    ensures Edge(b, d, a.x, a.y) == Edge(a, b, d.x, d.y) >= 0
  {
    AreaTurned(Triangle(c, a, b));
    AreaTurned(Triangle(a, b, d));
    AreaTurned(Triangle(b, d, c));
  }

  /** Inside a triangle, an edge function that is nowhere negative on its corners is not negative. */
  lemma MeanOfCorners(t: Triangle, p: Vertex, q: Vertex, x: int, y: int)
    requires Area(t) > 0 && Edge(t.b, t.c, x, y) >= 0 && Edge(t.c, t.a, x, y) >= 0 && Edge(t.a, t.b, x, y) >= 0
    requires Edge(p, q, t.a.x, t.a.y) >= 0 && Edge(p, q, t.b.x, t.b.y) == 0 && Edge(p, q, t.c.x, t.c.y) >= 0
    ensures Edge(p, q, x, y) >= 0
    ensures Edge(p, q, x, y) == 0 ==>
              (Edge(p, q, t.a.x, t.a.y) > 0 ==> Edge(t.b, t.c, x, y) == 0) && (Edge(p, q, t.c.x, t.c.y) > 0 ==> Edge(t.a, t.b, x, y) == 0)
  {
    EdgeInterpolates(t, p, q, x, y);
    PositiveMean(Edge(p, q, x, y), Area(t), Edge(t.b, t.c, x, y), Edge(p, q, t.a.x, t.a.y),
                 Edge(t.a, t.b, x, y), Edge(p, q, t.c.x, t.c.y));
  }

  /** The turn at b, from the two directions that meet there. */
  lemma TurnIsCross(a: Vertex, b: Vertex, c: Vertex)
    ensures Cross(b.x - a.x, b.y - a.y, c.x - b.x, c.y - b.y) == Edge(a, b, c.x, c.y)
    ensures Cross(b.x - a.x, b.y - a.y, b.x - c.x, b.y - c.y) == -Edge(a, b, c.x, c.y)
  {
    EdgeAbout(b, a, b, c.x, c.y);
    var px, py, qx, qy := b.x - a.x, b.y - a.y, c.x - b.x, c.y - b.y;
    assert px * (-qy) - py * (-qx) == -(px * qy - py * qx);
  }

  /** At the corner where the halves meet, the outline leaves between the edges of one half, or straight on. */
  lemma OutlineTurn(a: Vertex, b: Vertex, d: Vertex, c: Vertex)
    requires Convex(a, b, d, c) && TopOrLeft(a, b) && (Edge(a, b, d.x, d.y) > 0 ==> TopOrLeft(b, c))
    ensures TopOrLeft(b, d)
  {
    TurnIsCross(a, b, c);
    TurnIsCross(a, b, d);
    AreaTurned(Triangle(c, a, b));
    assert Cross(d.x - b.x, d.y - b.y, c.x - b.x, c.y - b.y) == Edge(b, d, c.x, c.y);
    hide Cross, Edge;
    BetweenUpOrRight(b.x - a.x, b.y - a.y, c.x - b.x, c.y - b.y, d.x - b.x, d.y - b.y);
  }

  /** And at the other it arrives between them, or straight on. */
  lemma OutlineReturn(a: Vertex, b: Vertex, d: Vertex, c: Vertex)
    requires Convex(a, b, d, c) && TopOrLeft(c, a) && (Edge(d, c, a.x, a.y) > 0 ==> TopOrLeft(b, c))
    ensures TopOrLeft(d, c)
  {
    TurnIsCross(b, c, a);
    TurnIsCross(d, c, a);
    TurnIsCross(b, c, d);
    AreaTurned(Triangle(c, a, b));
    AreaTurned(Triangle(a, b, c));
    AreaTurned(Triangle(b, d, c));
    AreaTurned(Triangle(b, c, d));
    hide Cross, Edge;
    BetweenUpOrRight(c.x - b.x, c.y - b.y, a.x - c.x, a.y - c.y, c.x - d.x, c.y - d.y);
  }

  /** The four outer edges of the fan a b c, b c d, walked whichever way round the first half is wound. */
  predicate PassesOuter(a: Vertex, b: Vertex, c: Vertex, d: Vertex, x: int, y: int) {
    if Edge(b, c, a.x, a.y) > 0 then PassesOutline(a, b, d, c, x, y) else PassesOutline(a, c, d, b, x, y)
  }

  predicate NeverTurnsBack(a: Vertex, b: Vertex, c: Vertex, d: Vertex) { Convex(a, b, d, c) || Convex(a, c, d, b) }

  /**
    A quad is drawn as the fan a b c, b c d. As long as its outer corners lie on
    opposite sides of the diagonal, no pixel belongs to both triangles and any
    pixel inside the four outer edges belongs to one; and if no corner turns back
    the two triangles cover nothing else.
   */
  lemma QuadPartition(a: Vertex, b: Vertex, c: Vertex, d: Vertex, x: int, y: int)
    requires OppositeSides(b, c, a, d)
    ensures !(Covered(Triangle(a, b, c), x, y) && Covered(Triangle(b, c, d), x, y))
    ensures PassesOuter(a, b, c, d, x, y) ==> Covered(Triangle(a, b, c), x, y) || Covered(Triangle(b, c, d), x, y)
    ensures NeverTurnsBack(a, b, c, d) ==>
              (Covered(Triangle(a, b, c), x, y) || Covered(Triangle(b, c, d), x, y) ==> PassesOuter(a, b, c, d, x, y))
  {
    AreaTurned(Triangle(a, b, c));
    AreaTurned(Triangle(c, a, b));
    if Edge(b, c, a.x, a.y) > 0 {
      QuadHalves(a, b, c, d, x, y);
    } else {
      AreaTurned(Triangle(b, c, a));
      AreaTurned(Triangle(b, c, d));
      QuadHalves(a, c, b, d, x, y);
      CoverageIgnoresOrder(Triangle(a, c, b), Triangle(a, b, c), x, y);
      CoverageIgnoresOrder(Triangle(c, b, d), Triangle(b, c, d), x, y);
    }
    if Convex(a, b, d, c) { ConvexSplits(a, b, d, c); }
    if Convex(a, c, d, b) { ConvexSplits(a, c, d, b); }
  }

  /** A quad that never turns back is split by its diagonal. */
  lemma ConvexSplits(a: Vertex, b: Vertex, d: Vertex, c: Vertex)
    requires Convex(a, b, d, c)
    ensures Edge(b, c, a.x, a.y) > 0 && Edge(b, c, d.x, d.y) < 0 && Edge(c, b, a.x, a.y) < 0
  {
    AreaTurned(Triangle(c, a, b));
    AreaTurned(Triangle(a, b, c));
    AreaTurned(Triangle(b, d, c));
    AreaTurned(Triangle(b, c, a));
  }

  lemma QuadHalves(a: Vertex, b: Vertex, c: Vertex, d: Vertex, x: int, y: int)
    requires Edge(b, c, a.x, a.y) > 0 && Edge(b, c, d.x, d.y) < 0
    ensures !(Covered(Triangle(a, b, c), x, y) && Covered(Triangle(b, c, d), x, y))
    ensures PassesOutline(a, b, d, c, x, y) ==> Covered(Triangle(a, b, c), x, y) || Covered(Triangle(b, c, d), x, y)
    ensures Convex(a, b, d, c) ==>
              (Covered(Triangle(a, b, c), x, y) || Covered(Triangle(b, c, d), x, y) ==> PassesOutline(a, b, d, c, x, y))
  {
    AreaTurned(Triangle(b, c, a));
    AreaTurned(Triangle(c, a, b));
    AreaTurned(Triangle(a, b, c));
    AreaTurned(Triangle(b, c, d));
    SeamRule(b, c, x, y);
    if Convex(a, b, d, c) {
      if Covered(Triangle(a, b, c), x, y) { HalfWithinOutline(a, b, d, c, x, y); }
      if Covered(Triangle(b, c, d), x, y) { HalfWithinOutline(d, c, a, b, x, y); }
    }
  }
}
