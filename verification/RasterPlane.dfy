/** Interpolation planes: twelve-bit truncated steps read back through a wrapping register. */
module RasterPlane {
  import opened Words
  import opened RasterGeometry

  datatype Plane = Plane(corner: U32, stepX: U32, stepY: U32) {
    function At(x: int, y: int): U32 {
      ToU32(corner + ToU32(stepX * ToU32(x)) + ToU32(stepY * ToU32(y))) / 0x100_0000
    }
  }

  /** A gradient over det, truncated to twelve fractional bits. */
  function Gradient(numerator: int, det: int): int
    requires det != 0
  {
    TruncDiv(numerator * 0x1000, det)
  }

  /** The gradient as a step register holds it. */
  function PlaneStep(gradient: int): U32 { ToU32(ToU32(ToS32(gradient)) * 0x1000) }

  /** The value of one attribute at each corner. */
  datatype Values = Values(a: int, b: int, c: int)

  predicate IsByteValues(w: Values) { 0 <= w.a < 0x100 && 0 <= w.b < 0x100 && 0 <= w.c < 0x100 }

  function NumeratorX(t: Triangle, w: Values): int {
    (w.b - w.a) * (t.c.y - t.b.y) - (w.c - w.b) * (t.b.y - t.a.y)
  }

  function NumeratorY(t: Triangle, w: Values): int {
    (t.b.x - t.a.x) * (w.c - w.b) - (t.c.x - t.b.x) * (w.b - w.a)
  }

  function Determinant(t: Triangle): int {
    (t.b.x - t.a.x) * (t.c.y - t.b.y) - (t.c.x - t.b.x) * (t.b.y - t.a.y)
  }

  datatype Anchor = First | Second | Third

  function CornerAt(t: Triangle, n: Anchor): Vertex {
    match n case First => t.a case Second => t.b case Third => t.c
  }

  function ValueAt(w: Values, n: Anchor): int {
    match n case First => w.a case Second => w.b case Third => w.c
  }

  /** The plane through one anchored value with the two given gradients. */
  function PlaneThrough(value: int, gx: int, gy: int, ax: int, ay: int): Plane {
    var stepX := PlaneStep(gx);
    var stepY := PlaneStep(gy);
    var start := (ToU32(value) * 0x1000 + 0x800) * 0x1000;
    Plane(ToU32(start - stepX * ToU32(ax) - stepY * ToU32(ay)), stepX, stepY)
  }

  function PlaneOf(t: Triangle, anchor: Anchor, w: Values, det: int): Plane
    requires det != 0
  {
    var at := CornerAt(t, anchor);
    PlaneThrough(ValueAt(w, anchor), Gradient(NumeratorX(t, w), det), Gradient(NumeratorY(t, w), det), at.x, at.y)
  }

  // ---- the register is exact ----

  /** The unwrapped quantity the register holds, with the truncated steps qx and qy. */
  function Exact(value: int, qx: int, qy: int, dx: int, dy: int): int {
    value * 0x100_0000 + 0x80_0000 + 0x1000 * (qx * dx + qy * dy)
  }

  /** A cast is the number plus some whole turns. */
  lemma CastTurns(x: int) returns (k: int)
    ensures ToU32(x) == x + k * 0x1_0000_0000
  {
    k := -(x / 0x1_0000_0000);
  }

  lemma StepTurns(q: int) returns (k: int)
    ensures PlaneStep(q) == q * 0x1000 + k * 0x1_0000_0000
  {
    var u: int := ToU32(ToS32(q));
    assert u == ToU32(q);
    var m := CastTurns(q);
    var n := CastTurns(u * 0x1000);
    k := m * 0x1000 + n;
  }

  /** A product in the register, for a step and a coordinate that are each off by whole turns. */
  lemma ProductTurns(q: int, k: int, x: int, m: int) returns (n: int)
    ensures (q + k * 0x1_0000_0000) * (x + m * 0x1_0000_0000) == q * x + n * 0x1_0000_0000
  {
    n := q * m + k * x + k * m * 0x1_0000_0000;
  }

  lemma StepProduct(q: int, x: int) returns (n: int)
    ensures PlaneStep(q) * ToU32(x) == 0x1000 * (q * x) + n * 0x1_0000_0000
  {
    var k := StepTurns(q);
    var m := CastTurns(x);
    n := ProductTurns(q * 0x1000, k, x, m);
    assert (q * 0x1000) * x == 0x1000 * (q * x);
  }

  /** One axis of the read: the step times the pixel, less the step times the anchor. */
  lemma AxisTurns(q: int, x: int, anchor: int) returns (n: int)
    ensures ToU32(Carried(PlaneStep(q), x)) - Carried(PlaneStep(q), anchor) == 0x1000 * (q * (x - anchor)) + n * 0x1_0000_0000
  {
    var a := StepProduct(q, x);
    var b := StepProduct(q, anchor);
    var c := CastTurns(Carried(PlaneStep(q), x));
    n := a - b + c;
    assert q * (x - anchor) == q * x - q * anchor;
  }

  lemma SumOfTurns(base: int, across: int, down: int, corner: int, a: int, b: int, x: int, y: int, m: int, n: int)
    requires corner == ToU32(base - a - b)
    requires x - a == 0x1000 * across + m * 0x1_0000_0000 && y - b == 0x1000 * down + n * 0x1_0000_0000
    ensures ToU32(corner + x + y) == ToU32(base + 0x1000 * (across + down))
  {
    var k := CastTurns(base - a - b);
    WrapTurns(base + 0x1000 * (across + down), k + m + n);
  }

  /** A corner of the register's arithmetic: what a step comes to at a coordinate, before it is wrapped. */
  function Carried(step: U32, at: int): int { step * ToU32(at) }

  lemma ReadingIs(p: Plane, x: int, y: int)
    ensures p.At(x, y) == ToU32(p.corner + ToU32(Carried(p.stepX, x)) + ToU32(Carried(p.stepY, y))) / 0x100_0000
  {
  }

  lemma CornerIs(value: int, gx: int, gy: int, ax: int, ay: int)
    requires 0 <= value < 0x100
    ensures var p := PlaneThrough(value, gx, gy, ax, ay);
            && p.stepX == PlaneStep(gx) && p.stepY == PlaneStep(gy)
            && p.corner == ToU32(value * 0x100_0000 + 0x80_0000 - Carried(p.stepX, ax) - Carried(p.stepY, ay))
  {
    hide PlaneStep;
    assert ToU32(value) == value;
  }

  lemma RegisterIsExact(value: int, gx: int, gy: int, ax: int, ay: int, x: int, y: int)
    requires 0 <= value < 0x100
    ensures PlaneThrough(value, gx, gy, ax, ay).At(x, y) == ToU32(Exact(value, gx, gy, x - ax, y - ay)) / 0x100_0000
  {
    hide PlaneStep, ToU32, Carried, PlaneThrough, Plane.At;
    var p := PlaneThrough(value, gx, gy, ax, ay);
    CornerIs(value, gx, gy, ax, ay);
    ReadingIs(p, x, y);
    var m := AxisTurns(gx, x, ax);
    var n := AxisTurns(gy, y, ay);
    SumOfTurns(value * 0x100_0000 + 0x80_0000, gx * (x - ax), gy * (y - ay), p.corner, Carried(p.stepX, ax), Carried(p.stepY, ay),
               ToU32(Carried(p.stepX, x)), ToU32(Carried(p.stepY, y)), m, n);
  }

  // ---- the planes of a triangle ----

  datatype Attribute = Red | Green | Blue | Across | Down

  function AttributeOf(p: Vertex, k: Attribute): U8 {
    match k
    case Red => p.colour % 0x100
    case Green => p.colour / 0x100 % 0x100
    case Blue => p.colour / 0x1_0000 % 0x100
    case Across => p.u
    case Down => p.v
  }

  function ValuesOf(t: Triangle, k: Attribute): (w: Values)
    ensures IsByteValues(w)
  {
    Values(AttributeOf(t.a, k), AttributeOf(t.b, k), AttributeOf(t.c, k))
  }

  datatype Planes = Planes(red: Plane, green: Plane, blue: Plane, across: Plane, down: Plane) {
    function Of(k: Attribute): Plane {
      match k
      case Red => red
      case Green => green
      case Blue => blue
      case Across => across
      case Down => down
    }
  }

  /** Corners on their way down the screen, and where the anchor has been carried to. */
  datatype Order = Order(t: Triangle, anchor: Anchor)

  function AnchorOf(t: Triangle): Anchor {
    if t.b.x <= t.a.x then (if t.c.x <= t.b.x then Third else Second)
    else if t.c.x < t.a.x then Third
    else First
  }

  function SortFirstPair(o: Order): Order {
    if o.t.b.y >= o.t.a.y then o
    else Order(Triangle(o.t.b, o.t.a, o.t.c), if o.anchor.First? then Second else if o.anchor.Second? then First else Third)
  }

  function SortLastPair(o: Order): Order {
    if o.t.c.y >= o.t.b.y then o
    else Order(Triangle(o.t.a, o.t.c, o.t.b), if o.anchor.Second? then Third else if o.anchor.Third? then Second else First)
  }

  function SortDown(t: Triangle): Order { SortLastPair(SortFirstPair(SortLastPair(Order(t, AnchorOf(t))))) }

  function PlanesOf(t: Triangle): Planes
    requires Area(t) != 0
  {
    var o := SortDown(t);
    SortingKeepsArea(t);
    var det := Determinant(o.t);
    DeterminantIsArea(o.t);
    Planes(PlaneOf(o.t, o.anchor, ValuesOf(o.t, Red), det),
           PlaneOf(o.t, o.anchor, ValuesOf(o.t, Green), det),
           PlaneOf(o.t, o.anchor, ValuesOf(o.t, Blue), det),
           PlaneOf(o.t, o.anchor, ValuesOf(o.t, Across), det),
           PlaneOf(o.t, o.anchor, ValuesOf(o.t, Down), det))
  }

  lemma DeterminantIsArea(t: Triangle)
    ensures Determinant(t) == Area(t)
  {
    var dx, dy, ex, ey := t.b.x - t.a.x, t.b.y - t.a.y, t.c.x - t.b.x, t.c.y - t.b.y;
    assert Area(t) == dx * (dy + ey) - dy * (dx + ex);
    assert dx * (dy + ey) == dx * dy + dx * ey;
    assert dy * (dx + ex) == dy * dx + dy * ex;
    assert dy * ex == ex * dy && dx * dy == dy * dx;
  }

  lemma SortingKeepsArea(t: Triangle)
    ensures Abs(Area(SortDown(t).t)) == Abs(Area(t))
  {
    var one := SortLastPair(Order(t, AnchorOf(t)));
    var two := SortFirstPair(one);
    AreaTurned(t);
    AreaTurned(one.t);
    AreaTurned(two.t);
  }

  /** The sort is a sort, and what it carries along is still the leftmost corner. */
  lemma SortedAndAnchored(t: Triangle)
    ensures var o := SortDown(t);
            && o.t.a.y <= o.t.b.y <= o.t.c.y
            && multiset{o.t.a, o.t.b, o.t.c} == multiset{t.a, t.b, t.c}
            && CornerAt(o.t, o.anchor) == CornerAt(t, AnchorOf(t))
            && CornerAt(o.t, o.anchor).x == Min(t.a.x, Min(t.b.x, t.c.x))
  {
  }

  predicate SpansAtMost(t: Triangle, width: int, height: int) {
    && Max(t.a.x, Max(t.b.x, t.c.x)) - Min(t.a.x, Min(t.b.x, t.c.x)) <= width
    && Max(t.a.y, Max(t.b.y, t.c.y)) - Min(t.a.y, Min(t.b.y, t.c.y)) <= height
  }

  /** Corners are eleven bits each way, plus one offset for the lot: no triangle the GPU is given is larger. */
  lemma NamedTrianglesFit(t: Triangle, offsetX: int, offsetY: int)
    requires forall p :: p in {t.a, t.b, t.c} ==> -1024 <= p.x - offsetX <= 1023 && -1024 <= p.y - offsetY <= 1023
    ensures SpansAtMost(t, 2047, 2047)
  {
    assert t.a in {t.a, t.b, t.c} && t.b in {t.a, t.b, t.c} && t.c in {t.a, t.b, t.c};
  }

  /** Neither the numerators nor the truncated steps of such a triangle leave 32 bits. */
  lemma StepsFit(t: Triangle, k: Attribute)
    requires Area(t) != 0 && SpansAtMost(t, 2047, 2047)
    ensures var o := SortDown(t);
            var w := ValuesOf(o.t, k);
            && Abs(NumeratorX(o.t, w)) <= 255 * 2047 && Abs(NumeratorY(o.t, w)) <= 255 * 2047
            && Determinant(o.t) != 0
            && Abs(Gradient(NumeratorX(o.t, w), Determinant(o.t))) < 0x8000_0000
            && Abs(Gradient(NumeratorY(o.t, w), Determinant(o.t))) < 0x8000_0000
  {
    hide NumeratorX, NumeratorY, Determinant, Area, ValuesOf, SortDown;
    var o := SortDown(t);
    var w := ValuesOf(o.t, k);
    SortedAndAnchored(t);
    SortingKeepsArea(t);
    DeterminantIsArea(o.t);
    CornersAmong(o.t, t);
    NumeratorsFit(o.t, w);
    QuotientShrinks(NumeratorX(o.t, w) * 0x1000, Determinant(o.t));
    QuotientShrinks(NumeratorY(o.t, w) * 0x1000, Determinant(o.t));
  }

  lemma CornersAmong(s: Triangle, t: Triangle)
    requires multiset{s.a, s.b, s.c} == multiset{t.a, t.b, t.c}
    ensures s.a in {t.a, t.b, t.c} && s.b in {t.a, t.b, t.c} && s.c in {t.a, t.b, t.c}
  {
    assert s.a in multiset{s.a, s.b, s.c} && s.b in multiset{s.a, s.b, s.c} && s.c in multiset{s.a, s.b, s.c};
  }

  lemma NumeratorsFit(t: Triangle, w: Values)
    requires IsByteValues(w) && SpansAtMost(t, 2047, 2047)
    ensures Abs(NumeratorX(t, w)) <= 255 * 2047 && Abs(NumeratorY(t, w)) <= 255 * 2047
  {
    CrossFits(t.c.y - t.b.y, t.b.y - t.a.y, w.b - w.a, w.c - w.b);
    CrossFits(t.c.x - t.b.x, t.b.x - t.a.x, w.b - w.a, w.c - w.b);
    assert (t.b.x - t.a.x) * (w.c - w.b) == (w.c - w.b) * (t.b.x - t.a.x);
    assert (t.c.x - t.b.x) * (w.b - w.a) == (w.b - w.a) * (t.c.x - t.b.x);
  }

  /** Two steps and two rises whose sums are as small as themselves have a small cross product. */
  lemma CrossFits(p: int, q: int, u: int, v: int)
    requires Abs(p) <= 2047 && Abs(q) <= 2047 && Abs(p + q) <= 2047
    requires Abs(u) <= 255 && Abs(v) <= 255 && Abs(u + v) <= 255
    ensures Abs(u * p - v * q) <= 255 * 2047
  {
    AbsProduct(u, p, 255, Abs(p));
    AbsProduct(v, q, 255, Abs(q));
    AbsProduct(u, p + q, 255, Abs(p + q));
    AbsProduct(v, p + q, 255, Abs(p + q));
    AbsProduct(u + v, p, 255, Abs(p));
    AbsProduct(u + v, q, 255, Abs(q));
    CrossParts(p, q, u, v);
    CrossBounded(p, q, u * p, v * q, u * (p + q), v * (p + q), (u + v) * p, (u + v) * q);
  }

  lemma CrossParts(p: int, q: int, u: int, v: int)
    ensures u * p - v * q == u * (p + q) - (u + v) * q
    ensures u * p - v * q == (u + v) * p - v * (p + q)
  {
    MulAdd(p, q, u);
    MulAdd(p, q, v);
    MulAdd(u, v, p);
    MulAdd(u, v, q);
  }

  lemma CrossBounded(p: int, q: int, up: int, vq: int, us: int, vs: int, wp: int, wq: int)
    requires Abs(p) <= 2047 && Abs(q) <= 2047 && Abs(p + q) <= 2047
    requires up - vq == us - wq && up - vq == wp - vs
    requires Abs(up) <= 255 * Abs(p) && Abs(wp) <= 255 * Abs(p) && Abs(vq) <= 255 * Abs(q) && Abs(wq) <= 255 * Abs(q)
    requires Abs(us) <= 255 * Abs(p + q) && Abs(vs) <= 255 * Abs(p + q)
    ensures Abs(up - vq) <= 255 * 2047
  {
  }

  lemma QuotientShrinks(a: int, d: int)
    requires d != 0
    ensures Abs(TruncDiv(a, d)) <= Abs(a)
  {
    DivRemainder(Abs(a), Abs(d));
    Shrinks(Abs(a), Abs(d), Abs(a) / Abs(d));
  }

  lemma Shrinks(a: int, d: int, m: int)
    requires d > 0 && 0 <= a - m * d < d && a >= 0
    ensures 0 <= m <= a
  {
    if m < 0 { MulMono(m, -1, d); }
    MulMono(1, d, Abs(m));
  }

  // ---- the interpolation is exact enough ----

  /** Twice the area times the exact interpolated value: each edge function weighs the corner opposite. */
  function Weighted(t: Triangle, w: Values, x: int, y: int): int {
    Edge(t.b, t.c, x, y) * w.a + Edge(t.c, t.a, x, y) * w.b + Edge(t.a, t.b, x, y) * w.c
  }

  lemma PlaneIdentityAt(dx: int, dy: int, cx: int, cy: int, x: int, y: int, vb: int, vc: int)
    ensures (cy * x - cx * y) * vb + (dx * y - dy * x) * vc ==
            (vb * (cy - dy) - (vc - vb) * dy) * x + (dx * (vc - vb) - (cx - dx) * vb) * y
  {
    assert vb * (cy - dy) - (vc - vb) * dy == vb * cy - vc * dy;
    assert dx * (vc - vb) - (cx - dx) * vb == dx * vc - cx * vb;
    assert (vb * cy - vc * dy) * x == (cy * x) * vb - (dy * x) * vc;
    assert (dx * vc - cx * vb) * y == (dx * y) * vc - (cx * y) * vb;
  }

  /** The weighted mean moves off its first corner by exactly the two numerators. */
  lemma PlaneIdentity(t: Triangle, w: Values, x: int, y: int)
    ensures Weighted(t, w, x, y) - w.a * Area(t) == NumeratorX(t, w) * (x - t.a.x) + NumeratorY(t, w) * (y - t.a.y)
  {
    hide Edge, Area, NumeratorX, NumeratorY;
    WeightsSum(t, x, y);
    PlaneIdentityFromFirst(t, w, x, y);
    Regroup(Area(t), Edge(t.b, t.c, x, y), Edge(t.c, t.a, x, y), Edge(t.a, t.b, x, y), w.a, w.b, w.c);
  }

  lemma Regroup(area: int, p: int, q: int, r: int, a: int, b: int, c: int)
    requires p + q + r == area
    ensures p * a + q * b + r * c - a * area == q * (b - a) + r * (c - a)
  {
    assert p * a == (area - q - r) * a == a * area - q * a - r * a;
  }

  lemma PlaneIdentityFromFirst(t: Triangle, w: Values, x: int, y: int)
    ensures Edge(t.c, t.a, x, y) * (w.b - w.a) + Edge(t.a, t.b, x, y) * (w.c - w.a) ==
            NumeratorX(t, w) * (x - t.a.x) + NumeratorY(t, w) * (y - t.a.y)
  {
    var dx, dy, cx, cy := t.b.x - t.a.x, t.b.y - t.a.y, t.c.x - t.a.x, t.c.y - t.a.y;
    PlaneIdentityAt(dx, dy, cx, cy, x - t.a.x, y - t.a.y, w.b - w.a, w.c - w.a);
    assert NumeratorX(t, w) == (w.b - w.a) * (cy - dy) - ((w.c - w.a) - (w.b - w.a)) * dy;
    assert NumeratorY(t, w) == dx * ((w.c - w.a) - (w.b - w.a)) - (cx - dx) * (w.b - w.a);
    FirstWeights(t, x, y);
  }

  lemma FirstWeights(t: Triangle, x: int, y: int)
    ensures Edge(t.c, t.a, x, y) == (t.c.y - t.a.y) * (x - t.a.x) - (t.c.x - t.a.x) * (y - t.a.y)
    ensures Edge(t.a, t.b, x, y) == (t.b.x - t.a.x) * (y - t.a.y) - (t.b.y - t.a.y) * (x - t.a.x)
  {
    EdgeAbout(t.a, t.c, t.a, x, y);
  }

  /** The same from whichever corner is the anchor. */
  lemma AnchoredIdentity(t: Triangle, w: Values, n: Anchor, x: int, y: int)
    ensures var at := CornerAt(t, n);
            Weighted(t, w, x, y) - ValueAt(w, n) * Area(t) == NumeratorX(t, w) * (x - at.x) + NumeratorY(t, w) * (y - at.y)
  {
    var at := CornerAt(t, n);
    PlaneIdentity(t, w, x, y);
    PlaneIdentity(t, w, at.x, at.y);
    CornerWeight(t, w, n);
    var nx, ny := NumeratorX(t, w), NumeratorY(t, w);
    assert nx * (x - at.x) == nx * (x - t.a.x) - nx * (at.x - t.a.x);
    assert ny * (y - at.y) == ny * (y - t.a.y) - ny * (at.y - t.a.y);
  }

  /** At a corner the weights pick out its own value. */
  lemma CornerWeight(t: Triangle, w: Values, n: Anchor)
    ensures var at := CornerAt(t, n); Weighted(t, w, at.x, at.y) == ValueAt(w, n) * Area(t)
  {
    AreaTurned(t);
    AreaTurned(Triangle(t.b, t.c, t.a));
  }

  predicate ClosedInside(t: Triangle, x: int, y: int) {
    var p, q, r := Edge(t.b, t.c, x, y), Edge(t.c, t.a, x, y), Edge(t.a, t.b, x, y);
    (Area(t) > 0 && p >= 0 && q >= 0 && r >= 0) || (Area(t) < 0 && p <= 0 && q <= 0 && r <= 0)
  }

  function Share(t: Triangle, w: Values, x: int, y: int): int {
    if Area(t) < 0 then -Weighted(t, w, x, y) else Weighted(t, w, x, y)
  }

  function Lowest(w: Values): int { Min(w.a, Min(w.b, w.c)) }

  function Highest(w: Values): int { Max(w.a, Max(w.b, w.c)) }

  lemma WeighedBetween(p: int, q: int, r: int, w: Values)
    requires p >= 0 && q >= 0 && r >= 0
    ensures Lowest(w) * (p + q + r) <= p * w.a + q * w.b + r * w.c <= Highest(w) * (p + q + r)
  {
    var lo, hi := Lowest(w), Highest(w);
    MulMono(lo, w.a, p); MulMono(lo, w.b, q); MulMono(lo, w.c, r);
    MulMono(w.a, hi, p); MulMono(w.b, hi, q); MulMono(w.c, hi, r);
    assert lo * (p + q + r) == lo * p + lo * q + lo * r;
    assert hi * (p + q + r) == hi * p + hi * q + hi * r;
  }

  lemma ShareBetween(t: Triangle, w: Values, x: int, y: int)
    requires ClosedInside(t, x, y)
    ensures Lowest(w) * Abs(Area(t)) <= Share(t, w, x, y) <= Highest(w) * Abs(Area(t))
  {
    hide Edge, Lowest, Highest;
    var p, q, r := Edge(t.b, t.c, x, y), Edge(t.c, t.a, x, y), Edge(t.a, t.b, x, y);
    WeightsSum(t, x, y);
    if Area(t) > 0 {
      WeighedBetween(p, q, r, w);
    } else {
      WeighedBetween(-p, -q, -r, w);
      WeightsNegated(p, q, r, w.a, w.b, w.c);
    }
  }

  /** A covered pixel lies in the corners' own bounding box. */
  lemma InsideBox(t: Triangle, x: int, y: int)
    requires ClosedInside(t, x, y)
    ensures Min(t.a.x, Min(t.b.x, t.c.x)) <= x <= Max(t.a.x, Max(t.b.x, t.c.x))
    ensures Min(t.a.y, Min(t.b.y, t.c.y)) <= y <= Max(t.a.y, Max(t.b.y, t.c.y))
  {
    var xs, ys := Values(t.a.x, t.b.x, t.c.x), Values(t.a.y, t.b.y, t.c.y);
    PlaneIdentity(t, xs, x, y);
    PlaneIdentity(t, ys, x, y);
    DeterminantIsArea(t);
    ShareBetween(t, xs, x, y);
    ShareBetween(t, ys, x, y);
    CoordinateNumerators(t);
    Coordinate(t.a.x, Area(t), x, Weighted(t, xs, x, y), Lowest(xs), Highest(xs));
    Coordinate(t.a.y, Area(t), y, Weighted(t, ys, x, y), Lowest(ys), Highest(ys));
  }

  lemma CoordinateNumerators(t: Triangle)
    ensures var xs, ys := Values(t.a.x, t.b.x, t.c.x), Values(t.a.y, t.b.y, t.c.y);
            && NumeratorX(t, xs) == Determinant(t) && NumeratorY(t, xs) == 0
            && NumeratorX(t, ys) == 0 && NumeratorY(t, ys) == Determinant(t)
  {
  }

  lemma Coordinate(a: int, area: int, x: int, s: int, lo: int, hi: int)
    requires area != 0 && s - a * area == area * (x - a)
    requires lo * Abs(area) <= (if area < 0 then -s else s) <= hi * Abs(area)
    ensures lo <= x <= hi
  {
    assert s == area * x;
    var d := Abs(area);
    assert (if area < 0 then -s else s) == x * d;
    CancelFactor(lo, x, d);
    CancelFactor(x, hi, d);
  }

  /** Part of the way to a number, from nought. */
  predicate Toward(part: int, whole: int) { 0 <= part <= whole || whole <= part <= 0 }

  lemma TowardScaled(part: int, whole: int, short: int, c: int)
    requires Toward(part, whole) && Abs(whole - part) <= short
    ensures Toward(part * c, whole * c) && Abs(whole * c - part * c) <= Abs(c) * short
  {
    MulMono(0, Abs(part), Abs(c));
    MulMono(Abs(part), Abs(whole), Abs(c));
    MulMono(Abs(whole - part), short, Abs(c));
    assert whole * c - part * c == (whole - part) * c;
    Signs(part, c);
    Signs(whole, c);
    Signs(whole - part, c);
  }

  lemma Signs(a: int, b: int)
    ensures a * b == if (a < 0) == (b < 0) then Abs(a) * Abs(b) else -(Abs(a) * Abs(b))
  {
    if a < 0 {
      if b < 0 { assert a * b == (-a) * (-b); } else { assert a * b == -((-a) * b); }
    } else if b < 0 {
      assert a * b == -(a * (-b));
    }
  }

  /** One axis, scaled by the area: truncation falls short of the exact rise, and never by more than a part for each pixel. */
  lemma StepError(n: int, det: int, d: int)
    requires det != 0
    ensures var part, whole := Gradient(n, det) * d * Abs(det), 0x1000 * (n * (if det < 0 then -d else d));
            Toward(part, whole) && Abs(whole - part) <= Abs(d) * Abs(det)
  {
    hide TruncDiv;
    var g, c := Gradient(n, det), if det < 0 then -d else d;
    TruncDivRemainder(n * 0x1000, det);
    assert Toward(g * det, n * 0x1000);
    hide Gradient, Toward;
    TowardScaled(g * det, n * 0x1000, Abs(det), c);
    TurnedRound(g, det, d);
    MulAssoc(0x1000, n, c);
  }

  lemma TurnedRound(g: int, det: int, d: int)
    ensures (g * det) * (if det < 0 then -d else d) == g * d * Abs(det)
  {
    MulAssoc(g, det, d);
    MulAssoc(g, d, det);
    if det < 0 {
      MulAssoc(g, det, -d);
      MulAssoc(g, d, -det);
      assert det * -d == d * -det;
    } else {
      assert det * d == d * det;
    }
  }

  /** The exact register value, scaled by the area, beside the share it stands for. */
  lemma ExactScaled(value: int, nx: int, ny: int, det: int, dx: int, dy: int, weighted: int) returns (p: int, q: int, x: int, y: int)
    requires det != 0 && weighted - value * det == nx * dx + ny * dy
    ensures Exact(value, Gradient(nx, det), Gradient(ny, det), dx, dy) * Abs(det) ==
            0x1000 * (0x1000 * (value * Abs(det)) + 0x800 * Abs(det) + p + q)
    ensures 0x1000 * (if det < 0 then -weighted else weighted) == 0x1000 * (value * Abs(det)) + x + y
    ensures Toward(p, x) && Abs(x - p) <= Abs(dx) * Abs(det)
    ensures Toward(q, y) && Abs(y - q) <= Abs(dy) * Abs(det)
  {
    hide Gradient, Toward;
    var gx, gy, d := Gradient(nx, det), Gradient(ny, det), Abs(det);
    p, q := gx * dx * d, gy * dy * d;
    x, y := 0x1000 * (nx * (if det < 0 then -dx else dx)), 0x1000 * (ny * (if det < 0 then -dy else dy));
    StepError(nx, det, dx);
    StepError(ny, det, dy);
    ScaleUp(value, gx * dx, gy * dy, d);
    if det < 0 {
      assert value * d == -(value * det) && nx * (-dx) == -(nx * dx) && ny * (-dy) == -(ny * dy);
    }
  }

  lemma ScaleUp(value: int, g: int, h: int, d: int)
    ensures (value * 0x100_0000 + 0x80_0000 + 0x1000 * (g + h)) * d == 0x1000 * (0x1000 * (value * d) + 0x800 * d + g * d + h * d)
  {
    MulAdd(value * 0x100_0000 + 0x80_0000, 0x1000 * (g + h), d);
    MulAdd(value * 0x100_0000, 0x80_0000, d);
    MulAssoc(0x100_0000, value, d);
    MulAssoc(0x1000, g + h, d);
    MulAdd(g, h, d);
  }

  /**
    The two axes together. Where they pull the same way the truncated sum stays between the anchor's
    value and the exact one; where they pull apart their errors do too, and only one of them counts.
   */
  lemma TwoAxes(v: int, x: int, y: int, p: int, q: int, m: int, lo: int, hi: int)
    requires lo <= v <= hi && lo <= v + x + y <= hi
    requires Toward(p, x) && Toward(q, y) && Abs(x - p) <= m && Abs(y - q) <= m
    ensures lo - m <= v + p + q <= hi + m
  {
  }

  /** So the register never leaves the corners' range, let alone wraps. */
  lemma NeverWraps(exact: int, area: int, v: int, x: int, y: int, p: int, q: int, lo: int, hi: int)
    requires area > 0 && exact * area == 0x1000 * (v + 0x800 * area + p + q)
    requires 0x1000 * (lo * area) <= v <= 0x1000 * (hi * area)
    requires 0x1000 * (lo * area) <= v + x + y <= 0x1000 * (hi * area)
    requires Toward(p, x) && Toward(q, y) && Abs(x - p) <= 2047 * area && Abs(y - q) <= 2047 * area
    ensures lo * 0x100_0000 <= exact <= hi * 0x100_0000 + 0xFF_FFFF
  {
    hide Toward;
    Ranged(exact * area, area, v, x, y, p, q, lo * area, hi * area);
    MulAssoc(0x100_0000, lo, area);
    MulAssoc(0x100_0000, hi, area);
    MulAdd(0x100_0000 * hi, 0xFF_FFFF, area);
    CancelFactor(0x100_0000 * lo, exact, area);
    CancelFactor(exact, 0x100_0000 * hi + 0xFF_FFFF, area);
  }

  lemma Ranged(scaled: int, area: int, v: int, x: int, y: int, p: int, q: int, lo: int, hi: int)
    requires area > 0 && scaled == 0x1000 * (v + 0x800 * area + p + q)
    requires 0x1000 * lo <= v <= 0x1000 * hi && 0x1000 * lo <= v + x + y <= 0x1000 * hi
    requires Toward(p, x) && Toward(q, y) && Abs(x - p) <= 2047 * area && Abs(y - q) <= 2047 * area
    ensures 0x100_0000 * lo <= scaled <= 0x100_0000 * hi + 0xFF_FFFF * area
  {
    hide Toward;
    TwoAxes(v, x, y, p, q, 2047 * area, 0x1000 * lo, 0x1000 * hi);
  }

  /** And its whole part is half a level, and what the steps lost, from the share. */
  lemma WholePart(exact: int, area: int, share: int, v: int, x: int, y: int, p: int, q: int, lost: int)
    requires area > 0 && exact * area == 0x1000 * (v + 0x800 * area + p + q)
    requires 0x1000 * share == v + x + y && Abs(x - p) + Abs(y - q) <= lost
    ensures 0x1000 * Abs(exact / 0x100_0000 * area - share) <= 0x800 * area + lost
  {
    var whole := exact / 0x100_0000;
    WholeScaled(exact, area, whole);
  }

  lemma WholeScaled(exact: int, area: int, whole: int)
    requires area > 0 && whole * 0x100_0000 <= exact <= whole * 0x100_0000 + 0xFF_FFFF
    ensures 0x100_0000 * (whole * area) <= exact * area <= 0x100_0000 * (whole * area) + 0xFF_FFFF * area
  {
    MulMono(whole * 0x100_0000, exact, area);
    MulMono(exact, whole * 0x100_0000 + 0xFF_FFFF, area);
    MulAdd(whole * 0x100_0000, 0xFF_FFFF, area);
    MulAssoc(0x100_0000, whole, area);
  }

  /** One attribute of one triangle, with the corners in any order and the anchor on any of them. */
  lemma PlaneWithin(t: Triangle, n: Anchor, w: Values, x: int, y: int)
    requires ClosedInside(t, x, y) && IsByteValues(w) && SpansAtMost(t, 2047, 2047)
    ensures var shade, at := PlaneOf(t, n, w, Area(t)).At(x, y), CornerAt(t, n);
            && Lowest(w) <= shade <= Highest(w)
            && 0x1000 * Abs(shade * Abs(Area(t)) - Share(t, w, x, y)) <= (0x800 + Abs(x - at.x) + Abs(y - at.y)) * Abs(Area(t))
  {
    hide ClosedInside, Weighted, NumeratorX, NumeratorY, Gradient, Exact, Toward, Area, PlaneThrough, ToU32;
    var at, det, nx, ny := CornerAt(t, n), Area(t), NumeratorX(t, w), NumeratorY(t, w);
    var value, area, share := ValueAt(w, n), Abs(det), Share(t, w, x, y);
    var dx, dy := x - at.x, y - at.y;
    assert area > 0 by { HasArea(t, x, y); }
    InsideBox(t, x, y);
    AnchoredIdentity(t, w, n, x, y);
    RegisterIsExact(value, Gradient(nx, det), Gradient(ny, det), at.x, at.y, x, y);
    var exact := Exact(value, Gradient(nx, det), Gradient(ny, det), dx, dy);
    var p, q, a, b := ExactScaled(value, nx, ny, det, dx, dy, Weighted(t, w, x, y));
    ShareBetween(t, w, x, y);
    MulMono(Lowest(w), value, area);
    MulMono(value, Highest(w), area);
    MulMono(Abs(dx), 2047, area);
    MulMono(Abs(dy), 2047, area);
    NeverWraps(exact, area, 0x1000 * (value * area), a, b, p, q, Lowest(w), Highest(w));
    MulAdd(Abs(dx), Abs(dy), area);
    MulAdd(0x800, Abs(dx) + Abs(dy), area);
    WholePart(exact, area, share, 0x1000 * (value * area), a, b, p, q, (Abs(dx) + Abs(dy)) * area);
    InRegister(exact, Lowest(w), Highest(w));
  }

  lemma HasArea(t: Triangle, x: int, y: int)
    requires ClosedInside(t, x, y)
    ensures Area(t) != 0
  {
  }

  lemma InRegister(exact: int, lo: int, hi: int)
    requires 0 <= lo && hi <= 0xFF && lo * 0x100_0000 <= exact <= hi * 0x100_0000 + 0xFF_FFFF
    ensures ToU32(exact) == exact && lo <= exact / 0x100_0000 <= hi
  {
  }

  /** Nothing the theorem is about depends on the order of the corners. */
  predicate SameShares(s: Triangle, t: Triangle, k: Attribute, x: int, y: int) {
    && Abs(Area(s)) == Abs(Area(t)) && (ClosedInside(s, x, y) <==> ClosedInside(t, x, y))
    && Share(s, ValuesOf(s, k), x, y) == Share(t, ValuesOf(t, k), x, y)
    && (SpansAtMost(s, 2047, 2047) <==> SpansAtMost(t, 2047, 2047))
    && Lowest(ValuesOf(s, k)) == Lowest(ValuesOf(t, k)) && Highest(ValuesOf(s, k)) == Highest(ValuesOf(t, k))
  }

  lemma MirroredShares(s: Triangle, t: Triangle, k: Attribute, x: int, y: int)
    requires Area(t) != 0
    requires s == Triangle(t.a, t.c, t.b) || s == Triangle(t.b, t.a, t.c)
    ensures SameShares(s, t, k, x, y)
  {
    hide Edge, Weighted, ClosedInside, ValuesOf, SpansAtMost, Lowest, Highest;
    AreaTurned(t);
    MirroredRange(s, t, k);
    MirroredInside(s, t, x, y);
    MirroredWeights(s, t, k, x, y);
  }

  lemma MirroredRange(s: Triangle, t: Triangle, k: Attribute)
    requires s == Triangle(t.a, t.c, t.b) || s == Triangle(t.b, t.a, t.c)
    ensures SpansAtMost(s, 2047, 2047) <==> SpansAtMost(t, 2047, 2047)
    ensures Lowest(ValuesOf(s, k)) == Lowest(ValuesOf(t, k)) && Highest(ValuesOf(s, k)) == Highest(ValuesOf(t, k))
  {
    hide AttributeOf;
  }

  lemma MirroredInside(s: Triangle, t: Triangle, x: int, y: int)
    requires s == Triangle(t.a, t.c, t.b) || s == Triangle(t.b, t.a, t.c)
    ensures ClosedInside(s, x, y) <==> ClosedInside(t, x, y)
  {
    AreaTurned(t);
    EdgeReversed(t.a, t.b, x, y);
    EdgeReversed(t.b, t.c, x, y);
    EdgeReversed(t.c, t.a, x, y);
  }

  lemma MirroredWeights(s: Triangle, t: Triangle, k: Attribute, x: int, y: int)
    requires s == Triangle(t.a, t.c, t.b) || s == Triangle(t.b, t.a, t.c)
    ensures Weighted(s, ValuesOf(s, k), x, y) == -Weighted(t, ValuesOf(t, k), x, y)
  {
    EdgeReversed(t.a, t.b, x, y);
    EdgeReversed(t.b, t.c, x, y);
    EdgeReversed(t.c, t.a, x, y);
    WeightsNegated(Edge(t.b, t.c, x, y), Edge(t.c, t.a, x, y), Edge(t.a, t.b, x, y),
                   AttributeOf(t.a, k), AttributeOf(t.b, k), AttributeOf(t.c, k));
  }

  lemma WeightsNegated(p: int, q: int, r: int, a: int, b: int, c: int)
    ensures (-p) * a + (-q) * b + (-r) * c == -(p * a + q * b + r * c)
  {
  }

  lemma SortedShares(t: Triangle, k: Attribute, x: int, y: int)
    requires Area(t) != 0
    ensures SameShares(SortDown(t).t, t, k, x, y)
  {
    hide Edge, Weighted, ClosedInside, ValuesOf, SpansAtMost, Lowest, Highest;
    var one := SortLastPair(Order(t, AnchorOf(t)));
    var two := SortFirstPair(one);
    var three := SortLastPair(two);
    if one.t != t { MirroredShares(one.t, t, k, x, y); }
    if two.t != one.t { MirroredShares(two.t, one.t, k, x, y); }
    if three.t != two.t { MirroredShares(three.t, two.t, k, x, y); }
  }

  lemma CoveredIsInside(t: Triangle, x: int, y: int)
    requires Covered(t, x, y)
    ensures ClosedInside(t, x, y)
  {
    if Area(t) < 0 {
      EdgeReversed(t.a, t.b, x, y);
      EdgeReversed(t.b, t.c, x, y);
      EdgeReversed(t.c, t.a, x, y);
    }
  }

  lemma CoveredHasArea(t: Triangle, x: int, y: int)
    requires Covered(t, x, y)
    ensures Area(t) != 0
  {
  }

  /**
    Every colour channel and texture coordinate of every covered pixel of every triangle the GPU can
    be given, as the hardware's wrapping twelve-bit planes have it, lies between the corners' own
    values. It is out by half a level, and a 4096th of one for each pixel across and down from the
    leftmost corner: 7/8 of a level over as much as VRAM holds.
   */
  lemma PlanesStayWithinCorners(t: Triangle, k: Attribute, x: int, y: int)
    requires Covered(t, x, y) && SpansAtMost(t, 2047, 2047)
    ensures var shade, at := PlanesOf(t).Of(k).At(x, y), CornerAt(t, AnchorOf(t));
            && Lowest(ValuesOf(t, k)) <= shade <= Highest(ValuesOf(t, k))
            && 0x1000 * Abs(shade * Abs(Area(t)) - Share(t, ValuesOf(t, k), x, y)) <= (0x800 + Abs(x - at.x) + Abs(y - at.y)) * Abs(Area(t))
            && (SpansAtMost(t, 1023, 511) ==> 8 * Abs(shade * Abs(Area(t)) - Share(t, ValuesOf(t, k), x, y)) < 7 * Abs(Area(t)))
  {
    hide Edge, Weighted, Covered, ClosedInside, ValuesOf, PlaneOf, PlanesOf, SortDown, Lowest, Highest, AnchorOf, Share, Area, Plane.At;
    assert Area(t) != 0 by { CoveredHasArea(t, x, y); }
    CoveredIsInside(t, x, y);
    SortedShares(t, k, x, y);
    SortedAndAnchored(t);
    var o := SortDown(t);
    PlaneWithin(o.t, o.anchor, ValuesOf(o.t, k), x, y);
    PlaneOfAttribute(t, k);
    if SpansAtMost(t, 1023, 511) { WithinVram(t, CornerAt(t, AnchorOf(t)), x, y); }
  }

  /** No pixel of a triangle that fits VRAM is more than 1534 from a corner, counting both ways. */
  lemma WithinVram(t: Triangle, at: Vertex, x: int, y: int)
    requires ClosedInside(t, x, y) && SpansAtMost(t, 1023, 511) && at in {t.a, t.b, t.c}
    ensures (0x800 + Abs(x - at.x) + Abs(y - at.y)) * Abs(Area(t)) <= 3582 * Abs(Area(t)) && Area(t) != 0
  {
    HasArea(t, x, y);
    InsideBox(t, x, y);
    hide ClosedInside, Area;
    MulMono(0x800 + Abs(x - at.x) + Abs(y - at.y), 3582, Abs(Area(t)));
  }

  lemma PlaneOfAttribute(t: Triangle, k: Attribute)
    requires Area(t) != 0
    ensures var o := SortDown(t);
            Area(o.t) != 0 && PlanesOf(t).Of(k) == PlaneOf(o.t, o.anchor, ValuesOf(o.t, k), Area(o.t))
  {
    SortingKeepsArea(t);
    DeterminantIsArea(SortDown(t).t);
  }
}
