/** The geometry engine's perspective divide and its 44-bit accumulators. */
module Gte {
  import opened Words

  // ---- the reciprocal ----

  /** A byte of the seed table, and the seed it stands for. */
  function TableEntry(i: int): int
    requires 0 <= i <= 256
  {
    Max(0, (0x40000 / (i + 0x100) + 1) / 2 - 0x101)
  }

  function Seed(i: int): int
    requires 0 <= i <= 256
  {
    TableEntry(i) + 0x101
  }

  method MakeReciprocalTable() returns (table: array<U8>)
    ensures fresh(table) && table.Length == 257
    ensures forall i :: 0 <= i <= 256 ==> table[i] == TableEntry(i)
  {
    table := new U8[257](_ => 0);
    for i := 0 to 257
      invariant forall j :: 0 <= j < i ==> table[j] == TableEntry(j)
    {
      var seed := 0x40000 / (i + 0x100);
      SeedBounds(i);
      table[i] := Max(0, (seed + 1) / 2 - 0x101);
    }
  }

  /** The quotient with its rounding made explicit. */
  lemma Halved(m: int) returns (q: int, u: int)
    requires 256 <= m <= 512
    ensures q == 0x40000 / m && u == (q + 1) / 2
    ensures 0x40000 - m < q * m <= 0x40000
    ensures 0x40000 - m < 2 * (u * m) <= 0x40000 + m
  {
    q := 0x40000 / m;
    u := (q + 1) / 2;
    DivRemainder(0x40000, m);
    if 2 * u == q {
      assert 2 * (u * m) == q * m;
    } else {
      assert 2 * u == q + 1;
      assert 2 * (u * m) == q * m + m;
    }
  }

  /** A seed fits a byte, and with its index it never exceeds 768. */
  lemma SeedBounds(i: int)
    requires 0 <= i <= 256
    ensures 0 <= TableEntry(i) <= 0xFF
    ensures i < 256 ==> Seed(i) == (0x40000 / (i + 0x100) + 1) / 2 && Seed(i) + (i + 0x100) <= 768
    ensures i == 256 ==> Seed(i) == 257
  {
    var m := i + 0x100;
    var q, u := Halved(m);
    if i < 256 {
      // (m - 256)(m - 512) <= 0, and u m is 2^17 to within m / 2.
      Sagitta(m);
      if u > 768 - m {
        MulMono(769 - m, u, m);
      }
      if u <= 256 {
        MulMono(u, 256, m);
      }
    }
  }

  lemma Sagitta(m: int)
    requires 256 <= m <= 512
    ensures (768 - m) * m >= 0x20000 && (769 - m) * m == (768 - m) * m + m
  {
    MulMono(0, 512 - m, m - 256);
    assert (512 - m) * (m - 256) == 768 * m - m * m - 0x20000;
    assert (768 - m) * m == 768 * m - m * m;
  }

  // ---- normalising the divisor ----

  /** countl_zero of a sixteen-bit divisor. */
  function LeadingZeros(x: U16): nat
    requires x > 0
    decreases 0x10000 - x
  {
    if x >= 0x8000 then 0 else 1 + LeadingZeros(2 * x)
  }

  lemma {:induction false} Normalises(x: U16)
    requires x > 0
    ensures 0x8000 <= x * PowerOfTwo(LeadingZeros(x)) <= 0xFFFF
    ensures LeadingZeros(x) <= 15
    decreases 0x10000 - x
  {
    if x < 0x8000 {
      Normalises(2 * x);
      Doubled(x, LeadingZeros(2 * x));
    }
    PowerSteps(LeadingZeros(x), x);
  }

  lemma Doubled(x: int, n: nat)
    ensures x * PowerOfTwo(n + 1) == (2 * x) * PowerOfTwo(n)
  {
    assert x * (2 * PowerOfTwo(n)) == (2 * x) * PowerOfTwo(n);
  }

  lemma {:induction false} PowerSteps(n: nat, x: int)
    requires 1 <= x && x * PowerOfTwo(n) <= 0xFFFF
    ensures n <= 15
  {
    if n > 15 {
      PowerAtLeast(n);
      MulMono(1, x, PowerOfTwo(n));
    }
  }

  lemma PowerAtLeast(n: nat)
    ensures n > 15 ==> PowerOfTwo(n) >= 0x10000
  {
    assert PowerOfTwo(4) == 16;
    assert PowerOfTwo(8) == 16 * PowerOfTwo(4);
    assert PowerOfTwo(12) == 16 * PowerOfTwo(8);
    assert PowerOfTwo(16) == 16 * PowerOfTwo(12);
    if n > 15 { PowersGrow(16, n); }
  }

  // ---- the two refinements ----

  function TableIndex(d: int): int { (d - 0x7FC0) / 0x80 }

  function Refined(d: int, u: int): int { (0x2000080 - d * u) / 0x100 }

  function RefinedAgain(x: int, u: int): int { (0x80 + x * u) / 0x100 }

  function Reciprocal(d: int, u: int): int { RefinedAgain(Refined(d, u), u) }

  function Product(n: int, r: int): int { (n * r + 0x8000) / 0x10000 }

  function Scaled(n: int, d: int): int
    requires 0x8000 <= d <= 0xFFFF
  {
    Product(n, Reciprocal(d, Seed(TableIndex(d))))
  }

  /** How far the seed is from the true reciprocal, as a defect of d u from 2^24. */
  lemma SeedDefect(d: int) returns (i: int, u: int, e: int)
    requires 0x8000 <= d <= 0xFFFF
    ensures i == TableIndex(d) && 0 <= i <= 256 && u == Seed(i) && e == 0x1000000 - d * u
    ensures 256 <= u <= 512
    ensures i < 256 ==> Abs(e) <= 49152
    ensures i == 256 ==> u == 257 && d >= 65472
  {
    i := TableIndex(d);
    u := Seed(i);
    e := 0x1000000 - d * u;
    SeedBounds(i);
    hide Seed;
    if i < 256 {
      var m := i + 0x100;
      var q, v := Halved(m);
      var s := d - (128 * m - 64);
      assert 0 <= s <= 127;
      hide TableIndex;
      SeedScaled(m, u, s - 64);
    }
  }

  /** A divisor off the middle of its table step, times the step's seed. */
  lemma SeedScaled(m: int, u: int, off: int)
    requires u + m <= 768 && 256 <= u && 256 <= m && -64 <= off <= 63 && 0x40000 - m < 2 * (u * m) <= 0x40000 + m
    ensures Abs(0x1000000 - (128 * m + off) * u) <= 49152
  {
    MulAdd(128 * m, off, u);
    MulAssoc(128, m, u);
    AbsProduct(off, u, 64, u);
    assert m * u == u * m;
  }

  /** Two Newton steps, exactly: the error is the square of the defect and the two roundings. */
  lemma NewtonError(d: int, u: int, e: int) returns (s: int, t: int)
    requires e == 0x1000000 - d * u
    ensures -127 <= s <= 128 && -127 <= t <= 128
    ensures 0x100 * Refined(d, u) == 0x1000000 + e + s
    ensures 0x10000 * (Reciprocal(d, u) * d - 0x1_0000_0000) == -(e * e) + s * (d * u) + 0x100 * (t * d)
  {
    var x, r := Refined(d, u), Reciprocal(d, u);
    s := 0x100 * x - (0x1000000 + e);
    t := 0x100 * r - x * u;
    Expanded(d, u, e, x, r, s, t);
  }

  lemma Expanded(d: int, u: int, e: int, x: int, r: int, s: int, t: int)
    requires d * u == 0x1000000 - e && 0x100 * x == 0x1000000 + e + s && 0x100 * r == x * u + t
    ensures 0x10000 * (r * d - 0x1_0000_0000) == -(e * e) + s * (d * u) + 0x100 * (t * d)
  {
    assert 0x100 * (r * d) == (x * u + t) * d == x * (d * u) + t * d;
    assert 0x100 * (x * (d * u)) == (0x1000000 + e + s) * (d * u) == 0x1000000 * (d * u) + e * (d * u) + s * (d * u);
    assert e * (d * u) == e * (0x1000000 - e) == 0x1000000 * e - e * e;
  }

  /** The reciprocal times the divisor is 2^32 to within 25/16 of 2^16. */
  lemma ReciprocalError(d: int)
    requires 0x8000 <= d <= 0xFFFF
    ensures Abs(Reciprocal(d, Seed(TableIndex(d))) * d - 0x1_0000_0000) <= 102400
    ensures 0 < d * Seed(TableIndex(d)) <= 0x2000080
    ensures 0 <= Reciprocal(d, Seed(TableIndex(d))) <= 0x20010
  {
    hide Seed, Reciprocal, Refined;
    var i, u, e := SeedDefect(d);
    if i == 256 {
      LastSeed(d);
    } else {
      var s, t := NewtonError(d, u, e);
      DefectsBounded(d, u, e, s, t);
      var delta := Reciprocal(d, u) * d - 0x1_0000_0000;
      assert 0x10000 * Abs(delta) == Abs(-(e * e) + s * (d * u) + 0x100 * (t * d));
      SmallFactor(Reciprocal(d, u), d);
    }
  }

  lemma DefectsBounded(d: int, u: int, e: int, s: int, t: int)
    requires 0x8000 <= d <= 0xFFFF && Abs(e) <= 49152 && d * u == 0x1000000 - e && -127 <= s <= 128 && -127 <= t <= 128
    ensures Abs(-(e * e) + s * (d * u) + 0x100 * (t * d)) <= 0x10000 * 102400
  {
    Square(e, 49152);
    Roundings(s, d * u, 0x1000000 + 49152);
    Roundings(t, d, 0xFFFF);
  }

  lemma Square(e: int, m: int)
    requires Abs(e) <= m
    ensures 0 <= e * e <= m * m
  {
    AbsProduct(e, e, m, m);
    if e < 0 { assert e * e == (-e) * (-e); MulMono(0, -e, -e); } else { MulMono(0, e, e); }
  }

  lemma Roundings(s: int, x: int, m: int)
    requires -127 <= s <= 128 && 0 <= x <= m
    ensures -127 * m <= s * x <= 128 * m
  {
    MulMono(-127, s, x);
    MulMono(s, 128, x);
  }

  lemma SmallFactor(r: int, d: int)
    requires d >= 0x8000 && Abs(r * d - 0x1_0000_0000) <= 102400
    ensures 0 <= r <= 0x20010
  {
    if r < 0 { MulMono(r, -1, d); }
    if r > 0x20010 { MulMono(0x20011, r, d); }
  }

  /** The one seed the table cannot hold: 257 serves where 256 was meant, and still serves. */
  lemma LastSeed(d: int)
    requires 65472 <= d <= 0xFFFF
    ensures TableIndex(d) == 256 && Seed(256) == 257
    ensures Abs(Reciprocal(d, 257) * d - 0x1_0000_0000) <= 102400 && 0 <= Reciprocal(d, 257) <= 0x20010
    ensures 0 < d * 257 <= 0x2000080
  {
    var s := d - 65472;
    assert Refined(d, 257) == 65344 - s;
    assert Reciprocal(d, 257) == 65599 - s;
    assert (65599 - s) * (65472 + s) == 65599 * 65472 + 127 * s - s * s;
    AbsProduct(s, s, 63, 63);
    assert s * s >= 0;
  }

  // ---- the quotient ----

  /** Before the limit: within 29/8 of the true quotient, on the normalised scale. */
  lemma ScaledError(n: int, d: int)
    requires 0x8000 <= d <= 0xFFFF && 0 <= n < 2 * d
    ensures 8 * Abs(Scaled(n, d) * d - n * 0x10000) <= 29 * d
  {
    hide Seed, Reciprocal;
    var r := Reciprocal(d, Seed(TableIndex(d)));
    ReciprocalError(d);
    var v := Scaled(n, d);
    Spread(n, d, r, v, 0x10000 * v - n * r);
  }

  lemma Spread(n: int, d: int, r: int, v: int, w: int)
    requires 0 < d && 0 <= n < 2 * d && Abs(r * d - 0x1_0000_0000) <= 102400
    requires 0x10000 * v == n * r + w && -0x7FFF <= w <= 0x8000
    ensures 8 * Abs(v * d - n * 0x10000) <= 29 * d
  {
    var delta := r * d - 0x1_0000_0000;
    AbsProduct(n, delta, 2 * d, 102400);
    AbsProduct(w, d, 0x8000, d);
    ErrorsApart(n, d, r, v, w);
    TwoErrors(v * d, n, n * delta, w * d, d);
  }

  lemma ErrorsApart(n: int, d: int, r: int, v: int, w: int)
    requires 0x10000 * v == n * r + w
    ensures 0x10000 * (v * d) == n * 0x1_0000_0000 + n * (r * d - 0x1_0000_0000) + w * d
  {
    MulAdd(n * r, w, d);
    MulAssoc(0x10000, v, d);
    MulAssoc(n, r, d);
    MulAdd(0x1_0000_0000, r * d - 0x1_0000_0000, n);
  }

  /** The reciprocal's error and the rounding's, added and divided back down. */
  lemma TwoErrors(scaled: int, n: int, first: int, second: int, d: int)
    requires 0x10000 * scaled == n * 0x1_0000_0000 + first + second
    requires Abs(first) <= 204800 * d && Abs(second) <= 0x8000 * d
    ensures 8 * Abs(scaled - n * 0x10000) <= 29 * d
  {
  }

  /** The whole quotient, with its two guards. */
  function Quotient(h: U16, sz: U16): U32 {
    if h >= 2 * sz then 0x1FFFF
    else
      var scale := PowerOfTwo(LeadingZeros(sz));
      Normalises(sz);
      NormalisedRatio(h, sz);
      ScaledFits(h * scale, sz * scale);
      Min(0x1FFFF, Scaled(h * scale, sz * scale))
  }

  lemma NormalisedRatio(h: U16, sz: U16)
    requires h < 2 * sz
    ensures var p := PowerOfTwo(LeadingZeros(sz)); p >= 1 && 0 <= h * p < 2 * (sz * p)
  {
    var p := PowerOfTwo(LeadingZeros(sz));
    PowerAtLeast(LeadingZeros(sz));
    MulMono(0, h, p);
    MulMono(h + 1, 2 * sz, p);
    assert (2 * sz) * p == 2 * (sz * p) && (h + 1) * p == h * p + p;
  }

  /** Multiplying both sides by the same power changes no ratio. */
  lemma Unscale(v: int, sz: int, h: int, p: int)
    requires p > 0 && 8 * Abs(v * (sz * p) - (h * p) * 0x10000) <= 29 * (sz * p)
    ensures 8 * Abs(v * sz - h * 0x10000) <= 29 * sz
  {
    var x := v * sz - h * 0x10000;
    assert v * (sz * p) == (v * sz) * p && (h * p) * 0x10000 == (h * 0x10000) * p;
    Factored(v * sz, h * 0x10000, p);
    assert (8 * Abs(x)) * p == 8 * (Abs(x) * p) && (29 * sz) * p == 29 * (sz * p);
    CancelFactor(8 * Abs(x), 29 * sz, p);
  }

  lemma Factored(a: int, b: int, p: int)
    requires p > 0
    ensures Abs(a * p - b * p) == Abs(a - b) * p
  {
    assert a * p - b * p == (a - b) * p;
    if a < b { assert (b - a) * p == -((a - b) * p); MulMono(0, b - a, p); } else { MulMono(0, a - b, p); }
  }

  /**
    Whenever the divide does not overflow, the seventeen-bit result is within 29/8, so within four,
    of 65536 h / sz, the limit to 1FFFFh included.
   */
  lemma QuotientError(h: U16, sz: U16)
    requires h < 2 * sz
    ensures 8 * Abs(Quotient(h, sz) * sz - h * 0x10000) <= 29 * sz
  {
    hide Scaled, PowerOfTwo;
    var p := PowerOfTwo(LeadingZeros(sz));
    Normalises(sz);
    NormalisedRatio(h, sz);
    var n, d := h * p, sz * p;
    ScaledError(n, d);
    var v := Scaled(n, d);
    Unscale(v, sz, h, p);
    ScaledFits(n, d);
    if v > 0x1FFFF {
      MulMono(0x20000, v, sz);
      assert 0x1FFFF * sz == 0x20000 * sz - sz;
    }
  }

  /** Neither product leaves its register: the index stays in the table and nothing underflows. */
  lemma ScaledFits(n: int, d: int)
    requires 0x8000 <= d <= 0xFFFF && 0 <= n < 2 * d
    ensures 0 <= TableIndex(d) <= 256
    ensures d * Seed(TableIndex(d)) <= 0x2000080
    ensures 0 <= Refined(d, Seed(TableIndex(d))) * Seed(TableIndex(d)) + 0x80 < 0x1_0000_0000
    ensures 0 <= Scaled(n, d) < 0x1_0000_0000
  {
    hide Seed, Reciprocal, Refined, Scaled, TableIndex;
    var i, u, e := SeedDefect(d);
    ReciprocalError(d);
    RefinedFits(d, u);
    ScaledIs(n, d);
    ProductFits(n, Reciprocal(d, u));
  }

  lemma ScaledIs(n: int, d: int)
    requires 0x8000 <= d <= 0xFFFF
    ensures 0 <= TableIndex(d) <= 256 && Scaled(n, d) == Product(n, Reciprocal(d, Seed(TableIndex(d))))
  {
    hide Seed, Reciprocal, Product;
  }

  lemma ProductFits(n: int, r: int)
    requires 0 <= n < 0x1FFFE && 0 <= r <= 0x20010
    ensures 0 <= Product(n, r) < 0x1_0000_0000
  {
    ProductWithin(n, r, 0x1FFFE, 0x20010);
  }

  lemma RefinedFits(d: int, u: int)
    requires 0 < d * u <= 0x2000080 && 256 <= u <= 512
    ensures 0 <= Refined(d, u) * u + 0x80 < 0x1_0000_0000
  {
    var x := Refined(d, u);
    RefinedRange(d * u);
    hide Refined;
    ProductWithin(x, u, 0x20000, 512);
  }

  lemma RefinedRange(scaled: int)
    requires 0 < scaled <= 0x2000080
    ensures 0 <= (0x2000080 - scaled) / 0x100 <= 0x20000
  {
  }

  /** Four is the least whole bound: this projection is more than three out. */
  lemma ThreeIsNotEnough()
    ensures Abs(Quotient(58912, 29669) * 29669 - 58912 * 0x10000) > 3 * 29669
  {
    assert LeadingZeros(59338) == 0;
    assert LeadingZeros(29669) == 1;
    assert PowerOfTwo(1) == 2 * PowerOfTwo(0);
    assert TableIndex(59338) == 208;
    assert TableEntry(208) == 25;
    assert Refined(59338, 282) == 65707;
    assert Reciprocal(59338, 282) == 72380;
    assert Scaled(117824, 59338) == 130128;
  }

  // ---- the accumulators ----

  datatype Flag = MacPositive(index: nat) | MacNegative(index: nat) | DivideOverflow

  predicate Fits44(x: int) { -0x800_0000_0000 <= x <= 0x7FF_FFFF_FFFF }

  /** Reduced modulo 2^44 into the signed range. */
  function Wrap44(x: int): (r: int)
    ensures Fits44(r)
  {
    (x + 0x800_0000_0000) % 0x1000_0000_0000 - 0x800_0000_0000
  }

  function Overflow(index: nat, total: int): set<Flag> {
    if total > 0x7FF_FFFF_FFFF then {MacPositive(index)} else if total < -0x800_0000_0000 then {MacNegative(index)} else {}
  }

  function Sum(terms: seq<int>): int { if terms == [] then 0 else Sum(terms[..|terms| - 1]) + terms[|terms| - 1] }

  /** The accumulator as it runs, wrapped after every term. */
  function Running(terms: seq<int>): int {
    if terms == [] then 0 else Wrap44(Running(terms[..|terms| - 1]) + terms[|terms| - 1])
  }

  function Raised(index: nat, terms: seq<int>): set<Flag> {
    if terms == [] then {}
    else Raised(index, terms[..|terms| - 1]) + Overflow(index, Running(terms[..|terms| - 1]) + terms[|terms| - 1])
  }

  predicate NeverLeaves(terms: seq<int>) { forall k :: 0 <= k <= |terms| ==> Fits44(Sum(terms[..k])) }

  /** However it wrapped on the way, the accumulator ends on the true sum's low 44 bits. */
  lemma {:induction false} RunningWraps(terms: seq<int>)
    ensures Running(terms) == Wrap44(Sum(terms))
  {
    if terms != [] {
      RunningWraps(terms[..|terms| - 1]);
      WrapAdds(Sum(terms[..|terms| - 1]), terms[|terms| - 1]);
    }
  }

  lemma WrapAdds(x: int, y: int)
    ensures Wrap44(Wrap44(x) + y) == Wrap44(x + y)
  {
  }

  /** A flag stands exactly when some exact partial sum left the range, even if a later term brought it back. */
  lemma {:induction false} RaisedExactly(index: nat, terms: seq<int>)
    ensures Raised(index, terms) == {} <==> NeverLeaves(terms)
    ensures NeverLeaves(terms) ==> Running(terms) == Sum(terms)
    ensures Raised(index, terms) <= {MacPositive(index), MacNegative(index)}
  {
    if terms != [] {
      var prefix := terms[..|terms| - 1];
      RaisedExactly(index, prefix);
      RunningWraps(prefix);
      assert forall k :: 0 <= k <= |prefix| ==> prefix[..k] == terms[..k];
      assert terms[..|terms|] == terms;
      assert NeverLeaves(terms) <==> NeverLeaves(prefix) && Fits44(Sum(terms));
    }
  }

  /** And it says which way: the first sum to leave the range raises the flag of the side it left by. */
  lemma {:induction false} FirstLeaves(index: nat, terms: seq<int>, k: nat)
    requires k < |terms| && NeverLeaves(terms[..k])
    ensures Sum(terms[..k + 1]) > 0x7FF_FFFF_FFFF ==> MacPositive(index) in Raised(index, terms)
    ensures Sum(terms[..k + 1]) < -0x800_0000_0000 ==> MacNegative(index) in Raised(index, terms)
    decreases |terms|
  {
    var n := |terms| - 1;
    hide Wrap44;
    if k < n {
      assert terms[..n][..k] == terms[..k] && terms[..n][..k + 1] == terms[..k + 1];
      FirstLeaves(index, terms[..n], k);
    } else {
      assert terms[..k + 1] == terms;
      RaisedExactly(index, terms[..n]);
    }
  }

  lemma QuotientByParts(h: U16, sz: U16, n: int, d: int)
    requires h < 2 * sz
    requires n == h * PowerOfTwo(LeadingZeros(sz)) && d == sz * PowerOfTwo(LeadingZeros(sz))
    ensures 0x8000 <= d <= 0xFFFF && 0 <= TableIndex(d) <= 256
    ensures 0 <= Product(n, Reciprocal(d, TableEntry(TableIndex(d)) + 0x101))
    ensures Quotient(h, sz) == Min(0x1FFFF, Product(n, Reciprocal(d, TableEntry(TableIndex(d)) + 0x101)))
  {
    hide Reciprocal, TableEntry, PowerOfTwo, LeadingZeros;
    Normalises(sz);
    NormalisedRatio(h, sz);
    ScaledFits(n, d);
    ReciprocalError(d);
    MulMono(0, n, Reciprocal(d, Seed(TableIndex(d))));
  }

  class Geometry {
    var h: U16
    var sz3: U16
    var flag: set<Flag>
    const reciprocal: array<U8>

    predicate Valid()
      reads this, reciprocal
    {
      reciprocal.Length == 257 && forall i :: 0 <= i <= 256 ==> reciprocal[i] == TableEntry(i)
    }

    constructor ()
      ensures Valid() && fresh(reciprocal) && h == 0 && sz3 == 0 && flag == {}
    {
      var table := MakeReciprocalTable();
      reciprocal := table;
      h, sz3, flag := 0, 0, {};
    }

    method PerspectiveDivide() returns (r: U32)
      requires Valid()
      modifies this`flag
      ensures Valid()
      ensures r == Quotient(h, sz3)
      ensures flag == old(flag) + (if h >= 2 * sz3 then {DivideOverflow} else {})
    {
      var divisor: int := sz3;
      if h >= divisor * 2 {
        flag := flag + {DivideOverflow};
        return 0x1FFFF;
      }
      hide Quotient, Seed, PowerOfTwo, LeadingZeros, TableEntry, Scaled, Refined, RefinedAgain, Product;
      var scale := PowerOfTwo(LeadingZeros(sz3));
      var numerator := h * scale;
      var normalised := divisor * scale;
      QuotientByParts(h, sz3, numerator, normalised);
      var seed: int := reciprocal[(normalised - 0x7FC0) / 0x80];
      seed := seed + 0x101;
      var once := Refined(normalised, seed);
      var twice := RefinedAgain(once, seed);
      r := Min(0x1FFFF, Product(numerator, twice));
    }

    method Accumulate(index: nat, sum: int, term: int) returns (r: int)
      modifies this`flag
      ensures r == Wrap44(sum + term)
      ensures flag == old(flag) + Overflow(index, sum + term)
    {
      var total := sum + term;
      if total > 0x7FF_FFFF_FFFF {
        flag := flag + {MacPositive(index)};
      } else if total < -0x800_0000_0000 {
        flag := flag + {MacNegative(index)};
      }
      r := Wrap44(total);
    }

    /** One row of a matrix times a vector, on top of its translation. */
    method TransformRow(index: nat, translation: S32, row: seq<S16>, vec: seq<S16>) returns (value: int)
      requires |row| == 3 && |vec| == 3
      modifies this`flag
      ensures value == Wrap44(Times(translation, 0x1000) + Times(row[0], vec[0]) + Times(row[1], vec[1]) + Times(row[2], vec[2]))
      ensures flag == old(flag) + Raised(index, RowTerms(translation, row, vec))
    {
      hide Wrap44, Times, Overflow;
      ghost var terms := RowTerms(translation, row, vec);
      value := Accumulate(index, 0, Times(translation, 0x1000));
      assert terms[..1][..0] == [];
      var column := 0;
      while column < 3
        invariant 0 <= column <= 3
        invariant value == Running(terms[..column + 1])
        invariant flag == old(flag) + Raised(index, terms[..column + 1])
      {
        assert terms[..column + 2][..column + 1] == terms[..column + 1];
        value := Accumulate(index, value, Times(row[column], vec[column]));
        column := column + 1;
      }
      assert terms[..4] == terms;
      RunningWraps(terms);
      RowSum(translation, row, vec);
    }
  }

  function RowTerms(translation: S32, row: seq<S16>, vec: seq<S16>): seq<int>
    requires |row| == 3 && |vec| == 3
  {
    [Times(translation, 0x1000), Times(row[0], vec[0]), Times(row[1], vec[1]), Times(row[2], vec[2])]
  }

  lemma RowSum(translation: S32, row: seq<S16>, vec: seq<S16>)
    requires |row| == 3 && |vec| == 3
    ensures Sum(RowTerms(translation, row, vec)) == Times(translation, 0x1000) + Times(row[0], vec[0]) + Times(row[1], vec[1]) + Times(row[2], vec[2])
  {
    hide Times;
    var t := RowTerms(translation, row, vec);
    assert t[..4] == t;
    assert t[..3][..2] == t[..2] && t[..2][..1] == t[..1] && t[..1][..0] == [];
    assert Sum(t[..1]) == t[0];
    assert Sum(t[..2]) == t[0] + t[1];
    assert Sum(t[..3]) == t[0] + t[1] + t[2];
  }
}
