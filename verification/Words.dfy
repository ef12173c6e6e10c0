/** The machine's fixed-width integers, written out over unbounded ones. */
module Words {

  type U8 = x: int | 0 <= x < 0x100
  type U16 = x: int | 0 <= x < 0x1_0000
  type U32 = x: int | 0 <= x < 0x1_0000_0000
  type S16 = x: int | -0x8000 <= x < 0x8000
  type S32 = x: int | -0x8000_0000 <= x < 0x8000_0000

  datatype Option<T> = None | Some(value: T)

  function Min(a: int, b: int): int { if a <= b then a else b }

  function Max(a: int, b: int): int { if a >= b then a else b }

  function Abs(a: int): int { if a < 0 then -a else a }

  /** A product in full, whatever narrow types its factors have. */
  function Times(a: int, b: int): int { a * b }

  function Clamp(x: int, low: int, high: int): int {
    if x < low then low else if x > high then high else x
  }

  function PowerOfTwo(n: nat): (p: nat)
    ensures p >= 1
  {
    if n == 0 then 1 else 2 * PowerOfTwo(n - 1)
  }

  lemma {:induction false} PowersGrow(m: nat, n: nat)
    requires m <= n
    ensures PowerOfTwo(m) <= PowerOfTwo(n)
    decreases n
  {
    if m < n { PowersGrow(m, n - 1); }
  }

  /** Whether the bit worth `weight` is set. */
  predicate HasBit(x: nat, weight: nat)
    requires weight > 0
  {
    x / weight % 2 == 1
  }

  /** A word from its four bytes, the lowest first, and each of them back again. */
  function FromBytes(a: U8, b: U8, c: U8, d: U8): U32 { Times(a, 1) + Times(b, 0x100) + Times(c, 0x1_0000) + Times(d, 0x100_0000) }

  function Byte(value: U32, n: int): U8
    requires 0 <= n < 4
  {
    match n
    case 0 => value % 0x100
    case 1 => value / 0x100 % 0x100
    case 2 => value / 0x1_0000 % 0x100
    case _ => value / 0x100_0000
  }

  lemma BytesMakeWord(value: U32)
    ensures FromBytes(Byte(value, 0), Byte(value, 1), Byte(value, 2), Byte(value, 3)) == value
  {
    var p := value / 0x100;
    var q := p / 0x100;
    var r := q / 0x100;
    assert q == value / 0x1_0000 && r == value / 0x100_0000;
    assert value == 0x100 * p + value % 0x100 && p == 0x100 * q + p % 0x100 && q == 0x100 * r + q % 0x100;
  }

  lemma MakeBytes(a: U8, b: U8, c: U8, d: U8)
    ensures var word := FromBytes(a, b, c, d);
      Byte(word, 0) == a && Byte(word, 1) == b && Byte(word, 2) == c && Byte(word, 3) == d
  {
    var word := FromBytes(a, b, c, d);
    UniqueRemainder(word, 0x100, FromBytes(b, c, d, 0), a);
    UniqueRemainder(word, 0x1_0000, FromBytes(c, d, 0, 0), FromBytes(a, b, 0, 0));
    UniqueRemainder(word, 0x100_0000, d, FromBytes(a, b, c, 0));
    UniqueRemainder(FromBytes(b, c, d, 0), 0x100, FromBytes(c, d, 0, 0), b);
    UniqueRemainder(FromBytes(c, d, 0, 0), 0x100, d, c);
  }

  /** The fields of a fifteen-bit colour, red lowest, and the bit above them. */
  lemma FieldsOf(r: nat, g: nat, b: nat, top: bool)
    requires r < 0x20 && g < 0x20 && b < 0x20
    ensures var v := (if top then 0x8000 else 0) + b * 0x400 + g * 0x20 + r;
            v % 0x20 == r && v / 0x20 % 0x20 == g && v / 0x400 % 0x20 == b && (v >= 0x8000 <==> top)
  {
  }

  /** The conversions a cast makes: reduction modulo the width. */
  function ToU32(x: int): U32 { x % 0x1_0000_0000 }

  function ToS32(x: int): S32 {
    var u := x % 0x1_0000_0000;
    if u < 0x8000_0000 then u else u - 0x1_0000_0000
  }

  /** Division as the source's language has it: the quotient of the sizes, with the sign put back. */
  function TruncDiv(a: int, b: int): int
    requires b != 0
  {
    if (a < 0) == (b < 0) then Abs(a) / Abs(b) else -(Abs(a) / Abs(b))
  }

  lemma DivRemainder(a: int, b: int)
    requires b > 0
    ensures 0 <= a - (a / b) * b < b
  {
    assert a == (a / b) * b + a % b;
  }

  /** What the truncation dropped is less than one divisor, and never changes the sign. */
  lemma TruncDivRemainder(a: int, b: int)
    requires b != 0
    ensures Abs(TruncDiv(a, b) * b - a) < Abs(b)
    ensures Abs(TruncDiv(a, b) * b) <= Abs(a)
    ensures if a < 0 then a <= TruncDiv(a, b) * b <= 0 else 0 <= TruncDiv(a, b) * b <= a
  {
    DivRemainder(Abs(a), Abs(b));
    SignedProduct(TruncDiv(a, b), Abs(a) / Abs(b), a, b);
  }

  lemma SignedProduct(q: int, m: int, a: int, b: int)
    requires b != 0 && q == (if (a < 0) == (b < 0) then m else -m)
    requires 0 <= Abs(a) - m * Abs(b) < Abs(b)
    ensures Abs(q * b - a) < Abs(b) && (m * Abs(b) >= 0 ==> Abs(q * b) <= Abs(a))
    ensures m * Abs(b) >= 0 && q * b == (if a < 0 then -(m * Abs(b)) else m * Abs(b))
  {
    assert q * b == (if a < 0 then -(m * Abs(b)) else m * Abs(b)) by {
      assert (-m) * b == -(m * b) && m * (-b) == -(m * b);
    }
    if m <= -1 { MulMono(m, -1, Abs(b)); }
    MulMono(0, Abs(m), Abs(b));
  }

  lemma MulMono(a: int, b: int, c: int)
    requires a <= b && 0 <= c
    ensures a * c <= b * c
  {
  }

  lemma ProductWithin(a: int, b: int, m: int, n: int)
    requires 0 <= a <= m && 0 <= b <= n
    ensures 0 <= a * b <= m * n
  {
    MulMono(0, a, b);
    MulMono(a, m, b);
    MulMono(b, n, m);
  }

  lemma MulAdd(a: int, b: int, c: int)
    ensures (a + b) * c == a * c + b * c
  {
  }

  lemma MulAssoc(a: int, b: int, c: int)
    ensures (a * b) * c == a * (b * c)
  {
  }

  lemma CancelFactor(a: int, b: int, c: int)
    requires c > 0 && a * c <= b * c
    ensures a <= b
  {
    assert (b + 1) * c == b * c + c;
    if b < a { MulMono(b + 1, a, c); }
  }

  /** A product of two bounded factors is bounded by the product of the bounds. */
  lemma AbsProduct(a: int, b: int, m: int, n: int)
    requires Abs(a) <= m && Abs(b) <= n
    ensures Abs(a * b) <= m * n
  {
    assert Abs(a * b) == Abs(a) * Abs(b) by {
      if a < 0 { if b < 0 { assert a * b == (-a) * (-b); } else { assert a * b == -((-a) * b); } }
      else if b < 0 { assert a * b == -(a * (-b)); }
    }
    MulMono(Abs(a), m, Abs(b));
    MulMono(Abs(b), n, m);
    assert Abs(b) * m == m * Abs(b) && n * m == m * n;
  }

  /** Adding whole turns of a 32-bit register changes nothing it holds. */
  lemma WrapTurns(x: int, turns: int)
    ensures (x + turns * 0x1_0000_0000) % 0x1_0000_0000 == x % 0x1_0000_0000
  {
  }

  /** Quotient and remainder are the only ones of their kind. */
  lemma UniqueRemainder(x: int, span: int, q: int, r: int)
    requires span > 0 && x == q * span + r && 0 <= r < span
    ensures x % span == r && x / span == q
  {
    var p, s := x / span, x % span;
    assert x == p * span + s;
    assert (p + 1) * span == p * span + span && (q + 1) * span == q * span + span;
    if p < q { MulMono(p + 1, q, span); }
    if p > q { MulMono(q + 1, p, span); }
  }

  /** One more after a reduction is one more before it. */
  lemma OneMore(x: int, span: int)
    requires span > 0
    ensures (x % span + 1) % span == (x + 1) % span
  {
    var q, r := x / span, x % span;
    assert x == q * span + r;
    if r + 1 < span {
      UniqueRemainder(x + 1, span, q, r + 1);
      UniqueRemainder(r + 1, span, 0, r + 1);
    } else {
      assert (q + 1) * span == q * span + span;
      UniqueRemainder(x + 1, span, q + 1, 0);
      UniqueRemainder(r + 1, span, 1, 0);
    }
  }
}
