/** The decoder's block parser and its resumption, as functions of the codes still to be read. */
module Mdec {
  import opened Words

  const END_OF_BLOCK: U16 := 0xFE00

  /** Sixty-four coefficients or samples. */
  type Block = s: seq<int> | |s| == 64 witness seq(64, _ => 0)
  type Table = s: seq<U8> | |s| == 64 witness seq(64, _ => 0)
  type Scale = s: seq<S16> | |s| == 64 witness seq(64, _ => 0)

  type Slot = n: nat | n < 64

  /** The table, a row of sixteen at a time. */
  function Zigzag(n: Slot): Slot {
    match n / 16
    case 0 => [0, 1, 8, 16, 9, 2, 3, 10, 17, 24, 32, 25, 18, 11, 4, 5][n]
    case 1 => [12, 19, 26, 33, 40, 48, 41, 34, 27, 20, 13, 6, 7, 14, 21, 28][n - 16]
    case 2 => [35, 42, 49, 56, 57, 50, 43, 36, 29, 22, 15, 23, 30, 37, 44, 51][n - 32]
    case _ => [58, 59, 52, 45, 38, 31, 39, 46, 53, 60, 61, 54, 47, 55, 62, 63][n - 48]
  }

  /** The ten-bit level of a code, and the six bits above it. */
  function Level(code: U16): int { if code % 0x400 < 0x200 then code % 0x400 else code % 0x400 - 0x400 }

  function Upper(code: U16): (n: nat)
    ensures n < 64
  {
    code / 0x400
  }

  function Limited(value: int): int { Clamp(value, -0x400, 0x3FF) }

  function DcValue(code: U16, quant: Table): int { Level(code) * quant[0] }

  function AcValue(code: U16, factor: nat, quant: Table, index: nat): int
    requires index < 64
  {
    TruncDiv(Level(code) * quant[index] * factor + 4, 8)
  }

  /** One coefficient put in its place; a factor of zero doubles it and leaves it in arrival order. */
  function Placed(block: Block, index: nat, code: U16, value: int, factor: nat): Block
    requires index < 64
  {
    if factor == 0 then block[index := Limited(Level(code) * 2)] else block[Zigzag(index) := Limited(value)]
  }

  /** A block read whole, with the codes after it; or codes that ran out, and what they left in it. */
  datatype Parse = Complete(block: Block, rest: seq<U16>) | Short(block: Block)

  /** The coefficients from one index on, with the code already taken for it. */
  function Fill(rest: seq<U16>, block: Block, index: nat, code: U16, value: int, factor: nat, quant: Table): (p: Parse)
    requires index < 64
    ensures p.Complete? ==> |p.rest| <= |rest|
    decreases |rest|
  {
    var placed := Placed(block, index, code, value, factor);
    if index == 63 then Complete(placed, rest)
    else if rest == [] then Short(placed)
    else
      var next := index + Upper(rest[0]) + 1;
      if next > 63 then Complete(placed, rest[1..])
      else Fill(rest[1..], placed, next, rest[0], AcValue(rest[0], factor, quant, next), factor, quant)
  }

  function ZeroBlock(): Block { seq(64, _ => 0) }

  function ParseBlock(rest: seq<U16>, block: Block, quant: Table): (p: Parse)
    ensures p.Complete? ==> |p.rest| < |rest|
    decreases |rest|
  {
    if rest == [] then Short(block)
    else if rest[0] == END_OF_BLOCK then ParseBlock(rest[1..], block, quant)
    else Fill(rest[1..], ZeroBlock(), 0, rest[0], DcValue(rest[0], quant), Upper(rest[0]), quant)
  }

  // ---- the inverse transform ----

  /** The first n terms of one column sum, and of one row sum of those. */
  function ColumnSum(block: Block, scale: Scale, x: nat, y: nat, n: nat): int
    requires x < 8 && y < 8 && n <= 8
    decreases n
  {
    if n == 0 then 0 else ColumnSum(block, scale, x, y, n - 1) + Times(scale[(n - 1) * 8 + y], block[x + (n - 1) * 8])
  }

  function RowSum(block: Block, scale: Scale, x: nat, y: nat, n: nat): int
    requires x < 8 && y < 8 && n <= 8
    decreases n
  {
    if n == 0 then 0 else RowSum(block, scale, x, y, n - 1) + Times(ColumnSum(block, scale, n - 1, y, 8), scale[x + (n - 1) * 8])
  }

  function Rounded(sum: int): int { sum / 0x1_0000_0000 + sum / 0x8000_0000 % 2 }

  function Sample(block: Block, scale: Scale, x: nat, y: nat): int
    requires x < 8 && y < 8
  {
    Rounded(RowSum(block, scale, x, y, 8))
  }

  function Transformed(block: Block, scale: Scale): Block {
    seq(64, i requires 0 <= i < 64 => Sample(block, scale, i % 8, i / 8))
  }

  predicate IsLimited(block: Block) { forall i :: 0 <= i < 64 ==> -0x400 <= block[i] <= 0x3FF }

  lemma {:induction false} ColumnBound(block: Block, scale: Scale, x: nat, y: nat, n: nat)
    requires x < 8 && y < 8 && n <= 8 && IsLimited(block)
    ensures Abs(ColumnSum(block, scale, x, y, n)) <= n * 0x200_0000
    decreases n
  {
    if n > 0 {
      ColumnBound(block, scale, x, y, n - 1);
      AbsProduct(scale[(n - 1) * 8 + y], block[x + (n - 1) * 8], 0x8000, 0x400);
    }
  }

  lemma {:induction false} RowBound(block: Block, scale: Scale, x: nat, y: nat, n: nat)
    requires x < 8 && y < 8 && n <= 8 && IsLimited(block)
    ensures Abs(RowSum(block, scale, x, y, n)) <= n * 0x800_0000_0000
    decreases n
  {
    if n > 0 {
      RowBound(block, scale, x, y, n - 1);
      ColumnBound(block, scale, n - 1, y, 8);
      AbsProduct(ColumnSum(block, scale, n - 1, y, 8), scale[x + (n - 1) * 8], 0x1000_0000, 0x8000);
    }
  }

  /** Taking the half bit as well as the shift is rounding half up. */
  lemma RoundsHalfUp(sum: int)
    ensures Rounded(sum) == (sum + 0x8000_0000) / 0x1_0000_0000
  {
    var h := sum / 0x8000_0000;
    assert sum / 0x1_0000_0000 == h / 2;
    assert (sum + 0x8000_0000) / 0x1_0000_0000 == (h + 1) / 2;
  }

  /** Sixty-four products of three factors each: the double product itself, summed in any grouping. */
  function DoubleProduct(block: Block, scale: Scale, x: nat, y: nat, n: nat): int
    requires x < 8 && y < 8 && n <= 64
    decreases n
  {
    if n == 0 then 0
    else
      var w, z := (n - 1) % 8, (n - 1) / 8;
      DoubleProduct(block, scale, x, y, n - 1) + Times(Times(scale[w * 8 + y], block[z + w * 8]), scale[x + z * 8])
  }

  lemma {:induction false} OneColumn(block: Block, scale: Scale, x: nat, y: nat, z: nat, k: nat)
    requires x < 8 && y < 8 && z < 8 && k <= 8
    ensures DoubleProduct(block, scale, x, y, z * 8 + k) ==
            DoubleProduct(block, scale, x, y, z * 8) + Times(ColumnSum(block, scale, z, y, k), scale[x + z * 8])
    decreases k
  {
    hide Times, DoubleProduct;
    var factor := scale[x + z * 8];
    TimesDistributes(0, 0, factor);
    if k > 0 {
      OneColumn(block, scale, x, y, z, k - 1);
      DoubleStep(block, scale, x, y, z, k - 1);
      var term := Times(scale[(k - 1) * 8 + y], block[z + (k - 1) * 8]);
      TimesDistributes(ColumnSum(block, scale, z, y, k - 1), term, factor);
    }
  }

  lemma DoubleStep(block: Block, scale: Scale, x: nat, y: nat, z: nat, k: nat)
    requires x < 8 && y < 8 && z < 8 && k < 8
    ensures DoubleProduct(block, scale, x, y, z * 8 + k + 1) ==
            DoubleProduct(block, scale, x, y, z * 8 + k) + Times(Times(scale[k * 8 + y], block[z + k * 8]), scale[x + z * 8])
  {
    hide Times;
    assert (z * 8 + k) % 8 == k && (z * 8 + k) / 8 == z;
  }

  lemma TimesDistributes(a: int, b: int, c: int)
    ensures Times(a + b, c) == Times(a, c) + Times(b, c)
    ensures Times(0, c) == 0
  {
  }

  lemma {:induction false} RowIsDoubleProduct(block: Block, scale: Scale, x: nat, y: nat, n: nat)
    requires x < 8 && y < 8 && n <= 8
    ensures RowSum(block, scale, x, y, n) == DoubleProduct(block, scale, x, y, n * 8)
    decreases n
  {
    hide Times, ColumnSum;
    if n > 0 {
      assert (n - 1) * 8 + 8 == n * 8;
      RowIsDoubleProduct(block, scale, x, y, n - 1);
      OneColumn(block, scale, x, y, n - 1, 8);
    }
  }

  /**
    For any limited block and any scale table, each sample is the exact double product over 2^32,
    rounded half up, and within 16384: so storing it as sixteen bits loses nothing.
   */
  lemma TransformIsExact(block: Block, scale: Scale, x: nat, y: nat)
    requires x < 8 && y < 8 && IsLimited(block)
    ensures Transformed(block, scale)[x + y * 8] == (DoubleProduct(block, scale, x, y, 64) + 0x8000_0000) / 0x1_0000_0000
    ensures Abs(Transformed(block, scale)[x + y * 8]) <= 16384
  {
    hide RowSum, DoubleProduct;
    assert (x + y * 8) % 8 == x && (x + y * 8) / 8 == y;
    RowIsDoubleProduct(block, scale, x, y, 8);
    RowBound(block, scale, x, y, 8);
    RoundsHalfUp(RowSum(block, scale, x, y, 8));
  }

  lemma {:induction false} FillIsLimited(rest: seq<U16>, block: Block, index: nat, code: U16, value: int, factor: nat, quant: Table)
    requires index < 64 && IsLimited(block)
    ensures IsLimited(Fill(rest, block, index, code, value, factor, quant).block)
    decreases |rest|
  {
    var placed := Placed(block, index, code, value, factor);
    assert IsLimited(placed);
    if index != 63 && rest != [] {
      var next := index + Upper(rest[0]) + 1;
      if next <= 63 {
        FillIsLimited(rest[1..], placed, next, rest[0], AcValue(rest[0], factor, quant, next), factor, quant);
      }
    }
  }

  /** Whatever the codes and tables, what reaches the transform is inside the clamp. */
  lemma {:induction false} ParsedIsLimited(rest: seq<U16>, block: Block, quant: Table)
    requires ParseBlock(rest, block, quant).Complete?
    ensures IsLimited(ParseBlock(rest, block, quant).block)
    decreases |rest|
  {
    if rest[0] == END_OF_BLOCK {
      ParsedIsLimited(rest[1..], block, quant);
    } else {
      FillIsLimited(rest[1..], ZeroBlock(), 0, rest[0], DcValue(rest[0], quant), Upper(rest[0]), quant);
    }
  }

  // ---- prefix stability ----

  /** A block read whole is read the same with more codes behind it. */
  lemma {:induction false} FillStable(rest: seq<U16>, more: seq<U16>, block: Block, index: nat, code: U16, value: int, factor: nat, quant: Table)
    requires index < 64
    requires Fill(rest, block, index, code, value, factor, quant).Complete?
    ensures var p := Fill(rest, block, index, code, value, factor, quant);
            Fill(rest + more, block, index, code, value, factor, quant) == Complete(p.block, p.rest + more)
    decreases |rest|
  {
    hide Placed, AcValue;
    if index != 63 {
      var next := index + Upper(rest[0]) + 1;
      assert (rest + more)[1..] == rest[1..] + more;
      if next <= 63 {
        FillStable(rest[1..], more, Placed(block, index, code, value, factor), next, rest[0], AcValue(rest[0], factor, quant, next), factor, quant);
      }
    }
  }

  lemma {:induction false} ParseStable(rest: seq<U16>, more: seq<U16>, block: Block, quant: Table)
    requires ParseBlock(rest, block, quant).Complete?
    ensures var p := ParseBlock(rest, block, quant); ParseBlock(rest + more, block, quant) == Complete(p.block, p.rest + more)
    decreases |rest|
  {
    hide Fill, DcValue;
    assert (rest + more)[1..] == rest[1..] + more;
    if rest[0] == END_OF_BLOCK {
      ParseStable(rest[1..], more, block, quant);
    } else {
      FillStable(rest[1..], more, ZeroBlock(), 0, rest[0], DcValue(rest[0], quant), Upper(rest[0]), quant);
    }
  }

  /** A short parse leaves nothing behind that a later one, from the same place, could notice. */
  lemma {:induction false} ShortLeavesNoTrace(rest: seq<U16>, more: seq<U16>, block: Block, quant: Table)
    requires ParseBlock(rest, block, quant).Short?
    ensures ParseBlock(rest + more, ParseBlock(rest, block, quant).block, quant) == ParseBlock(rest + more, block, quant)
    decreases |rest|
  {
    hide Fill, DcValue;
    if rest != [] {
      assert (rest + more)[1..] == rest[1..] + more;
      if rest[0] == END_OF_BLOCK {
        ShortLeavesNoTrace(rest[1..], more, block, quant);
      }
    }
  }
}
