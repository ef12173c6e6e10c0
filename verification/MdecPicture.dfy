/** What the decoder's picture is: which coefficient a code names, which colour a sample makes, which bits it is sent in. */
module MdecPicture {
  import opened Words
  import opened Mdec
  import opened MdecDecoder
  import MdecUnit

  // ---- codes and coefficients ----

  /** A code is six bits of run over ten bits of level, and the level is those ten bits as a signed number. */
  lemma CodeParts(run: nat, level: int)
    requires run < 64 && -0x200 <= level < 0x200
    ensures var code := run * 0x400 + level % 0x400; code < 0x1_0000 && Upper(code) == run && Level(code) == level
  {
  }

  /** The place after another: along a rising or a falling diagonal of an eight by eight, and along the border where it ends. */
  function Onward(at: Slot): nat {
    var x, y := at % 8, at / 8;
    if (x + y) % 2 == 0 then (if x == 7 then at + 8 else if y == 0 then at + 1 else at - 7)
    else if y == 7 then at + 1
    else if x == 0 then at + 8
    else at + 7
  }

  /** The table is that walk: it begins in the corner, and each entry is the place after the last. */
  lemma ZigzagWalks(n: nat)
    requires n < 63
    ensures Zigzag(0) == 0 && Zigzag(n + 1) == Onward(Zigzag(n))
  {
    if n < 16 { ZigzagFirst(n); } else if n < 32 { ZigzagSecond(n); } else if n < 48 { ZigzagThird(n); } else { ZigzagLast(n); }
  }

  lemma ZigzagFirst(n: nat)
    requires 0 <= n < 16
    ensures Zigzag(n + 1) == Onward(Zigzag(n))
  {
  }

  lemma ZigzagSecond(n: nat)
    requires 16 <= n < 32
    ensures Zigzag(n + 1) == Onward(Zigzag(n))
  {
  }

  lemma ZigzagThird(n: nat)
    requires 32 <= n < 48
    ensures Zigzag(n + 1) == Onward(Zigzag(n))
  {
  }

  lemma ZigzagLast(n: nat)
    requires 48 <= n < 63
    ensures Zigzag(n + 1) == Onward(Zigzag(n))
  {
  }

  /** The AC value is level times table times factor over eight, to within the rounding, and exact on multiples of eight. */
  lemma AcIsScaled(code: U16, factor: nat, quant: Table, index: nat)
    requires index < 64
    ensures var exact := Level(code) * quant[index] * factor; Abs(8 * AcValue(code, factor, quant, index) - exact) <= 11
    ensures var exact := Level(code) * quant[index] * factor; exact >= 0 ==> AcValue(code, factor, quant, index) == (exact + 4) / 8
  {
    Eighth(Level(code) * quant[index] * factor);
  }

  lemma Eighth(n: int)
    ensures Abs(8 * TruncDiv(n + 4, 8) - n) <= 11 && (n >= 0 ==> TruncDiv(n + 4, 8) == (n + 4) / 8)
  {
  }

  /** Where code k of a block lands in arrival order: each run skips that many places. */
  function PlaceOf(codes: seq<U16>, k: nat): nat
    requires k < |codes|
  {
    if k == 0 then 0 else PlaceOf(codes, k - 1) + Upper(codes[k]) + 1
  }

  /** What code k puts there. */
  function ValueOf(codes: seq<U16>, quant: Table, k: nat): int
    requires k < |codes| && PlaceOf(codes, k) < 64
  {
    if Upper(codes[0]) == 0 then Limited(Level(codes[k]) * 2)
    else if k == 0 then Limited(Level(codes[0]) * quant[0])
    else Limited(AcValue(codes[k], Upper(codes[0]), quant, PlaceOf(codes, k)))
  }

  /** A block built from its codes, one place after another. */
  function Built(codes: seq<U16>, quant: Table, n: nat): Block
    requires n <= |codes| && forall k :: 0 <= k < |codes| ==> PlaceOf(codes, k) < 64
  {
    if n == 0 then ZeroBlock()
    else
      var place := PlaceOf(codes, n - 1);
      Built(codes, quant, n - 1)[if Upper(codes[0]) == 0 then place else Zigzag(place) := ValueOf(codes, quant, n - 1)]
  }

  /** The codes of a block that fits, closed by the end code, are parsed into exactly that block. */
  lemma ParsedAsCoded(codes: seq<U16>, rest: seq<U16>, before: Block, quant: Table)
    requires codes != [] && codes[0] != END_OF_BLOCK && PlacesFit(codes) && PlaceOf(codes, |codes| - 1) < 63
    ensures ParseBlock(codes + [END_OF_BLOCK] + rest, before, quant) == Complete(Built(codes, quant, |codes|), rest)
  {
    var all := codes + [END_OF_BLOCK] + rest;
    assert all[0] == codes[0] && all[1..] == codes[1..] + [END_OF_BLOCK] + rest;
    hide Fill, Zigzag;
    FilledAsCoded(codes, rest, quant, 0);
  }

  predicate PlacesFit(codes: seq<U16>) { forall k :: 0 <= k < |codes| ==> PlaceOf(codes, k) < 64 }

  lemma {:induction false} FilledAsCoded(codes: seq<U16>, rest: seq<U16>, quant: Table, k: nat)
    requires codes != [] && PlacesFit(codes) && PlaceOf(codes, |codes| - 1) < 63 && k < |codes|
    ensures PlaceOf(codes, k) < 64
    ensures var factor, place := Upper(codes[0]), PlaceOf(codes, k);
            var value := if k == 0 then DcValue(codes[0], quant) else AcValue(codes[k], factor, quant, place);
            Fill(codes[k + 1..] + [END_OF_BLOCK] + rest, Built(codes, quant, k), place, codes[k], value, factor, quant)
              == Complete(Built(codes, quant, |codes|), rest)
    decreases |codes| - k
  {
    hide Zigzag, AcValue, DcValue, Limited, Level, Fill, Placed, Built, ValueOf, Upper;
    var factor, place := Upper(codes[0]), PlaceOf(codes, k);
    var value := if k == 0 then DcValue(codes[0], quant) else AcValue(codes[k], factor, quant, place);
    var later := codes[k + 1..] + [END_OF_BLOCK] + rest;
    BuiltOn(codes, quant, k);
    Rising(codes, k, |codes| - 1);
    if k + 1 < |codes| {
      assert later[0] == codes[k + 1] && later[1..] == codes[k + 2..] + [END_OF_BLOCK] + rest;
      assert PlaceOf(codes, k + 1) == place + Upper(codes[k + 1]) + 1 < 64;
      FillGoesOn(later, Built(codes, quant, k), place, codes[k], value, factor, quant);
      FilledAsCoded(codes, rest, quant, k + 1);
    } else {
      assert later[0] == END_OF_BLOCK && later[1..] == rest;
      FillEnds(later, Built(codes, quant, k), place, codes[k], value, factor, quant);
    }
  }

  lemma BuiltOn(codes: seq<U16>, quant: Table, k: nat)
    requires codes != [] && PlacesFit(codes) && k < |codes|
    ensures var factor, place := Upper(codes[0]), PlaceOf(codes, k);
            var value := if k == 0 then DcValue(codes[0], quant) else AcValue(codes[k], factor, quant, place);
            Placed(Built(codes, quant, k), place, codes[k], value, factor) == Built(codes, quant, k + 1)
  {
    hide Zigzag, AcValue, Limited, Level, Upper;
  }

  lemma FillGoesOn(rest: seq<U16>, block: Block, index: nat, code: U16, value: int, factor: nat, quant: Table)
    requires rest != [] && index + Upper(rest[0]) + 1 <= 63
    ensures var next := index + Upper(rest[0]) + 1;
      Fill(rest, block, index, code, value, factor, quant) ==
      Fill(rest[1..], Placed(block, index, code, value, factor), next, rest[0], AcValue(rest[0], factor, quant, next), factor, quant)
  {
    hide Placed, AcValue, Upper;
  }

  lemma FillEnds(rest: seq<U16>, block: Block, index: nat, code: U16, value: int, factor: nat, quant: Table)
    requires rest != [] && rest[0] == END_OF_BLOCK && index < 63
    ensures Fill(rest, block, index, code, value, factor, quant) == Complete(Placed(block, index, code, value, factor), rest[1..])
  {
    hide Placed, AcValue;
  }

  lemma {:induction false} Rising(codes: seq<U16>, j: nat, k: nat)
    requires j <= k < |codes|
    ensures PlaceOf(codes, j) <= PlaceOf(codes, k)
    decreases k
  {
    if j < k { Rising(codes, j, k - 1); }
  }

  // ---- the transform ----

  predicate Only(block: Block, at: nat) { forall i :: 0 <= i < 64 && i != at ==> block[i] == 0 }

  /** A single coefficient, across u and down v, gives its own basis image: the table's row for v down and its row for u across. */
  lemma {:induction false} BasisImage(block: Block, scale: Scale, u: nat, v: nat, x: nat, y: nat, n: nat)
    requires u < 8 && v < 8 && x < 8 && y < 8 && n <= 64 && Only(block, u + v * 8)
    ensures DoubleProduct(block, scale, x, y, n) ==
            if u * 8 + v < n then Times(Times(scale[v * 8 + y], block[u + v * 8]), scale[u * 8 + x]) else 0
    decreases n
  {
    hide Times, DoubleProduct, Only;
    if n == 0 {
      assert DoubleProduct(block, scale, x, y, 0) == 0 by { NoTerms(block, scale, x, y); }
    } else {
      var w, z := (n - 1) % 8, (n - 1) / 8;
      BasisImage(block, scale, u, v, x, y, n - 1);
      OnePlace(u, v, n - 1);
      OneTerm(block, scale, x, y, z, w);
      if u != z || v != w {
        assert block[z + w * 8] == 0 by { NothingElse(block, u + v * 8, z + w * 8); }
        NothingTimes(scale[w * 8 + y], scale[z * 8 + x]);
      }
    }
  }

  lemma NothingElse(block: Block, at: nat, i: nat)
    requires Only(block, at) && i < 64 && i != at
    ensures block[i] == 0
  {
  }

  lemma NoTerms(block: Block, scale: Scale, x: nat, y: nat)
    requires x < 8 && y < 8
    ensures DoubleProduct(block, scale, x, y, 0) == 0
  {
  }

  lemma OneTerm(block: Block, scale: Scale, x: nat, y: nat, z: nat, w: nat)
    requires x < 8 && y < 8 && z < 8 && w < 8
    ensures DoubleProduct(block, scale, x, y, z * 8 + w + 1) ==
            DoubleProduct(block, scale, x, y, z * 8 + w) + Times(Times(scale[w * 8 + y], block[z + w * 8]), scale[z * 8 + x])
  {
    hide Times;
    assert (z * 8 + w) % 8 == w && (z * 8 + w) / 8 == z;
  }

  lemma OnePlace(u: nat, v: nat, n: nat)
    requires u < 8 && v < 8 && n < 64
    ensures var w, z := n % 8, n / 8; z < 8 && n == z * 8 + w && (u * 8 + v == n <==> u == z && v == w) && (z + w * 8 == u + v * 8 <==> u == z && v == w)
  {
    var w, z := n % 8, n / 8;
    assert n == z * 8 + w;
  }

  lemma NothingTimes(a: int, b: int)
    ensures Times(Times(a, 0), b) == 0
  {
  }

  // ---- the colours ----

  /** The value a component ought to have, in millionths, and unsigned: the three conversions, held to a byte. */
  function TrueRed(y: int, cr: int, cb: int): int { Clamp(128_000_000 + 1_000_000 * y + 1_402_000 * cr, 0, 255_000_000) }

  function TrueGreen(y: int, cr: int, cb: int): int { Clamp(128_000_000 + 1_000_000 * y - 344_136 * cb - 714_136 * cr, 0, 255_000_000) }

  function TrueBlue(y: int, cr: int, cb: int): int { Clamp(128_000_000 + 1_000_000 * y + 1_772_000 * cb, 0, 255_000_000) }

  /** Each component is within 1.2 of the colour conversion, clamp included, for any samples the transform can give. */
  predicate Converted(c: Colour, y: int, cr: int, cb: int) {
    && Abs(1_000_000 * c.red - TrueRed(y, cr, cb)) <= 1_200_000
    && Abs(1_000_000 * c.green - TrueGreen(y, cr, cb)) <= 1_200_000
    && Abs(1_000_000 * c.blue - TrueBlue(y, cr, cb)) <= 1_200_000
  }

  lemma ConversionIsClose(y: int, cr: int, cb: int)
    requires Abs(cr) <= 16384 && Abs(cb) <= 16384
    ensures Converted(ToRgb(y, cr, cb, false), y, cr, cb)
  {
    hide TruncDiv, Component, Clamp;
    SideIsClose(y, cr, cb);
    GreenIsClose(y, cr, cb);
  }

  lemma SideIsClose(y: int, cr: int, cb: int)
    requires Abs(cr) <= 16384 && Abs(cb) <= 16384
    ensures Abs(1_000_000 * Component(y + TruncDiv(91881 * cr, 65536), false) - TrueRed(y, cr, cb)) <= 1_200_000
    ensures Abs(1_000_000 * Component(y + TruncDiv(116130 * cb, 65536), false) - TrueBlue(y, cr, cb)) <= 1_200_000
  {
    hide TruncDiv, Component, Clamp;
    ComponentIsClose(y, 91881 * cr, 1_402_000 * cr);
    ComponentIsClose(y, 116130 * cb, 1_772_000 * cb);
  }

  /** The two terms of green are each a little too large, and the rounding can only make up for that where they add. */
  lemma GreenIsClose(y: int, cr: int, cb: int)
    requires Abs(cr) <= 16384 && Abs(cb) <= 16384
    ensures Abs(1_000_000 * Component(y + TruncDiv(-22554 * cb - 46802 * cr, 65536), false) - TrueGreen(y, cr, cb)) <= 1_200_000
  {
    hide TruncDiv, Component, Clamp;
    var n, term := -22554 * cb - 46802 * cr, -344_136 * cb - 714_136 * cr;
    assert 1_000_000 * n - 65536 * term == -703_104 * cb - 383_104 * cr;
    if (cb < 0) == (cr < 0) {
      assert if n < 0 then -703_104 * cb - 383_104 * cr <= 0 else -703_104 * cb - 383_104 * cr >= 0;
    }
    ComponentIsClose(y, n, term);
  }

  /** A term in 65536ths that is near one in millionths makes a component near the true one. */
  lemma ComponentIsClose(y: int, n: int, term: int)
    requires var off := 1_000_000 * n - 65536 * term;
             Abs(off) <= 65536 * 180_000 || (Abs(off) <= 65536 * 280_000 && if n < 0 then off <= 0 else off >= 0)
    ensures Abs(1_000_000 * Component(y + TruncDiv(n, 65536), false) - Clamp(128_000_000 + 1_000_000 * y + term, 0, 255_000_000)) <= 1_200_000
  {
    CutShort(n);
    hide TruncDiv;
  }

  /** A division by 65536 that drops the fraction, whichever the sign. */
  lemma CutShort(n: int)
    ensures var q := TruncDiv(n, 65536); Abs(65536 * q - n) < 65536 && (if n < 0 then n <= 65536 * q <= 0 else 0 <= 65536 * q <= n)
  {
  }

  /** Asking for signed output moves each component by half the range, and changes nothing else. */
  lemma SignedIsShifted(y: int, cr: int, cb: int)
    ensures var c, d := ToRgb(y, cr, cb, true), ToRgb(y, cr, cb, false);
            && c.red == (d.red + 128) % 0x100 && c.green == (d.green + 128) % 0x100 && c.blue == (d.blue + 128) % 0x100
  {
    hide TruncDiv;
  }

  /** The luminance block a pixel of a macroblock is in, its place there, and its place in the chroma blocks. */
  function LumaBlock(x: nat, y: nat): (block: nat)
    ensures x < 16 && y < 16 ==> 2 <= block < 6
  {
    2 + (if x >= 8 then 1 else 0) + (if y >= 8 then 2 else 0)
  }

  function LumaPlace(x: nat, y: nat): (place: nat)
    ensures place < 64
  {
    8 * (y % 8) + x % 8
  }

  function ChromaPlace(x: nat, y: nat): (place: nat)
    ensures x < 16 && y < 16 ==> place < 64
  {
    8 * (y / 2) + x / 2
  }

  lemma PlacesOf(x: nat, y: nat)
    requires x < 16 && y < 16
    ensures (16 * y + x) % 16 == x && (16 * y + x) / 16 == y
    ensures LumaBlock(x, y) == 2 + x / 8 + y / 8 * 2 && LumaPlace(x, y) == x % 8 + y % 8 * 8
  {
  }

  /** A whole picture: pixel (x, y) has the luminance of its own quarter and the chroma of its own two by two. */
  lemma PictureIsConverted(blocks: Blocks, x: nat, y: nat)
    requires x < 16 && y < 16 && forall j :: 0 <= j < 6 ==> SamplesFit(blocks[j])
    ensures Converted(Pixels(blocks, false)[16 * y + x], blocks[LumaBlock(x, y)][LumaPlace(x, y)], blocks[0][ChromaPlace(x, y)], blocks[1][ChromaPlace(x, y)])
  {
    hide ToRgb, Converted, LumaBlock, LumaPlace;
    PlacesOf(x, y);
    ConversionIsClose(blocks[LumaBlock(x, y)][LumaPlace(x, y)], blocks[0][ChromaPlace(x, y)], blocks[1][ChromaPlace(x, y)]);
  }

  // ---- the words ----

  /** A fifteen-bit pixel has red lowest, each field its component to the nearest eighth, and the top bit as asked. */
  lemma FifteenFields(p: Colour, bit15: bool)
    ensures var v := FifteenBits(p, bit15);
            && v % 0x20 == FiveBits(p.red) && v / 0x20 % 0x20 == FiveBits(p.green) && v / 0x400 % 0x20 == FiveBits(p.blue)
            && (v >= 0x8000 <==> bit15)
  {
    NearestEighth(p.red);
    NearestEighth(p.green);
    NearestEighth(p.blue);
    hide FiveBits;
    FieldsOf(FiveBits(p.red), FiveBits(p.green), FiveBits(p.blue), bit15);
  }

  lemma NearestEighth(component: U8)
    ensures FiveBits(component) < 0x20 && Abs(8 * FiveBits(component) - component) <= 7
    ensures component <= 251 ==> Abs(8 * FiveBits(component) - component) <= 4
  {
  }

  /** Two pixels to a word of the fifteen-bit picture, the left one low. */
  lemma PairHalves(p: seq<Colour>, bit15: bool, i: nat)
    requires |p| == 256 && i < 128
    ensures var word := PairWords(p, bit15)[i];
            word % 0x1_0000 == FifteenBits(p[2 * i], bit15) && word / 0x1_0000 == FifteenBits(p[2 * i + 1], bit15)
  {
    hide FifteenBits;
  }

  /** Byte k of the packed picture, counted from the bottom of each word, is component k of the pixels in the order red, green, blue. */
  lemma PackedBytes(p: seq<Colour>, k: nat)
    requires |p| == 256 && k < 768
    ensures Byte(PackedWords(p)[k / 4], k % 4) == [p[k / 3].red, p[k / 3].green, p[k / 3].blue][k % 3]
  {
    var i := k / 4;
    FourPacked(p, i);
    hide PackedWord;
    assert 4 * i + k % 4 == k;
    MakeBytes(PackedByte(p, 4 * i), PackedByte(p, 4 * i + 1), PackedByte(p, 4 * i + 2), PackedByte(p, 4 * i + 3));
    hide Byte, FromBytes;
  }

  lemma FourPacked(p: seq<Colour>, i: nat)
    requires |p| == 256 && i < 192
    ensures PackedWord(p, i) == FromBytes(PackedByte(p, 4 * i), PackedByte(p, 4 * i + 1), PackedByte(p, 4 * i + 2), PackedByte(p, 4 * i + 3))
  {
    hide PackedByte, Times;
    assert Place(1) == 0x100 && Place(2) == 0x1_0000 && Place(3) == 0x100_0000;
    assert PackedPart(p, i, 0) == 0;
    assert PackedPart(p, i, 1) == Times(PackedByte(p, 4 * i), 1);
    assert PackedPart(p, i, 2) == PackedPart(p, i, 1) + Times(PackedByte(p, 4 * i + 1), 0x100);
    assert PackedPart(p, i, 3) == PackedPart(p, i, 2) + Times(PackedByte(p, 4 * i + 2), 0x1_0000);
  }

  /** The two monochrome depths: a byte a sample, or its top four bits, the leftmost lowest in the word. */
  lemma MonoBytes(block: Block, signed: bool, k: nat)
    requires k < 64
    ensures Byte(ByteWords(block, signed)[k / 4], k % 4) == Component(block[k], signed)
  {
    ByteOfFour(block, signed, k / 4, k % 4);
    hide Byte, ByteWord, Component;
  }

  lemma ByteOfFour(block: Block, signed: bool, i: nat, j: nat)
    requires i < 16 && j < 4
    ensures Byte(ByteWord(block, signed, i), j) == Component(block[4 * i + j], signed)
  {
    hide Component;
    MakeBytes(Component(block[4 * i], signed), Component(block[4 * i + 1], signed), Component(block[4 * i + 2], signed), Component(block[4 * i + 3], signed));
    hide Byte, FromBytes;
  }

  lemma MonoNibbles(block: Block, signed: bool, k: nat)
    requires k < 64
    ensures Power16(k % 8) > 0
    ensures NibbleWords(block, signed)[k / 8] / Power16(k % 8) % 16 == Component(block[k], signed) / 16
  {
    assert 8 * (k / 8) + k % 8 == k;
    hide Component;
    NibbleAt(block, signed, 8 * (k / 8), 8, k % 8);
  }

  lemma {:induction false} NibbleAt(block: Block, signed: bool, at: nat, n: nat, j: nat)
    requires at + n <= 64 && j < n <= 8
    ensures Power16(j) > 0 && Nibbles(block, signed, at, n) / Power16(j) % 16 == Nibble(block[at + j], signed)
    decreases n
  {
    hide Nibble, Power16;
    var low, top, p := Nibbles(block, signed, at, n - 1), Nibble(block[at + n - 1], signed), Power16(j);
    PowerPositive(j);
    assert Nibbles(block, signed, at, n) == low + top * Power16(n - 1);
    if j == n - 1 {
      hide Nibbles;
      TopNibble(low, top, p);
    } else {
      NibbleAt(block, signed, at, n - 1, j);
      hide Nibbles;
      SixteenApart(n - 1, j);
      ShiftedSum(low, top, Power16(n - 2 - j), p);
    }
  }

  lemma TopNibble(low: nat, top: nat, p: nat)
    requires low < p && top < 16
    ensures (low + top * p) / p % 16 == top
  {
    UniqueRemainder(low + top * p, p, top, low);
  }

  lemma {:induction false} SixteenApart(n: nat, j: nat)
    requires j < n
    ensures Power16(j) > 0 && Power16(n) == Power16(n - 1 - j) * 16 * Power16(j)
    decreases n
  {
    if j < n - 1 {
      SixteenApart(n - 1, j);
      assert 16 * (Power16(n - 2 - j) * 16 * Power16(j)) == (16 * Power16(n - 2 - j)) * 16 * Power16(j);
    } else {
      PowerPositive(j);
      assert Power16(0) == 1;
    }
  }

  lemma PowerPositive(j: nat)
    ensures Power16(j) > 0
  {
  }

  lemma ShiftedSum(low: nat, top: nat, m: nat, p: nat)
    requires p > 0
    ensures (low + top * (m * 16 * p)) / p % 16 == low / p % 16
  {
    MulAssoc(top, m * 16, p);
    MulAssoc(top, m, 16);
    MulAdd(low / p, top * (m * 16), p);
    assert low == low / p * p + low % p;
    UniqueRemainder(low + top * (m * 16 * p), p, low / p + top * (m * 16), low % p);
  }

  // ---- what a command word asks for ----

  /** From the top: three bits for the command, two for the depth, one for signed samples and one for the mask bit, and sixteen at the bottom that count words. */
  function CommandWord(command: nat, depth: nat, signed: nat, bit15: nat, rest: nat, words: nat): U32
    requires command < 8 && depth < 4 && signed < 2 && bit15 < 2 && rest < 0x200 && words < 0x1_0000
  {
    command * 0x2000_0000 + depth * 0x800_0000 + signed * 0x400_0000 + bit15 * 0x200_0000 + rest * 0x1_0000 + words
  }

  lemma CommandFields(command: nat, depth: nat, signed: nat, bit15: nat, rest: nat, words: nat)
    requires command < 8 && depth < 4 && signed < 2 && bit15 < 2 && rest < 0x200 && words < 0x1_0000
    ensures var word := CommandWord(command, depth, signed, bit15, rest, words);
      && word / 0x2000_0000 == command && word / 0x800_0000 % 4 == depth && word / 0x400_0000 % 2 == signed
      && word / 0x200_0000 % 2 == bit15 && word % 0x1_0000 == words && word % 2 == words % 2
  {
    var word := CommandWord(command, depth, signed, bit15, rest, words);
    var low := rest * 0x1_0000 + words;
    var shape := depth * 4 + signed * 2 + bit15;
    UniqueRemainder(word, 0x2000_0000, command, shape * 0x200_0000 + low);
    UniqueRemainder(word, 0x800_0000, command * 4 + depth, (signed * 2 + bit15) * 0x200_0000 + low);
    UniqueRemainder(command * 4 + depth, 4, command, depth);
    UniqueRemainder(word, 0x400_0000, command * 8 + depth * 2 + signed, bit15 * 0x200_0000 + low);
    UniqueRemainder(command * 8 + depth * 2 + signed, 2, command * 4 + depth, signed);
    UniqueRemainder(word, 0x200_0000, command * 16 + shape, low);
    UniqueRemainder(command * 16 + shape, 2, command * 8 + depth * 2 + signed, bit15);
    UniqueRemainder(word, 0x1_0000, (command * 16 + shape) * 0x200 + rest, words);
    UniqueRemainder(word, 2, ((command * 16 + shape) * 0x200 + rest) * 0x8000 + words / 2, words % 2);
  }

  /** Command 1 is a decode of so many words in the shape it gives, 2 the quantisation tables, one or both, 3 the scale table; any other has its words ignored. */
  lemma CommandRead(how: Settings, command: nat, depth: nat, signed: nat, bit15: nat, rest: nat, words: nat)
    requires command < 8 && depth < 4 && signed < 2 && bit15 < 2 && rest < 0x200 && words < 0x1_0000
    ensures var word := CommandWord(command, depth, signed, bit15, rest, words);
      && (command == 1 ==>
            && MdecUnit.KindOf(word) == MdecUnit.Macroblocks
            && MdecUnit.Shaped(how, word) == how.(depth := [FourBit, EightBit, TwentyFourBit, FifteenBit][depth], signed := signed == 1, bit15 := bit15 == 1))
      && (command == 2 ==> MdecUnit.KindOf(word) == MdecUnit.QuantTables)
      && (command == 3 ==> MdecUnit.KindOf(word) == MdecUnit.ScaleTable)
      && (command != 1 && command != 2 && command != 3 ==> MdecUnit.KindOf(word) == MdecUnit.Ignored)
      && (command != 1 ==> MdecUnit.Shaped(how, word) == how)
      && MdecUnit.ParametersOf(word) == (if command == 2 then (if words % 2 == 1 then 32 else 16) else if command == 3 then 32 else words)
  {
    CommandFields(command, depth, signed, bit15, rest, words);
    hide CommandWord;
  }

  // ---- from the stream to the picture ----

  /** A word of the stream is two codes, the one in its low half first. */
  lemma {:induction false} CodesInOrder(words: seq<U32>, k: nat)
    requires k < 2 * |words|
    ensures |AllCodes(words)| == 2 * |words|
    ensures AllCodes(words)[k] == if k % 2 == 0 then words[k / 2] % 0x1_0000 else words[k / 2] / 0x1_0000
  {
    var n := |words| - 1;
    AllCodesLength(words[..n]);
    if k < 2 * n { CodesInOrder(words[..n], k); }
  }

  lemma {:induction false} AllCodesLength(words: seq<U32>)
    ensures |AllCodes(words)| == 2 * |words|
  {
    if words != [] { AllCodesLength(words[..|words| - 1]); }
  }

  /** A half of a table word is the signed number of those sixteen bits. */
  lemma SignedHalf(half: U16)
    ensures MdecUnit.ToS16(half) % 0x1_0000 == half
  {
  }

  /** The codes of one block as an encoder writes them: they fit, and do not begin with the end code. */
  predicate Encoded(codes: seq<U16>) {
    codes != [] && codes[0] != END_OF_BLOCK && PlacesFit(codes) && PlaceOf(codes, |codes| - 1) < 63
  }

  function Stream(parts: seq<seq<U16>>): seq<U16> { if parts == [] then [] else parts[0] + [END_OF_BLOCK] + Stream(parts[1..]) }

  /** Block i of a colour macroblock: the two of colour come first and have a table of their own. */
  function BlockOf(how: Settings, codes: seq<U16>, i: nat): Block
    requires Encoded(codes)
  {
    Transformed(Built(codes, if i < 2 then how.chroma else how.luma, |codes|), how.scale)
  }

  predicate AllEncoded(parts: seq<seq<U16>>) { forall i :: 0 <= i < |parts| ==> Encoded(parts[i]) }

  function BlocksOf(how: Settings, parts: seq<seq<U16>>): (blocks: Blocks)
    requires |parts| == 6 && AllEncoded(parts)
    ensures forall i :: 0 <= i < 6 ==> blocks[i] == BlockOf(how, parts[i], i)
  {
    seq(6, i requires 0 <= i < 6 => BlockOf(how, parts[i], i))
  }

  /**
    Six blocks' codes, whatever follows them, come out as one picture: each block placed, dequantised by
    its own table and transformed, then the colours converted and packed, and the decoder is left at
    the start of the next macroblock with the rest of the stream.
   */
  lemma MacroblockDecoded(how: Settings, d: Decoder, parts: seq<seq<U16>>, rest: seq<U16>)
    requires how.Colour() && d.current == 0 && |parts| == 6 && AllEncoded(parts) && d.codes == Stream(parts) + rest
    ensures var blocks := BlocksOf(how, parts);
      Drained(how, d) == Drained(how, Decoder(rest, 0, blocks, d.output + MacroWords(how, blocks)))
  {
    hide Drained, BlocksOf;
    assert parts[0..] == parts;
    BlocksDecoded(how, d, parts, rest);
  }

  lemma {:induction false} BlocksDecoded(how: Settings, d: Decoder, parts: seq<seq<U16>>, rest: seq<U16>)
    requires how.Colour() && |parts| == 6 && AllEncoded(parts) && d.current < 6 && d.codes == Stream(parts[d.current..]) + rest
    requires forall i :: 0 <= i < d.current ==> d.blocks[i] == BlocksOf(how, parts)[i]
    ensures var blocks := BlocksOf(how, parts);
      Drained(how, d) == Drained(how, Decoder(rest, 0, blocks, d.output + MacroWords(how, blocks)))
    decreases 6 - d.current
  {
    var i, blocks := d.current, BlocksOf(how, parts);
    var next := Decoder(Stream(parts[i + 1..]) + rest, i + 1, d.blocks[i := blocks[i]], d.output);
    OneDecoded(how, d, parts, rest);
    hide Drained, MacroWords, BlocksOf, BlockOf;
    if i < 5 {
      BlocksDecoded(how, next, parts, rest);
    } else {
      assert next.blocks == blocks;
      assert parts[6..] == [] && next.codes == rest;
    }
  }

  lemma OneDecoded(how: Settings, d: Decoder, parts: seq<seq<U16>>, rest: seq<U16>)
    requires how.Colour() && |parts| == 6 && AllEncoded(parts) && d.current < 6 && d.codes == Stream(parts[d.current..]) + rest
    ensures var i := d.current;
      var after := Decoder(Stream(parts[i + 1..]) + rest, i + 1, d.blocks[i := BlocksOf(how, parts)[i]], d.output);
      Drained(how, d) == Drained(how, if i < 5 then after else after.(current := 0, output := d.output + MacroWords(how, after.blocks)))
  {
    hide Transformed, MacroWords, ParseBlock, Built, PlacesFit, PlaceOf;
    var i := d.current;
    var codes, later := parts[i], Stream(parts[i + 1..]) + rest;
    assert Encoded(codes);
    assert parts[i..][1..] == parts[i + 1..];
    assert d.codes == codes + [END_OF_BLOCK] + later;
    ParsedAsCoded(codes, later, d.blocks[i], how.Quant(i));
    hide Stream;
  }
}
