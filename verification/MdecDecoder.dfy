/** The resumable decoder: as many whole blocks as the codes so far allow, and the picture they make. */
module MdecDecoder {
  import opened Words
  import opened Mdec

  datatype Depth = FourBit | EightBit | TwentyFourBit | FifteenBit

  /** What stays fixed while codes are fed: the three tables and the shape of the output. */
  datatype Settings = Settings(luma: Table, chroma: Table, scale: Scale, depth: Depth, signed: bool, bit15: bool) {
    predicate Colour() { depth.TwentyFourBit? || depth.FifteenBit? }

    function Needed(): nat { if Colour() then 6 else 1 }

    function Quant(current: nat): Table { if Colour() && current < 2 then chroma else luma }
  }

  // ---- the picture ----

  function Component(value: int, signed: bool): U8 {
    var clamped := Clamp(value, -128, 127);
    if signed then clamped % 0x100 else clamped + 128
  }

  datatype Colour = Colour(red: U8, green: U8, blue: U8)

  /** One pixel from its luminance and its shared pair of chroma samples. */
  function ToRgb(luminance: int, cr: int, cb: int, signed: bool): Colour {
    Colour(Component(luminance + TruncDiv(91881 * cr, 65536), signed),
           Component(luminance + TruncDiv(-22554 * cb - 46802 * cr, 65536), signed),
           Component(luminance + TruncDiv(116130 * cb, 65536), signed))
  }

  /** No product of the conversion leaves 32 bits, for any samples the transform can give. */
  lemma ConversionFits(cr: int, cb: int)
    requires Abs(cr) <= 16384 && Abs(cb) <= 16384
    ensures Abs(91881 * cr) < 0x8000_0000 && Abs(-22554 * cb - 46802 * cr) < 0x8000_0000 && Abs(116130 * cb) < 0x8000_0000
  {
  }

  type Blocks = s: seq<Block> | |s| == 6 witness seq(6, _ => ZeroBlock())

  /** The pixel at (x, y) of a macroblock: its quarter's luminance, and every second pixel's chroma. */
  function MacroPixel(blocks: Blocks, x: nat, y: nat, signed: bool): Colour
    requires x < 16 && y < 16
  {
    ToRgb(blocks[2 + x / 8 + y / 8 * 2][x % 8 + y % 8 * 8], blocks[0][x / 2 + y / 2 * 8], blocks[1][x / 2 + y / 2 * 8], signed)
  }

  /** The same pixel as its quarter sees it. */
  function QuarterPixel(luma: Block, cr: Block, cb: Block, left: nat, top: nat, signed: bool, x: nat, y: nat): Colour
    requires left <= 8 && top <= 8 && x < 8 && y < 8
  {
    ToRgb(luma[x + y * 8], cr[(x + left) / 2 + (y + top) / 2 * 8], cb[(x + left) / 2 + (y + top) / 2 * 8], signed)
  }

  lemma QuarterMakesMacro(blocks: Blocks, quarter: nat, x: nat, y: nat, signed: bool)
    requires quarter < 4 && x < 8 && y < 8
    ensures var left, top := quarter % 2 * 8, quarter / 2 * 8;
            QuarterPixel(blocks[2 + quarter], blocks[0], blocks[1], left, top, signed, x, y) == MacroPixel(blocks, left + x, top + y, signed)
  {
    hide ToRgb;
    InHalf(quarter % 2, x);
    InHalf(quarter / 2, y);
  }

  lemma InHalf(half: nat, n: nat)
    requires half < 2 && n < 8
    ensures (half * 8 + n) / 8 == half && (half * 8 + n) % 8 == n
  {
  }

  function Pixels(blocks: Blocks, signed: bool): (p: seq<Colour>)
    ensures |p| == 256
  {
    seq(256, i requires 0 <= i < 256 => MacroPixel(blocks, i % 16, i / 16, signed))
  }

  function FiveBits(component: U8): nat { Min((component + 4) / 8, 31) }

  function FifteenBits(p: Colour, bit15: bool): (v: U16) {
    (if bit15 then 0x8000 else 0) + FiveBits(p.blue) * 0x400 + FiveBits(p.green) * 0x20 + FiveBits(p.red)
  }

  function PairWord(p: seq<Colour>, bit15: bool, i: nat): U32
    requires |p| == 256 && i < 128
  {
    Times(FifteenBits(p[2 * i], bit15), 1) + Times(FifteenBits(p[2 * i + 1], bit15), 0x1_0000)
  }

  /** Byte k of a macroblock's pixels packed end to end. */
  function PackedByte(p: seq<Colour>, k: nat): U8
    requires |p| == 256 && k < 768
  {
    match k % 3
    case 0 => p[k / 3].red
    case 1 => p[k / 3].green
    case _ => p[k / 3].blue
  }

  function Place(n: nat): nat { if n == 0 then 1 else 0x100 * Place(n - 1) }

  /** The first n bytes of word i, the earliest lowest. */
  function PackedPart(p: seq<Colour>, i: nat, n: nat): (word: nat)
    requires |p| == 256 && i < 192 && n <= 4
    ensures word < Place(n)
    decreases n
  {
    if n == 0 then 0
    else
      ByteFits(PackedByte(p, 4 * i + n - 1), Place(n - 1));
      PackedPart(p, i, n - 1) + Times(PackedByte(p, 4 * i + n - 1), Place(n - 1))
  }

  lemma ByteFits(byte: U8, place: nat)
    ensures 0 <= Times(byte, place) <= 255 * place
  {
    MulMono(byte, 255, place);
  }

  function PackedWord(p: seq<Colour>, i: nat): U32
    requires |p| == 256 && i < 192
  {
    assert Place(2) == 0x1_0000 && Place(4) == 0x1_0000_0000;
    PackedPart(p, i, 4)
  }

  function PairWords(p: seq<Colour>, bit15: bool): (words: seq<U32>)
    requires |p| == 256
    ensures |words| == 128
  {
    seq(128, i requires 0 <= i < 128 => PairWord(p, bit15, i))
  }

  function PackedWords(p: seq<Colour>): (words: seq<U32>)
    requires |p| == 256
    ensures |words| == 192
  {
    seq(192, i requires 0 <= i < 192 => PackedWord(p, i))
  }

  function MacroWords(how: Settings, blocks: Blocks): seq<U32> {
    var p := Pixels(blocks, how.signed);
    if how.depth.FifteenBit? then PairWords(p, how.bit15) else PackedWords(p)
  }

  function Nibble(value: int, signed: bool): (n: nat)
    ensures n < 16
  {
    Component(value, signed) / 16
  }

  function Power16(n: nat): nat { if n == 0 then 1 else 16 * Power16(n - 1) }

  lemma NibbleFits(nibble: nat, place: nat)
    requires nibble < 16
    ensures 0 <= Times(nibble, place) <= 15 * place
  {
    MulMono(nibble, 15, place);
  }

  /** The first n nibbles of a word, the leftmost sample lowest. */
  function Nibbles(block: Block, signed: bool, at: nat, n: nat): (word: nat)
    requires at + n <= 64
    ensures word < Power16(n)
    decreases n
  {
    if n == 0 then 0
    else
      NibbleFits(Nibble(block[at + n - 1], signed), Power16(n - 1));
      Nibbles(block, signed, at, n - 1) + Times(Nibble(block[at + n - 1], signed), Power16(n - 1))
  }

  function NibbleWord(block: Block, signed: bool, i: nat): U32
    requires i < 8
  {
    assert Power16(4) == 0x1_0000 && Power16(8) == 0x1_0000_0000;
    Nibbles(block, signed, 8 * i, 8)
  }

  function ByteWord(block: Block, signed: bool, i: nat): U32
    requires i < 16
  {
    FromBytes(Component(block[4 * i], signed), Component(block[4 * i + 1], signed), Component(block[4 * i + 2], signed), Component(block[4 * i + 3], signed))
  }

  function ByteWords(block: Block, signed: bool): (words: seq<U32>)
    ensures |words| == 16
  {
    seq(16, i requires 0 <= i < 16 => ByteWord(block, signed, i))
  }

  function NibbleWords(block: Block, signed: bool): (words: seq<U32>)
    ensures |words| == 8
  {
    seq(8, i requires 0 <= i < 8 => NibbleWord(block, signed, i))
  }

  function MonoWords(how: Settings, block: Block): seq<U32> {
    if how.depth.EightBit? then ByteWords(block, how.signed) else NibbleWords(block, how.signed)
  }

  function Emitted(how: Settings, blocks: Blocks): seq<U32> {
    if how.Colour() then MacroWords(how, blocks) else MonoWords(how, blocks[0])
  }

  // ---- resumption ----

  /** The codes not yet decoded, the block being decoded, the blocks themselves, and the words made. */
  datatype Decoder = Decoder(codes: seq<U16>, current: nat, blocks: Blocks, output: seq<U32>)

  /** The block number survives a change of depth, so all that bounds it is the macroblock's six. */
  predicate InMacroblock(d: Decoder) { d.current < 6 }

  function AfterBlock(how: Settings, d: Decoder, block: Block, rest: seq<U16>): (after: Decoder)
    requires InMacroblock(d)
    ensures InMacroblock(after) && after.codes == rest
  {
    var blocks := d.blocks[d.current := Transformed(block, how.scale)];
    if d.current + 1 < how.Needed() then Decoder(rest, d.current + 1, blocks, d.output)
    else Decoder(rest, 0, blocks, d.output + Emitted(how, blocks))
  }

  /** Every whole block the codes hold, decoded; what is short is left where it was. */
  function Drained(how: Settings, d: Decoder): (after: Decoder)
    requires InMacroblock(d)
    ensures InMacroblock(after)
    decreases |d.codes|
  {
    match ParseBlock(d.codes, d.blocks[d.current], how.Quant(d.current))
    case Short(block) => d.(blocks := d.blocks[d.current := block])
    case Complete(block, rest) => Drained(how, AfterBlock(how, d, block, rest))
  }

  function Pushed(d: Decoder, codes: seq<U16>): Decoder { d.(codes := d.codes + codes) }

  /** Decoding early changes nothing: codes pushed after a drain give what they would have given before it. */
  lemma {:induction false} DrainEarly(how: Settings, d: Decoder, more: seq<U16>)
    requires InMacroblock(d)
    ensures Drained(how, Pushed(Drained(how, d), more)) == Drained(how, Pushed(d, more))
    decreases |d.codes|
  {
    hide ParseBlock, Transformed, Emitted;
    var quant := how.Quant(d.current);
    var block := d.blocks[d.current];
    match ParseBlock(d.codes, block, quant) {
      case Complete(parsed, rest) =>
        ParseStable(d.codes, more, block, quant);
        DrainEarly(how, AfterBlock(how, d, parsed, rest), more);
        assert Pushed(AfterBlock(how, d, parsed, rest), more) == AfterBlock(how, Pushed(d, more), parsed, rest + more);
      case Short(left) =>
        ShortLeavesNoTrace(d.codes, more, block, quant);
        ResumeShort(how, d, left, more);
    }
  }

  /** A decoder whose current block holds the traces of a short parse drains as the clean one does. */
  lemma ResumeShort(how: Settings, d: Decoder, left: Block, more: seq<U16>)
    requires InMacroblock(d)
    requires ParseBlock(d.codes + more, left, how.Quant(d.current)) == ParseBlock(d.codes + more, d.blocks[d.current], how.Quant(d.current))
    ensures Drained(how, Pushed(d.(blocks := d.blocks[d.current := left]), more)) == Drained(how, Pushed(d, more))
  {
    hide ParseBlock, Transformed, Emitted;
    var dirty := Pushed(d.(blocks := d.blocks[d.current := left]), more);
    var clean := Pushed(d, more);
    assert dirty.blocks[d.current] == left;
    match ParseBlock(clean.codes, clean.blocks[d.current], how.Quant(d.current)) {
      case Complete(parsed, rest) =>
        assert dirty.blocks[d.current := Transformed(parsed, how.scale)] == clean.blocks[d.current := Transformed(parsed, how.scale)];
        assert AfterBlock(how, dirty, parsed, rest) == AfterBlock(how, clean, parsed, rest);
      case Short(block) =>
        assert dirty.blocks[d.current := block] == clean.blocks[d.current := block];
    }
  }

  /** A word read as codes, in the order they are decoded. */
  function CodesOf(word: U32): seq<U16> { [word % 0x1_0000, word / 0x1_0000] }

  function AllCodes(words: seq<U32>): seq<U16> { if words == [] then [] else AllCodes(words[..|words| - 1]) + CodesOf(words[|words| - 1]) }

  /** The decoder after a run of words, drained after every single one. */
  function Fed(how: Settings, d: Decoder, words: seq<U32>): (after: Decoder)
    requires InMacroblock(d)
    ensures InMacroblock(after)
    decreases |words|
  {
    if words == [] then d
    else Drained(how, Pushed(Fed(how, d, words[..|words| - 1]), CodesOf(words[|words| - 1])))
  }

  /**
    Fed word by word or decoded from the whole stream at once, the decoder ends in the same state:
    the same output, the same codes left over, the same block number and the same blocks.
   */
  lemma {:induction false} FeedingIsBatching(how: Settings, d: Decoder, words: seq<U32>)
    requires InMacroblock(d) && words != []
    ensures Fed(how, d, words) == Drained(how, Pushed(d, AllCodes(words)))
    decreases |words|
  {
    hide Drained;
    var front, last := words[..|words| - 1], words[|words| - 1];
    if front == [] {
      assert Fed(how, d, front) == d && AllCodes(front) == [];
      assert AllCodes(words) == CodesOf(last);
    } else {
      FeedingIsBatching(how, d, front);
      DrainEarly(how, Pushed(d, AllCodes(front)), CodesOf(last));
      assert Pushed(Pushed(d, AllCodes(front)), CodesOf(last)) == Pushed(d, AllCodes(words)) by {
        assert d.codes + AllCodes(front) + CodesOf(last) == d.codes + (AllCodes(front) + CodesOf(last));
      }
    }
  }

  /** The words a whole picture comes to: a fixed number for every macroblock. */
  lemma EmittedSize(how: Settings, blocks: Blocks)
    ensures |Emitted(how, blocks)| ==
            match how.depth case FourBit => 8 case EightBit => 16 case TwentyFourBit => 192 case FifteenBit => 128
  {
  }

  // ---- no overflow on any run ----

  predicate SamplesFit(block: Block) { forall i :: 0 <= i < 64 ==> Abs(block[i]) <= 16384 }

  /** The blocks of the macroblock decoded so far all hold samples the conversion can take. */
  predicate DecodedFit(d: Decoder) { d.current <= 6 && forall j :: 0 <= j < d.current ==> SamplesFit(d.blocks[j]) }

  lemma TransformedFits(block: Block, scale: Scale)
    requires IsLimited(block)
    ensures SamplesFit(Transformed(block, scale))
  {
    hide Sample, DoubleProduct;
    forall i | 0 <= i < 64
      ensures Abs(Transformed(block, scale)[i]) <= 16384
    {
      TransformIsExact(block, scale, i % 8, i / 8);
      assert i == i % 8 + i / 8 * 8;
    }
  }

  /** So when a macroblock is emitted, every block it is made from fits, and no conversion overflows. */
  lemma BlockKeepsFit(how: Settings, d: Decoder)
    requires InMacroblock(d) && DecodedFit(d)
    requires ParseBlock(d.codes, d.blocks[d.current], how.Quant(d.current)).Complete?
    ensures var p := ParseBlock(d.codes, d.blocks[d.current], how.Quant(d.current));
            var blocks := AfterBlock(how, d, p.block, p.rest).blocks;
            && (forall j :: 0 <= j <= d.current ==> SamplesFit(blocks[j]))
            && DecodedFit(AfterBlock(how, d, p.block, p.rest))
  {
    hide ParseBlock, Transformed, IsLimited, SamplesFit;
    ParsedIsLimited(d.codes, d.blocks[d.current], how.Quant(d.current));
    TransformedFits(ParseBlock(d.codes, d.blocks[d.current], how.Quant(d.current)).block, how.scale);
  }

  /** And it holds on every run: a decoder that starts between macroblocks keeps it through any feeding. */
  lemma {:induction false} DrainKeepsFit(how: Settings, d: Decoder)
    requires InMacroblock(d) && DecodedFit(d)
    ensures DecodedFit(Drained(how, d))
    decreases |d.codes|
  {
    hide ParseBlock, AfterBlock, SamplesFit;
    match ParseBlock(d.codes, d.blocks[d.current], how.Quant(d.current)) {
      case Complete(block, rest) =>
        BlockKeepsFit(how, d);
        DrainKeepsFit(how, AfterBlock(how, d, block, rest));
      case Short(_) =>
    }
  }
}
