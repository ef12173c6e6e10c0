/** The decoder as the machine holds it: FIFOs with positions, blocks filled in place, tables loaded by command. */
module MdecUnit {
  import opened Words
  import opened Mdec
  import opened MdecDecoder
  import opened MdecTransform

  datatype Parameters = Nothing | Macroblocks | QuantTables | ScaleTable | Ignored

  function DepthOf(n: nat): Depth
    requires n < 4
  {
    match n case 0 => FourBit case 1 => EightBit case 2 => TwentyFourBit case _ => FifteenBit
  }

  function ToS16(x: U16): S16 { if x < 0x8000 then x else x - 0x1_0000 }

  /** A quantisation table with a word's four bytes written over those at an offset. */
  function WithBytes(table: Table, offset: nat, word: U32): Table
    requires offset + 4 <= 64
  {
    table[offset := Byte(word, 0)][offset + 1 := Byte(word, 1)][offset + 2 := Byte(word, 2)][offset + 3 := Byte(word, 3)]
  }

  function HalfOf(word: U32, n: nat): U16 { if n == 0 then word % 0x1_0000 else word / 0x1_0000 }

  /** A scale table with a word's two entries, signed, written over those at an offset. */
  function WithHalves(table: Scale, offset: nat, word: U32): Scale
    requires offset + 2 <= 64
  {
    table[offset := ToS16(HalfOf(word, 0))][offset + 1 := ToS16(HalfOf(word, 1))]
  }

  /** What a command's top three bits ask for, and how many parameter words follow it. */
  function KindOf(word: U32): Parameters {
    match word / 0x2000_0000
    case 1 => Macroblocks
    case 2 => QuantTables
    case 3 => ScaleTable
    case _ => Ignored
  }

  function ParametersOf(word: U32): (n: nat)
    ensures n < 0x1_0000
    ensures KindOf(word).ScaleTable? ==> n == 32
    ensures KindOf(word).QuantTables? ==> n <= 32
  {
    match word / 0x2000_0000
    case 2 => if word % 2 == 1 then 32 else 16
    case 3 => 32
    case _ => Times(word, 1) % 0x1_0000
  }

  /** The settings after a parameter word: only the two table commands touch them. */
  function Loaded(how: Settings, kind: Parameters, index: nat, word: U32): Settings
    requires kind.QuantTables? || kind.ScaleTable? ==> index < 32
  {
    match kind
    case QuantTables =>
      if index < 16 then how.(luma := WithBytes(how.luma, index * 4, word)) else how.(chroma := WithBytes(how.chroma, (index - 16) * 4, word))
    case ScaleTable => how.(scale := WithHalves(how.scale, index * 2, word))
    case _ => how
  }

  /** The settings after a command word: only a decode says anything about the picture's shape. */
  function Shaped(how: Settings, word: U32): Settings {
    if KindOf(word).Macroblocks?
    then how.(depth := DepthOf(word / 0x800_0000 % 4), signed := HasBit(word, 0x400_0000), bit15 := HasBit(word, 0x200_0000))
    else how
  }

  /** The settings after all of a command's parameter words so far. */
  function AllLoaded(how: Settings, kind: Parameters, words: seq<U32>): Settings
    requires kind.QuantTables? || kind.ScaleTable? ==> |words| <= 32
  {
    if words == [] then how
    else Loaded(AllLoaded(how, kind, words[..|words| - 1]), kind, |words| - 1, words[|words| - 1])
  }

  /** Where each byte sent ends up: the first sixteen words are the luminance table, the rest the chrominance one. */
  lemma {:induction false} QuantLoaded(how: Settings, words: seq<U32>)
    requires |words| <= 32
    ensures var after := AllLoaded(how, QuantTables, words);
            && after == how.(luma := after.luma, chroma := after.chroma)
            && (forall i :: 0 <= i < 64 ==> after.luma[i] == if i / 4 < |words| then Byte(words[i / 4], i % 4) else how.luma[i])
            && (forall i :: 0 <= i < 64 ==> after.chroma[i] == if 16 + i / 4 < |words| then Byte(words[16 + i / 4], i % 4) else how.chroma[i])
  {
    hide WithBytes, Byte;
    if words != [] {
      var n := |words| - 1;
      var before := AllLoaded(how, QuantTables, words[..n]);
      QuantLoaded(how, words[..n]);
      if n < 16 {
        BytesPlaced(before.luma, n, words[n]);
      } else {
        BytesPlaced(before.chroma, n - 16, words[n]);
      }
    }
  }

  lemma BytesPlaced(table: Table, place: nat, word: U32)
    requires place < 16
    ensures forall i :: 0 <= i < 64 ==> WithBytes(table, place * 4, word)[i] == if i / 4 == place then Byte(word, i % 4) else table[i]
  {
    hide Byte;
    forall i | 0 <= i < 64
      ensures WithBytes(table, place * 4, word)[i] == if i / 4 == place then Byte(word, i % 4) else table[i]
    {
      assert i == i / 4 * 4 + i % 4;
    }
  }

  /** Where each halfword of the scale table ends up. */
  lemma {:induction false} ScaleLoaded(how: Settings, words: seq<U32>)
    requires |words| <= 32
    ensures var after := AllLoaded(how, ScaleTable, words);
            && after == how.(scale := after.scale)
            && (forall i :: 0 <= i < 64 ==> after.scale[i] == if i / 2 < |words| then ToS16(HalfOf(words[i / 2], i % 2)) else how.scale[i])
  {
    hide ToS16;
    if words != [] {
      ScaleLoaded(how, words[..|words| - 1]);
    }
  }

  class Unit {
    var quantLuma: Table
    var quantChroma: Table
    var scale: Scale
    var expecting: Parameters
    var busy: bool
    var wordsLeft: U16
    var parameterIndex: nat
    var depth: Depth
    var outputSigned: bool
    var outputBit15: bool
    var currentBlock: nat
    const blocks: array<Block>
    var input: seq<U16>
    var inputPosition: nat
    var output: seq<U32>
    var outputPosition: nat

    predicate Valid()
      reads this, blocks
    {
      && blocks.Length == 6 && inputPosition <= |input| && outputPosition <= |output|
      && currentBlock < 6
      && (expecting.ScaleTable? && busy ==> parameterIndex + wordsLeft + 1 == 32)
      && (expecting.QuantTables? && busy ==> parameterIndex + wordsLeft < 32)
    }

    function How(): Settings
      reads this`quantLuma, this`quantChroma, this`scale, this`depth, this`outputSigned, this`outputBit15
    {
      Settings(quantLuma, quantChroma, scale, depth, outputSigned, outputBit15)
    }

    /** The decoder this is: the codes still to be read, and the words still to be taken away. */
    function State(): Decoder
      requires blocks.Length == 6 && inputPosition <= |input| && outputPosition <= |output|
      reads this`input, this`inputPosition, this`currentBlock, this`output, this`outputPosition, blocks
    {
      Decoder(input[inputPosition..], currentBlock, blocks[..], output[outputPosition..])
    }

    /** Parameter words the command in progress still wants. */
    function Wanted(): nat
      reads this`busy, this`wordsLeft
    {
      if busy then wordsLeft + 1 else 0
    }

    constructor ()
      ensures Valid() && fresh(blocks) && !busy && wordsLeft == 0
      ensures State() == Decoder([], 0, seq(6, _ => ZeroBlock()), [])
    {
      quantLuma, quantChroma, scale := seq(64, _ => 0), seq(64, _ => 0), seq(64, _ => 0);
      expecting, busy, wordsLeft, parameterIndex := Nothing, false, 0, 0;
      depth, outputSigned, outputBit15, currentBlock := FourBit, false, false, 0;
      input, inputPosition, output, outputPosition := [], 0, [], 0;
      blocks := new Block[6](_ => ZeroBlock());
    }

    method NextCode() returns (ok: bool, code: U16)
      requires inputPosition <= |input|
      modifies this`inputPosition
      ensures ok <==> old(inputPosition) < |input|
      ensures inputPosition == old(inputPosition) + (if ok then 1 else 0)
      ensures ok ==> code == input[old(inputPosition)] && input[old(inputPosition)..] == [code] + input[inputPosition..]
    {
      if inputPosition >= |input| {
        return false, 0;
      }
      code := input[inputPosition];
      inputPosition := inputPosition + 1;
      ok := true;
    }

    /** Reads one block in place, and transforms it if it was all there. */
    method DecodeBlock(c: nat, quant: Table) returns (ok: bool)
      requires blocks.Length == 6 && c < 6 && inputPosition <= |input|
      modifies this`inputPosition, blocks
      ensures inputPosition <= |input|
      ensures var p := ParseBlock(old(input[inputPosition..]), old(blocks[c]), quant);
              && ok == p.Complete?
              && (ok ==> input[inputPosition..] == p.rest && blocks[..] == old(blocks[..])[c := Transformed(p.block, scale)])
              && (!ok ==> blocks[..] == old(blocks[..])[c := p.block])
    {
      hide Fill, Placed, DcValue, AcValue, Transformed;
      ghost var start := ParseBlock(input[inputPosition..], blocks[c], quant);
      ghost var was := blocks[..];
      var more, code := NextCode();
      if !more {
        assert blocks[..] == was[c := was[c]];
        return false;
      }
      while code == END_OF_BLOCK
        invariant inputPosition <= |input| && blocks[..] == was
        invariant ParseBlock([code] + input[inputPosition..], was[c], quant) == start
        decreases |input| - inputPosition
      {
        assert ([code] + input[inputPosition..])[1..] == input[inputPosition..];
        more, code := NextCode();
        if !more {
          assert blocks[..] == was[c := was[c]];
          return false;
        }
      }
      assert ([code] + input[inputPosition..])[1..] == input[inputPosition..];
      ok := FillBlock(c, quant, code);
      if ok {
        var samples := new int[64](i requires 0 <= i < 64 reads blocks => if c < blocks.Length then blocks[c][i] else 0);
        assert samples[..] == blocks[c];
        InverseDct(samples, scale);
        blocks[c] := samples[..];
      }
    }

    /** The coefficients, from the code that carries the factor and the first of them. */
    method FillBlock(c: nat, quant: Table, first: U16) returns (ok: bool)
      requires blocks.Length == 6 && c < 6 && inputPosition <= |input|
      modifies this`inputPosition, blocks
      ensures inputPosition <= |input|
      ensures var p := Fill(old(input[inputPosition..]), ZeroBlock(), 0, first, DcValue(first, quant), Upper(first), quant);
              && ok == p.Complete? && blocks[..] == old(blocks[..])[c := p.block]
              && (ok ==> input[inputPosition..] == p.rest)
    {
      hide Placed, DcValue, AcValue;
      var code := first;
      var factor := Upper(code);
      var value := DcValue(code, quant);
      ghost var whole := Fill(input[inputPosition..], ZeroBlock(), 0, code, value, factor, quant);
      ghost var was := blocks[..];
      blocks[c] := ZeroBlock();
      var index: nat := 0;
      while true
        invariant index < 64 && inputPosition <= |input|
        invariant Fill(input[inputPosition..], blocks[c], index, code, value, factor, quant) == whole
        invariant blocks[..] == was[c := blocks[c]]
        decreases |input| - inputPosition
      {
        blocks[c] := Placed(blocks[c], index, code, value, factor);
        if index == 63 {
          return true;
        }
        var more;
        more, code := NextCode();
        if !more {
          return false;
        }
        assert ([code] + input[inputPosition..])[1..] == input[inputPosition..];
        index := index + Upper(code) + 1;
        if index > 63 {
          return true;
        }
        value := AcValue(code, factor, quant, index);
      }
    }

    method PushOutput(word: U32)
      modifies this`output
      ensures output == old(output) + [word]
    {
      output := output + [word];
    }

    /** All 64 pixels of a quarter, each the conversion of its luminance with the chroma sample it shares. */
    method YuvToRgb(left: nat, top: nat, luma: Block, cr: Block, cb: Block) returns (pixels: array<Colour>)
      requires left <= 8 && top <= 8
      ensures fresh(pixels) && pixels.Length == 64
      ensures forall x, y :: 0 <= x < 8 && 0 <= y < 8 ==> pixels[At(x, y)] == QuarterPixel(luma, cr, cb, left, top, outputSigned, x, y)
    {
      hide QuarterPixel;
      pixels := new Colour[64](_ => Colour(0, 0, 0));
      for y := 0 to 8
        invariant forall px, py :: 0 <= px < 8 && 0 <= py < y ==> pixels[At(px, py)] == QuarterPixel(luma, cr, cb, left, top, outputSigned, px, py)
      {
        for x := 0 to 8
          invariant forall px, py :: 0 <= px < 8 && 0 <= py < 8 && (py < y || (py == y && px < x)) ==>
                      pixels[At(px, py)] == QuarterPixel(luma, cr, cb, left, top, outputSigned, px, py)
        {
          pixels[x + y * 8] := QuarterPixel(luma, cr, cb, left, top, outputSigned, x, y);
        }
      }
    }

    /** The array holds the macroblock's pixels, row by row, and no cell is left at its initial value. */
    method Assemble() returns (pixels: array<Colour>)
      requires blocks.Length == 6
      ensures fresh(pixels) && pixels[..] == Pixels(blocks[..], outputSigned)
    {
      hide MacroPixel, QuarterPixel, QuarterOf, PlaceIn, Cell;
      pixels := new Colour[256](_ => Colour(0, 0, 0));
      NoneBefore();
      for quarter := 0 to 4
        invariant forall x, y :: 0 <= x < 16 && 0 <= y < 16 && QuarterOf(x, y) < quarter ==> pixels[Cell(x, y)] == MacroPixel(blocks[..], x, y, outputSigned)
      {
        var left, top := quarter % 2 * 8, quarter / 2 * 8;
        var quadrant := YuvToRgb(left, top, blocks[2 + quarter], blocks[0], blocks[1]);
        for index := 0 to 64
          invariant forall x, y :: 0 <= x < 8 && 0 <= y < 8 ==> quadrant[At(x, y)] == QuarterPixel(blocks[2 + quarter], blocks[0], blocks[1], left, top, outputSigned, x, y)
          invariant forall x, y :: 0 <= x < 16 && 0 <= y < 16 && (QuarterOf(x, y) < quarter || (QuarterOf(x, y) == quarter && PlaceIn(x, y) < index)) ==>
                      pixels[Cell(x, y)] == MacroPixel(blocks[..], x, y, outputSigned)
        {
          var x, y := left + index % 8, top + index / 8;
          PlaceInQuarter(x, y, quarter, index);
          PlaceIsUnique(x, y);
          CellIsUnique(x, y);
          QuarterMakesMacro(blocks[..], quarter, index % 8, index / 8, outputSigned);
          assert At(index % 8, index / 8) == index;
          assert quadrant[index] == MacroPixel(blocks[..], x, y, outputSigned);
          pixels[x + y * 16] := quadrant[index];
        }
      }
      forall i | 0 <= i < 256
        ensures pixels[..][i] == Pixels(blocks[..], outputSigned)[i]
      {
        CellIsUnique(i % 16, i / 16);
      }
    }

    method EmitMacroblock()
      requires blocks.Length == 6 && How().Colour()
      modifies this`output
      ensures output == old(output) + MacroWords(How(), blocks[..])
    {
      hide Pixels, PairWords, PackedWords;
      var pixels := Assemble();
      if depth.FifteenBit? {
        EmitPairs(pixels);
        return;
      }
      EmitPacked(pixels);
    }

    method EmitPairs(pixels: array<Colour>)
      requires pixels.Length == 256
      modifies this`output
      ensures output == old(output) + PairWords(pixels[..], outputBit15)
    {
      hide PairWord;
      ghost var words := PairWords(pixels[..], outputBit15);
      ghost var was := output;
      var index := 0;
      while index < 256
        invariant 0 <= index <= 256 && index % 2 == 0
        invariant output == was + words[..index / 2]
      {
        assert words[..index / 2 + 1] == words[..index / 2] + [words[index / 2]];
        PushOutput(PairWord(pixels[..], outputBit15, index / 2));
        index := index + 2;
      }
      assert words[..128] == words;
    }

    /** Carries a part-filled word from pixel to pixel; the words that come out are the packed ones in order. */
    method EmitPacked(pixels: array<Colour>)
      requires pixels.Length == 256
      modifies this`output
      ensures output == old(output) + PackedWords(pixels[..])
    {
      hide PackedWord, PackedByte, Times, Place, Part;
      ghost var p := pixels[..];
      ghost var words := PackedWords(p);
      ghost var was := output;
      var word, filled := 0, 0;
      PlaceZero(p);
      for pixel := 0 to 256
        invariant filled == 3 * pixel % 4
        invariant output == was + words[..3 * pixel / 4] && word == Part(p, 3 * pixel)
      {
        var components := [pixels[pixel].red, pixels[pixel].green, pixels[pixel].blue];
        for c := 0 to 3
          invariant filled == (3 * pixel + c) % 4
          invariant output == was + words[..(3 * pixel + c) / 4] && word == Part(p, 3 * pixel + c)
        {
          ByteOf(p, pixel, c);
          word := word + Times(components[c], Place(filled));
          PartGrows(p, 3 * pixel + c);
          filled := filled + 1;
          if filled == 4 {
            assert words[..(3 * pixel + c) / 4 + 1] == words[..(3 * pixel + c) / 4] + [words[(3 * pixel + c) / 4]];
            PushOutput(word);
            word := 0;
            filled := 0;
          }
        }
      }
      assert words[..192] == words;
    }

    method EmitMonoBlock()
      requires blocks.Length == 6 && !How().Colour()
      modifies this`output
      ensures output == old(output) + MonoWords(How(), blocks[0])
    {
      hide ByteWords, NibbleWords;
      if depth.EightBit? {
        EmitBytes(blocks[0]);
        return;
      }
      EmitNibbles(blocks[0]);
    }

    method EmitBytes(block: Block)
      modifies this`output
      ensures output == old(output) + ByteWords(block, outputSigned)
    {
      hide ByteWord;
      ghost var was := output;
      ghost var words := ByteWords(block, outputSigned);
      var index := 0;
      while index < 64
        invariant 0 <= index <= 64 && index % 4 == 0 && output == was + words[..index / 4]
      {
        assert words[..index / 4 + 1] == words[..index / 4] + [words[index / 4]];
        PushOutput(ByteWord(block, outputSigned, index / 4));
        index := index + 4;
      }
      assert words[..16] == words;
    }

    method EmitNibbles(block: Block)
      modifies this`output
      ensures output == old(output) + NibbleWords(block, outputSigned)
    {
      hide NibbleWord;
      ghost var was := output;
      ghost var words := NibbleWords(block, outputSigned);
      var index := 0;
      while index < 64
        invariant 0 <= index <= 64 && index % 8 == 0 && output == was + words[..index / 8]
      {
        assert words[..index / 8 + 1] == words[..index / 8] + [words[index / 8]];
        var word := PackNibbles(block, index / 8);
        PushOutput(word);
        index := index + 8;
      }
      assert words[..8] == words;
    }

    /** Eight samples in one word, a nibble each. */
    method PackNibbles(block: Block, row: nat) returns (word: U32)
      requires row < 8
      ensures word == NibbleWord(block, outputSigned, row)
    {
      hide Nibble, Times;
      var packed, place := 0, 1;
      for nibble := 0 to 8
        invariant packed == Nibbles(block, outputSigned, 8 * row, nibble) && place == Power16(nibble)
      {
        packed := packed + Times(Nibble(block[8 * row + nibble], outputSigned), place);
        place := place * 16;
      }
      NibbleWordIs(block, outputSigned, row);
      word := packed;
    }

    /** One block, and the picture it completes if it is the last of a macroblock. */
    method DecodeNext() returns (whole: bool)
      requires blocks.Length == 6 && inputPosition <= |input| && outputPosition <= |output| && currentBlock < 6
      modifies this`inputPosition, this`currentBlock, this`output, blocks
      ensures inputPosition <= |input| && outputPosition <= |output| && currentBlock < 6
      ensures var d := old(State());
              match ParseBlock(d.codes, d.blocks[d.current], How().Quant(d.current))
              case Complete(block, rest) => whole && State() == AfterBlock(How(), d, block, rest) && inputPosition > old(inputPosition)
              case Short(block) => !whole && State() == d.(blocks := d.blocks[d.current := block])
    {
      hide ParseBlock, Transformed, MacroWords, MonoWords;
      var start := inputPosition;
      var quant := if How().Colour() && currentBlock < 2 then quantChroma else quantLuma;
      whole := DecodeBlock(currentBlock, quant);
      if !whole {
        inputPosition := start;
        return;
      }
      currentBlock := currentBlock + 1;
      if currentBlock < How().Needed() {
        return;
      }
      currentBlock := 0;
      ghost var waiting := output[outputPosition..];
      if How().Colour() {
        EmitMacroblock();
      } else {
        EmitMonoBlock();
      }
      assert output[outputPosition..] == waiting + Emitted(How(), blocks[..]);
    }

    /** The loop drains the input: its result is that of draining the codes as a sequence, and it ends. */
    method DecodeAvailable()
      requires blocks.Length == 6 && inputPosition <= |input| && outputPosition <= |output| && currentBlock < 6
      modifies this`input, this`inputPosition, this`currentBlock, this`output, blocks
      ensures inputPosition <= |input| && outputPosition <= |output| && currentBlock < 6
      ensures State() == Drained(How(), old(State()))
    {
      hide ParseBlock, AfterBlock;
      var whole := true;
      while whole
        invariant inputPosition <= |input| && outputPosition <= |output| && currentBlock < 6
        invariant input == old(input)
        invariant (if whole then Drained(How(), State()) else State()) == Drained(How(), old(State()))
        decreases whole, |input| - inputPosition
      {
        whole := DecodeNext();
      }
      if inputPosition >= |input| {
        input := [];
        inputPosition := 0;
      }
    }

    /** A word of the stream: afterwards the decoder is as if drained with both its codes appended. */
    method TakeCodes(word: U32)
      requires blocks.Length == 6 && inputPosition <= |input| && outputPosition <= |output| && currentBlock < 6
      modifies this`input, this`inputPosition, this`currentBlock, this`output, blocks
      ensures inputPosition <= |input| && outputPosition <= |output| && currentBlock < 6
      ensures State() == Drained(How(), Pushed(old(State()), CodesOf(word)))
    {
      hide Drained;
      ghost var before := State();
      input := input + [word % 0x1_0000];
      input := input + [word / 0x1_0000];
      assert input[inputPosition..] == before.codes + CodesOf(word);
      DecodeAvailable();
    }

    /** One word of the quantisation tables, into whichever of the two the index has reached. */
    method TakeQuant(word: U32)
      requires parameterIndex < 32
      modifies this`quantLuma, this`quantChroma
      ensures How() == Loaded(old(How()), QuantTables, parameterIndex, word)
    {
      hide WithBytes;
      if parameterIndex < 16 {
        quantLuma := WithBytes(quantLuma, parameterIndex % 16 * 4, word);
      } else {
        quantChroma := WithBytes(quantChroma, parameterIndex % 16 * 4, word);
      }
    }

    /** One word of the scale table. */
    method TakeScale(word: U32)
      requires parameterIndex < 32
      modifies this`scale
      ensures How() == Loaded(old(How()), ScaleTable, parameterIndex, word)
    {
      hide ToS16;
      scale := scale[parameterIndex * 2 := ToS16(word % 0x1_0000)][parameterIndex * 2 + 1 := ToS16(word / 0x1_0000)];
    }

    /** A word a command was waiting for: its one effect, and one fewer to wait for. */
    method TakeParameter(word: U32)
      requires Valid() && busy
      modifies this, blocks
      ensures Valid() && Wanted() == old(Wanted()) - 1 && parameterIndex == old(parameterIndex) + 1
      ensures expecting == if busy then old(expecting) else Nothing
      ensures How() == Loaded(old(How()), old(expecting), old(parameterIndex), word)
      ensures State() == if old(expecting).Macroblocks? then Drained(old(How()), Pushed(old(State()), CodesOf(word))) else old(State())
    {
      hide Drained, WithBytes, WithHalves, CodesOf, Pushed, State, How;
      match expecting {
        case Macroblocks => TakeCodes(word);
        case QuantTables => TakeQuant(word);
        case ScaleTable => TakeScale(word);
        case _ =>
      }
      CountParameter();
    }

    /** Counts a parameter off, and ends the command with the last. */
    method CountParameter()
      requires Valid() && busy
      modifies this`parameterIndex, this`wordsLeft, this`busy, this`expecting
      ensures Valid() && Wanted() == old(Wanted()) - 1 && parameterIndex == old(parameterIndex) + 1
      ensures expecting == if busy then old(expecting) else Nothing
    {
      parameterIndex := parameterIndex + 1;
      var last := wordsLeft == 0;
      wordsLeft := if wordsLeft == 0 then 0xFFFF else wordsLeft - 1;
      if last {
        busy := false;
        expecting := Nothing;
      }
    }

    /** A command word: sets what its parameters will mean and how many will come, and decodes nothing. */
    method StartCommand(word: U32)
      requires Valid() && !busy
      modifies this`busy, this`expecting, this`wordsLeft, this`parameterIndex, this`depth, this`outputSigned, this`outputBit15
      ensures Valid() && State() == old(State())
      ensures Wanted() == ParametersOf(word)
      ensures expecting == if Wanted() == 0 then Nothing else KindOf(word)
      ensures How() == Shaped(old(How()), word) && parameterIndex == 0
    {
      hide State, DepthOf, HasBit, KindOf, ParametersOf;
      if KindOf(word).Macroblocks? {
        depth := DepthOf(word / 0x800_0000 % 4);
        outputSigned := HasBit(word, 0x400_0000);
        outputBit15 := HasBit(word, 0x200_0000);
      }
      expecting := KindOf(word);
      ExpectParameters(ParametersOf(word));
    }

    method ExpectParameters(words: nat)
      requires words < 0x1_0000 && blocks.Length == 6 && inputPosition <= |input| && outputPosition <= |output| && currentBlock < 6
      requires (expecting.ScaleTable? ==> words == 32) && (expecting.QuantTables? ==> words <= 32)
      modifies this`parameterIndex, this`busy, this`wordsLeft, this`expecting
      ensures Valid() && Wanted() == words && parameterIndex == 0
      ensures expecting == if words == 0 then Nothing else old(expecting)
    {
      parameterIndex := 0;
      busy := words > 0;
      wordsLeft := (words + 0xFFFF) % 0x1_0000;
      if !busy {
        expecting := Nothing;
      }
    }

    method WriteCommand(word: U32)
      requires Valid()
      modifies this, blocks
      ensures Valid()
      ensures Wanted() == if old(busy) then old(Wanted()) - 1 else ParametersOf(word)
      ensures expecting == if !busy then Nothing else if old(busy) then old(expecting) else KindOf(word)
      ensures parameterIndex == if old(busy) then old(parameterIndex) + 1 else 0
      ensures How() == if old(busy) then Loaded(old(How()), old(expecting), old(parameterIndex), word) else Shaped(old(How()), word)
      ensures State() == if old(busy && expecting.Macroblocks?) then Drained(old(How()), Pushed(old(State()), CodesOf(word))) else old(State())
    {
      hide Drained, Pushed, CodesOf, State, How, Loaded, Shaped, KindOf, ParametersOf;
      if busy {
        TakeParameter(word);
        return;
      }
      StartCommand(word);
    }

    /** Takes the oldest word of output; with none there it gives zero and changes nothing. */
    method ReadData() returns (word: U32)
      requires Valid()
      modifies this`output, this`outputPosition
      ensures Valid()
      ensures old(State()).output == [] ==> word == 0 && State() == old(State())
      ensures old(State()).output != [] ==> word == old(State()).output[0] && State() == old(State()).(output := old(State()).output[1..])
    {
      if outputPosition >= |output| {
        return 0;
      }
      word := output[outputPosition];
      outputPosition := outputPosition + 1;
      if outputPosition >= |output| {
        output := [];
        outputPosition := 0;
      }
    }
  }

  lemma NoneBefore()
    ensures forall x, y :: 0 <= x < 16 && 0 <= y < 16 ==> 0 <= QuarterOf(x, y) < 4 && 0 <= PlaceIn(x, y) < 64 && 0 <= Cell(x, y) < 256
  {
  }

  /** Which quarter of a macroblock a pixel is in, where in the quarter, and where in the whole. */
  function QuarterOf(x: int, y: int): int { x / 8 + y / 8 * 2 }

  function PlaceIn(x: int, y: int): int { x % 8 + y % 8 * 8 }

  function Cell(x: int, y: int): int { x + y * 16 }

  lemma CellIsUnique(x: nat, y: nat)
    requires x < 16 && y < 16
    ensures Cell(x, y) == x + y * 16
    ensures forall px, py :: 0 <= px < 16 && 0 <= py < 16 && Cell(px, py) == Cell(x, y) ==> px == x && py == y
  {
  }

  lemma PlaceInQuarter(x: nat, y: nat, quarter: nat, index: nat)
    requires quarter < 4 && index < 64 && x == quarter % 2 * 8 + index % 8 && y == quarter / 2 * 8 + index / 8
    ensures x < 16 && y < 16 && QuarterOf(x, y) == quarter && PlaceIn(x, y) == index
    ensures x % 8 == index % 8 && y % 8 == index / 8 && At(x % 8, y % 8) == index
  {
  }

  /** Two pixels of one macroblock at the same place of the same quarter are one pixel. */
  lemma OnePlace(x: nat, y: nat, px: nat, py: nat)
    requires x < 16 && y < 16 && px < 16 && py < 16
    requires QuarterOf(px, py) == QuarterOf(x, y) && PlaceIn(px, py) == PlaceIn(x, y)
    ensures px == x && py == y
  {
    Halves(px, py);
    Halves(x, y);
  }

  lemma PlaceIsUnique(x: nat, y: nat)
    requires x < 16 && y < 16
    ensures forall px, py :: 0 <= px < 16 && 0 <= py < 16 && QuarterOf(px, py) == QuarterOf(x, y) && PlaceIn(px, py) == PlaceIn(x, y) ==>
              px == x && py == y
  {
    hide QuarterOf, PlaceIn;
    forall px, py | 0 <= px < 16 && 0 <= py < 16 && QuarterOf(px, py) == QuarterOf(x, y) && PlaceIn(px, py) == PlaceIn(x, y)
      ensures px == x && py == y
    {
      OnePlace(x, y, px, py);
    }
  }

  lemma Halves(x: nat, y: nat)
    requires x < 16 && y < 16
    ensures x == QuarterOf(x, y) % 2 * 8 + PlaceIn(x, y) % 8 && y == QuarterOf(x, y) / 2 * 8 + PlaceIn(x, y) / 8
  {
    hide QuarterOf, PlaceIn;
    var a, b, m, n := x / 8, y / 8, x % 8, y % 8;
    assert x == 8 * a + m && y == 8 * b + n && QuarterOf(x, y) == a + 2 * b && PlaceIn(x, y) == m + 8 * n by { PlaceOf(x, y); }
    UniqueRemainder(a + 2 * b, 2, b, a);
    UniqueRemainder(m + 8 * n, 8, n, m);
  }

  lemma PlaceOf(x: nat, y: nat)
    ensures QuarterOf(x, y) == x / 8 + 2 * (y / 8) && PlaceIn(x, y) == x % 8 + 8 * (y % 8)
  {
  }

  /** Component c of a pixel is a byte of the packed run. */
  lemma ByteOf(p: seq<Colour>, pixel: nat, c: nat)
    requires |p| == 256 && pixel < 256 && c < 3
    ensures PackedByte(p, 3 * pixel + c) == [p[pixel].red, p[pixel].green, p[pixel].blue][c]
  {
    assert (3 * pixel + c) / 3 == pixel && (3 * pixel + c) % 3 == c;
  }

  /** The word being packed when k bytes have gone by. */
  function Part(p: seq<Colour>, k: nat): nat
    requires |p| == 256 && k <= 768
  {
    if k == 768 then 0 else PackedPart(p, k / 4, k % 4)
  }

  lemma PartGrows(p: seq<Colour>, k: nat)
    requires |p| == 256 && k < 768
    ensures var grown := Part(p, k) + Times(PackedByte(p, k), Place(k % 4));
            if k % 4 == 3 then grown == PackedWord(p, k / 4) && Part(p, k + 1) == 0 else grown == Part(p, k + 1)
  {
    hide PackedByte, Times, Place;
    assert 4 * (k / 4) + k % 4 == k;
  }

  lemma PlaceZero(p: seq<Colour>)
    requires |p| == 256
    ensures Place(0) == 1 && Part(p, 0) == 0 && Part(p, 768) == 0
  {
  }

  lemma NibbleWordIs(block: Block, signed: bool, i: nat)
    requires i < 8
    ensures NibbleWord(block, signed, i) == Nibbles(block, signed, 8 * i, 8)
  {
  }
}
