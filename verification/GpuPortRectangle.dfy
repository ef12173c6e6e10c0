/** The port as a program uses it: the rectangle its two words name, pixel by pixel, and the words every command takes. */
module GpuPortRectangle {
  import opened Words
  import opened GpuPort
  import RasterDraw

  // ---- the rectangle two words name ----

  /** A corner or a size as a program packs it, downwards in the high half and along in the low. */
  function Packed(along: U16, down: U16): U32 { along + down * 0x1_0000 }

  lemma PackedHalves(along: U16, down: U16)
    ensures Low(Packed(along, down)) == along && High(Packed(along, down)) == down
  {
    UniqueRemainder(Packed(along, down), 0x1_0000, down, along);
  }

  /** A size is the one number from one pixel to the limit that leaves the same remainder. */
  lemma OnlyExtent(value: nat, limit: nat, extent: nat)
    requires 1 <= extent <= limit && extent % limit == value % limit
    ensures Extent(value, limit) == extent
  {
    var q := value / limit;
    assert value == q * limit + value % limit;
    if extent == limit {
      UniqueRemainder(limit, limit, 1, 0);
      UniqueRemainder(value + limit - 1, limit, q, limit - 1);
    } else {
      UniqueRemainder(extent, limit, 0, extent);
      MulAdd(q, 1, limit);
      UniqueRemainder(value + limit - 1, limit, q + 1, extent - 1);
    }
  }

  /** A width from 1 to 1024 and a height from 1 to 512 are taken as they stand, at the corner's place in VRAM. */
  lemma RectangleNamed(x: U16, y: U16, w: nat, h: nat)
    requires 1 <= w <= 1024 && 1 <= h <= 512
    ensures Begun(Packed(x, y), Packed(w, h)) == Transfer(x % 1024, y % 512, w, h, 0)
    ensures WordsFor(Begun(Packed(x, y), Packed(w, h))) == (w * h + 1) / 2
  {
    PackedHalves(x, y);
    PackedHalves(w, h);
    OnlyExtent(w, 1024, w);
    OnlyExtent(h, 512, h);
    assert Packed(x, y) == x + 1024 * (64 * y);
    UniqueRemainder(Packed(x, y), 1024, 64 * y + x / 1024, x % 1024);
    hide Packed, Extent;
  }

  /** Nothing is too big to send: a half that is no such size stands for the one it leaves over, and zero for the whole of VRAM that way. */
  lemma RectangleWraps(corner: U32, size: U32)
    ensures var t := Begun(corner, size);
      && t.width % 1024 == size % 1024 && t.height % 512 == size / 0x1_0000 % 512
      && (size % 1024 == 0 ==> t.width == 1024) && (size / 0x1_0000 % 512 == 0 ==> t.height == 512)
  {
    var along, down := size % 0x1_0000, size / 0x1_0000;
    assert size == 0x1_0000 * down + along;
    UniqueRemainder(size, 1024, 64 * down + along / 1024, along % 1024);
    OnlyExtent(along, 1024, if along % 1024 == 0 then 1024 else along % 1024);
    OnlyExtent(down, 512, if down % 512 == 0 then 512 else down % 512);
    hide Extent;
  }

  // ---- pixel by pixel ----

  /** Row j, column i of a rectangle with its corner at (x, y): past either edge of VRAM it goes on from the other. */
  function Place(x: nat, y: nat, i: nat, j: nat): (place: nat)
    ensures place < 0x8_0000
  {
    (y + j) % 512 * 1024 + (x + i) % 1024
  }

  /** Pixels go row by row, each row from its left: pixel `j * w + i` is row j, column i. */
  lemma PlaceOf(t: Transfer, i: nat, j: nat)
    requires Sized(t) && i < t.width && j < t.height
    ensures j * t.width + i < Count(t) && At(t, j * t.width + i) == Place(t.x, t.y, i, j)
  {
    UniqueRemainder(j * t.width + i, t.width, j, i);
    MulMono(j + 1, t.height, t.width);
    assert (j + 1) * t.width == j * t.width + t.width;
    assert t.height * t.width == t.width * t.height;
  }

  lemma EveryPixel(t: Transfer, k: nat)
    requires Sized(t) && k < Count(t)
    ensures Column(t, k) < t.width && Row(t, k) < t.height && k == Row(t, k) * t.width + Column(t, k)
  {
    RowAndColumn(t, k);
  }

  lemma WrapsIntoRange(x: nat, y: nat, i: nat, j: nat)
    ensures Place(x % 1024, y % 512, i, j) == Place(x, y, i, j)
  {
    SumWraps(x, i, 1024);
    SumWraps(y, j, 512);
  }

  lemma SumWraps(x: nat, i: nat, span: nat)
    requires span > 0
    ensures (x % span + i) % span == (x + i) % span
  {
    var q, s := x / span, x % span + i;
    var p, r := s / span, s % span;
    assert x == q * span + x % span && s == p * span + r;
    MulAdd(q, p, span);
    UniqueRemainder(x + i, span, q + p, r);
  }

  /** Pixel k of the words sent, as they are packed: the earlier of two in the low half. */
  function Half(words: seq<U32>, k: nat): U16
    requires k / 2 < |words|
  {
    if k % 2 == 0 then words[k / 2] % 0x1_0000 else words[k / 2] / 0x1_0000
  }

  /** Pixel `j * w + i` of the words is in its place, for every row and column. */
  ghost predicate Shown(vram: Vram, x: nat, y: nat, w: nat, h: nat, words: seq<U32>)
    requires w > 0 && w * h <= 2 * |words|
  {
    forall i: nat, j: nat :: i < w && j < h ==> Sent(vram, x, y, w, h, words, i, j)
  }

  ghost predicate Sent(vram: Vram, x: nat, y: nat, w: nat, h: nat, words: seq<U32>, i: nat, j: nat)
    requires w > 0 && i < w && j < h && w * h <= 2 * |words|
  {
    j * w + i < w * h && vram[Place(x, y, i, j)] == Half(words, j * w + i)
  }

  /** Nothing outside the rectangle has changed. */
  ghost predicate OutsideStands(before: Vram, after: Vram, x: nat, y: nat, w: nat, h: nat) {
    forall place :: 0 <= place < 0x8_0000 && (forall i: nat, j: nat :: i < w && j < h ==> Place(x, y, i, j) != place) ==> after[place] == before[place]
  }

  /**
    A w by h rectangle at (x, y), with the mask setting clear: it takes exactly half its pixels in
    words, each pixel goes to its own row and column, nothing else in VRAM changes, no pixel is taken
    for a command, and asking for the rectangle gives the same pixels and leaves the port listening.
   */
  lemma RectangleRoundTrip(p: Port, vram: Vram, load: U32, store: U32, x: U16, y: U16, w: nat, h: nat, pixels: seq<U32>)
    requires Valid(p) && p.mode == Command && p.command == [] && p.mask % 4 == 0
    requires 0xA0 <= Opcode(load) < 0xC0 && 0xC0 <= Opcode(store) < 0xE0
    requires 1 <= w <= 1024 && 1 <= h <= 512 && |pixels| == (w * h + 1) / 2
    ensures var (q, after, handed) := Fed(p, vram, [load, Packed(x, y), Packed(w, h)] + pixels);
      var (r, same, _) := Fed(q, after, [store, Packed(x, y), Packed(w, h)]);
      var (back, last) := Reads(r, after, |pixels|);
      && Shown(after, x, y, w, h, pixels) && OutsideStands(vram, after, x, y, w, h)
      && q.mode == Command && q.command == [] && AllNothing(handed)
      && same == after && last.mode == Command
      && forall k: nat :: k < w * h ==> Half(back, k) == Half(pixels, k)
  {
    hide At, Fed, Reads, Uploaded, Downloaded, Opcode, Begun, Kept, Place, Packed, Shown, OutsideStands, AllNothing, Length;
    RectangleNamed(x, y, w, h);
    var corner, size := Packed(x, y), Packed(w, h);
    var t := Begun(corner, size);
    assert Count(t) == w * h && WordsFor(t) == |pixels|;
    PortRoundTrip(p, vram, load, store, corner, size, pixels);
    PortUploads(p, vram, load, corner, size, pixels);
    RectanglePlaced(vram, p.mask, x, y, w, h, pixels);
    var (q, after, handed) := Fed(p, vram, [load, corner, size] + pixels);
    var r := Fed(q, after, [store, corner, size]).0;
    SameHalves(Reads(r, after, |pixels|).0, pixels, w * h);
  }

  lemma SameHalves(back: seq<U32>, pixels: seq<U32>, n: nat)
    requires |back| == |pixels| && n <= 2 * |pixels|
    requires forall k: nat :: k < n ==> PixelOf(back, k) == PixelOf(pixels, k)
    ensures forall k: nat :: k < n ==> Half(back, k) == Half(pixels, k)
  {
    forall k: nat | k < n ensures Half(back, k) == Half(pixels, k) {
      assert PixelOf(back, k) == PixelOf(pixels, k);
    }
  }

  lemma RectanglePlaced(vram: Vram, mask: nat, x: U16, y: U16, w: nat, h: nat, pixels: seq<U32>)
    requires mask % 4 == 0 && 1 <= w <= 1024 && 1 <= h <= 512 && |pixels| == (w * h + 1) / 2
    ensures var after := Uploaded(vram, Begun(Packed(x, y), Packed(w, h)), mask, pixels).0;
      Shown(after, x, y, w, h, pixels) && OutsideStands(vram, after, x, y, w, h)
  {
    hide At, Uploaded, Begun, Place, Packed, Row, Column;
    RectangleNamed(x, y, w, h);
    var t := Begun(Packed(x, y), Packed(w, h));
    UploadPlaces(vram, t, mask, pixels);
    var after := Uploaded(vram, t, mask, pixels).0;
    forall i: nat, j: nat | i < w && j < h ensures Sent(after, x, y, w, h, pixels, i, j) {
      PlaceOf(t, i, j);
      WrapsIntoRange(x, y, i, j);
      ClearMaskKeeps(mask, vram[At(t, j * w + i)], PixelOf(pixels, j * w + i));
    }
    forall place | 0 <= place < 0x8_0000 && (forall i: nat, j: nat :: i < w && j < h ==> Place(x, y, i, j) != place)
      ensures after[place] == vram[place]
    {
      forall k: nat | k < Count(t) ensures At(t, k) != place {
        EveryPixel(t, k);
        PlaceOf(t, Column(t, k), Row(t, k));
        WrapsIntoRange(x, y, Column(t, k), Row(t, k));
      }
    }
  }

  /** One word short of half its pixels, or any number short, the port is still on the rectangle. */
  lemma RectangleNotSooner(p: Port, vram: Vram, command: U32, x: U16, y: U16, w: nat, h: nat, pixels: seq<U32>)
    requires Valid(p) && p.mode == Command && p.command == [] && 0xA0 <= Opcode(command) < 0xE0
    requires 1 <= w <= 1024 && 1 <= h <= 512 && |pixels| < (w * h + 1) / 2
    ensures Opcode(command) < 0xC0 ==> Fed(p, vram, [command, Packed(x, y), Packed(w, h)] + pixels).0.mode == ImageLoad
    ensures Opcode(command) >= 0xC0 ==>
              Reads(Fed(p, vram, [command, Packed(x, y), Packed(w, h)]).0, vram, |pixels|).1.mode == ImageStore
  {
    RectangleNamed(x, y, w, h);
    hide Begun, Packed, Fed, Reads, Opcode;
    NotSooner(p, vram, command, Packed(x, y), Packed(w, h), pixels);
  }

  /** The pixel the port sends or reads at a row and column is the one the drawing paints there. */
  lemma DrawnIsRead(t: Transfer, i: nat, j: nat)
    requires Sized(t) && i < t.width && j < t.height && t.x + i < 1024 && t.y + j < 512
    ensures j * t.width + i < Count(t) && At(t, j * t.width + i) == RasterDraw.At(t.x + i, t.y + j)
  {
    PlaceOf(t, i, j);
    PlaceInside(t.x, t.y, i, j);
    hide Count, At, Place, Sized;
  }

  lemma PlaceInside(x: nat, y: nat, i: nat, j: nat)
    requires x + i < 1024 && y + j < 512
    ensures Place(x, y, i, j) == RasterDraw.At(x + i, y + j)
  {
  }

  // ---- the mask setting ----

  /** Fifteen bits are the pixel's, or the protected one's that stands; the sixteenth is up if either was marked, or marking was asked for. */
  lemma KeptBits(mask: nat, was: U16, pixel: U16)
    ensures var kept, protected := Kept(mask, was, pixel), mask / 2 % 2 == 1 && was >= 0x8000;
      && kept % 0x8000 == (if protected then was else pixel) % 0x8000
      && (kept >= 0x8000 <==> protected || pixel >= 0x8000 || mask % 2 == 1)
  {
    if pixel < 0x8000 { UniqueRemainder(pixel + 0x8000, 0x8000, 1, pixel); }
  }

  /** GP0(E6h) sets it, from its two lowest bits, and so does nothing else: it holds through any other whole command. */
  lemma MaskTaken(p: Port, vram: Vram, words: seq<U32>)
    requires Valid(p) && p.mode == Command && p.command == [] && words != [] && |words| == Length(words[0])
    ensures Fed(p, vram, words).0.mask == if words[0] / 0x100_0000 == 0xE6 then words[0] % 4 else p.mask
  {
    WholeCommands(p, vram, words);
    hide Fed, Length, Begun;
  }

  // ---- the words every command takes ----

  predicate Takes(op: U8, n: nat) { Length(op * 0x100_0000) == n }

  /** A command's colour and coordinates never change how many words it takes. */
  lemma LengthByOpcode(command: U32)
    ensures Takes(command / 0x100_0000, Length(command))
  {
    UniqueRemainder(command / 0x100_0000 * 0x100_0000, 0x100_0000, command / 0x100_0000, 0);
    assert Opcode(command / 0x100_0000 * 0x100_0000) == Opcode(command);
  }

  /** Triangles and quads, flat or shaded, plain or textured: a word to a corner, and one more for a colour or a texture. */
  lemma PolygonLengths()
    ensures Takes(0x20, 4) && Takes(0x24, 7) && Takes(0x28, 5) && Takes(0x2C, 9)
    ensures Takes(0x30, 6) && Takes(0x34, 9) && Takes(0x38, 8) && Takes(0x3C, 12)
  {
  }

  /** The lengths of the other commands as software knows them. */
  lemma UsualLengths()
    ensures Takes(0x00, 1) && Takes(0x01, 1) && Takes(0x02, 3) && Takes(0x1F, 1)
    ensures Takes(0x40, 3) && Takes(0x48, 3) && Takes(0x50, 4) && Takes(0x58, 4)
    ensures Takes(0x60, 3) && Takes(0x64, 4) && Takes(0x68, 2) && Takes(0x70, 2) && Takes(0x74, 3) && Takes(0x78, 2)
    ensures Takes(0x80, 4) && Takes(0xA0, 3) && Takes(0xC0, 3) && Takes(0xE1, 1) && Takes(0xE6, 1) && Takes(0xFF, 1)
  {
  }

  // ---- a polyline ----

  /** Written as hex digits, the word that ends one is 5???5???, whatever the six others are. */
  lemma EndingWord(first: nat, high: nat, fifth: nat, low: nat)
    requires first < 0x10 && high < 0x1000 && fifth < 0x10 && low < 0x1000
    ensures EndsPolyline(first * 0x1000_0000 + high * 0x1_0000 + fifth * 0x1000 + low) <==> first == 5 && fifth == 5
  {
    var word := first * 0x1000_0000 + high * 0x1_0000 + fifth * 0x1000 + low;
    UniqueRemainder(word, 0x1000_0000, first, high * 0x1_0000 + fifth * 0x1000 + low);
    UniqueRemainder(word, 0x1000, first * 0x1_0000 + high * 0x10 + fifth, low);
    UniqueRemainder(first * 0x1_0000 + high * 0x10 + fifth, 0x10, first * 0x1000 + high, fifth);
  }

  /** Whatever its corners are, and however many, a polyline is handed on word by word until the word that ends it, which is not drawn. */
  lemma {:induction false} PolylineRuns(p: Port, vram: Vram, words: seq<U32>, end: U32)
    requires Valid(p) && p.mode == PolyLine && EndsPolyline(end)
    requires forall i :: 0 <= i < |words| ==> !EndsPolyline(words[i])
    ensures var (q, same, handed) := Fed(p, vram, words);
      && q == p && same == vram && forall i :: 0 <= i < |words| ==> handed[i] == More(words[i])
    ensures var (q, same, handed) := Fed(p, vram, words + [end]);
      && q == p.(mode := Command) && same == vram && handed[|words|] == Nothing
  {
    hide EndsPolyline;
    if words != [] {
      var n := |words| - 1;
      PolylineRuns(p, vram, words[..n], end);
    }
    assert (words + [end])[..|words|] == words;
  }
}
