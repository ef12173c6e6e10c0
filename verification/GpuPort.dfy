/** The GPU's command port: how words become commands, and rectangles of VRAM go in and come out through it. */
module GpuPort {
  import opened Words

  type Vram = s: seq<U16> | |s| == 0x8_0000 witness seq(0x8_0000, _ => 0)

  /** A rectangle of VRAM, and how many of its pixels have been through the port. */
  datatype Transfer = Transfer(x: nat, y: nat, width: nat, height: nat, done: nat)

  /** What a transfer's corner and size can be: the size is never zero and never more than VRAM. */
  predicate Sized(t: Transfer) { t.x < 1024 && t.y < 512 && 0 < t.width <= 1024 && 0 < t.height <= 512 }

  function Count(t: Transfer): nat { Times(t.width, t.height) }

  function Row(t: Transfer, k: nat): nat requires t.width > 0 { k / t.width }

  function Column(t: Transfer, k: nat): nat requires t.width > 0 { k % t.width }

  /** Where pixel `k` lives: past either edge it wraps round VRAM. */
  function At(t: Transfer, k: nat): (i: nat)
    requires t.width > 0
    ensures i < 0x8_0000
  {
    (t.y + Row(t, k)) % 512 * 1024 + (t.x + Column(t, k)) % 1024
  }

  /** The mask setting's two bits: 1 marks every pixel written, 2 protects the marked ones. */
  function Kept(mask: nat, was: U16, pixel: U16): U16 {
    if mask / 2 % 2 == 1 && was >= 0x8000 then was
    else if mask % 2 == 1 && pixel < 0x8000 then pixel + 0x8000
    else pixel
  }

  function Stored(vram: Vram, t: Transfer, mask: nat, pixel: U16): (next: (Vram, Transfer))
    requires Sized(t)
    ensures Sized(next.1) && next.1 == t.(done := next.1.done)
  {
    if t.done >= Count(t) then (vram, t)
    else (vram[At(t, t.done) := Kept(mask, vram[At(t, t.done)], pixel)], t.(done := t.done + 1))
  }

  function Low(word: U32): U16 { word % 0x1_0000 }

  function High(word: U32): U16 { word / 0x1_0000 }

  function StoredWord(vram: Vram, t: Transfer, mask: nat, word: U32): (next: (Vram, Transfer))
    requires Sized(t)
    ensures Sized(next.1) && next.1 == t.(done := next.1.done)
  {
    var (one, u) := Stored(vram, t, mask, Low(word));
    Stored(one, u, mask, High(word))
  }

  function Uploaded(vram: Vram, t: Transfer, mask: nat, words: seq<U32>): (next: (Vram, Transfer))
    requires Sized(t)
    ensures Sized(next.1) && next.1 == t.(done := next.1.done)
  {
    if words == [] then (vram, t)
    else
      var (before, u) := Uploaded(vram, t, mask, words[..|words| - 1]);
      StoredWord(before, u, mask, words[|words| - 1])
  }

  function Loaded(vram: Vram, t: Transfer): (next: (U16, Transfer))
    requires Sized(t)
    ensures Sized(next.1) && next.1 == t.(done := next.1.done)
  {
    if t.done >= Count(t) then (0, t) else (vram[At(t, t.done)], t.(done := t.done + 1))
  }

  function LoadedWord(vram: Vram, t: Transfer): (next: (U32, Transfer))
    requires Sized(t)
    ensures Sized(next.1) && next.1 == t.(done := next.1.done)
  {
    var (low, u) := Loaded(vram, t);
    var (high, v) := Loaded(vram, u);
    (Joined(low, high), v)
  }

  function Joined(low: U16, high: U16): U32 { Times(low, 1) + Times(high, 0x1_0000) }

  function Downloaded(vram: Vram, t: Transfer, n: nat): (next: (seq<U32>, Transfer))
    requires Sized(t)
    ensures |next.0| == n && Sized(next.1) && next.1 == t.(done := next.1.done)
  {
    if n == 0 then ([], t)
    else
      var (words, u) := Downloaded(vram, t, n - 1);
      var (word, v) := LoadedWord(vram, u);
      (words + [word], v)
  }

  // ---- every pixel has a place of its own ----

  lemma RowAndColumn(t: Transfer, k: nat)
    requires Sized(t) && k < Count(t)
    ensures k == Times(Row(t, k), t.width) + Column(t, k) && Row(t, k) < t.height && Column(t, k) < t.width
  {
    var q := k / t.width;
    if q >= t.height { MulMono(t.height, q, t.width); }
    assert t.height * t.width == t.width * t.height;
  }

  lemma WrapApart(start: nat, a: nat, b: nat, span: nat)
    requires span > 0 && a < span && b < span && (start + a) % span == (start + b) % span
    ensures a == b
  {
    var p, q := (start + a) / span, (start + b) / span;
    assert (start + a) - (start + b) == (p - q) * span;
    assert (q - p) * span == -((p - q) * span);
    if p > q { MulMono(1, p - q, span); }
    if p < q { MulMono(1, q - p, span); }
  }

  lemma SamePlace(row: nat, column: nat, row2: nat, column2: nat)
    requires column < 1024 && column2 < 1024 && row * 1024 + column == row2 * 1024 + column2
    ensures row == row2 && column == column2
  {
  }

  lemma WrappedApart(x: nat, y: nat, down: nat, along: nat, down2: nat, along2: nat)
    requires down < 512 && down2 < 512 && along < 1024 && along2 < 1024
    requires (y + down) % 512 * 1024 + (x + along) % 1024 == (y + down2) % 512 * 1024 + (x + along2) % 1024
    ensures down == down2 && along == along2
  {
    SamePlace((y + down) % 512, (x + along) % 1024, (y + down2) % 512, (x + along2) % 1024);
    WrapApart(y, down, down2, 512);
    WrapApart(x, along, along2, 1024);
  }

  /** A wrapping rectangle never meets itself. */
  lemma PlacesApart(t: Transfer, j: nat, k: nat)
    requires Sized(t) && j < Count(t) && k < Count(t) && At(t, j) == At(t, k)
    ensures j == k
  {
    hide Times, Count, Row, Column;
    RowAndColumn(t, j);
    RowAndColumn(t, k);
    WrappedApart(t.x, t.y, Row(t, j), Column(t, j), Row(t, k), Column(t, k));
  }

  // ---- going in ----

  /** Pixel k of a stream of words: even ones in low halves, odd ones in high. */
  function PixelOf(words: seq<U32>, k: nat): U16
    requires k / 2 < |words|
  {
    if k % 2 == 0 then Low(words[k / 2]) else High(words[k / 2])
  }

  /** The first `n` pixels are in their places, each as the mask setting has it, and nothing else has changed. */
  ghost predicate Placed(before: Vram, after: Vram, t: Transfer, mask: nat, words: seq<U32>, n: nat)
    requires Sized(t) && n <= 2 * |words|
  {
    && (forall k: nat :: k < n ==> after[At(t, k)] == Kept(mask, before[At(t, k)], PixelOf(words, k)))
    && (forall i :: 0 <= i < 0x8_0000 && (forall k: nat :: k < n ==> At(t, k) != i) ==> after[i] == before[i])
  }

  lemma {:induction false} UploadPlaces(vram: Vram, t: Transfer, mask: nat, words: seq<U32>)
    requires Sized(t) && t.done == 0
    ensures var (after, u) := Uploaded(vram, t, mask, words);
      && u.done == Min(2 * |words|, Count(t))
      && Placed(vram, after, t, mask, words, u.done)
  {
    var n := |words|;
    if n > 0 {
      var fewer := words[..n - 1];
      UploadPlaces(vram, t, mask, fewer);
      var (before, u) := Uploaded(vram, t, mask, fewer);
      SamePlaced(vram, before, t, mask, fewer, words, u.done);
      PairPlaces(vram, before, t, u, mask, words);
    }
  }

  lemma SamePlaced(before: Vram, after: Vram, t: Transfer, mask: nat, words: seq<U32>, more: seq<U32>, n: nat)
    requires Sized(t) && words <= more && n <= 2 * |words| && Placed(before, after, t, mask, words, n)
    ensures Placed(before, after, t, mask, more, n)
  {
    hide At, Kept, Count;
    forall k: nat | k < n ensures PixelOf(more, k) == PixelOf(words, k) {
      assert more[..|words|] == words;
    }
  }

  /** One more word, with the pixels of the ones before it placed. */
  lemma PairPlaces(vram: Vram, before: Vram, t: Transfer, u: Transfer, mask: nat, words: seq<U32>)
    requires Sized(t) && u == t.(done := u.done) && words != []
    requires u.done == Min(2 * |words| - 2, Count(t)) && Placed(vram, before, t, mask, words, u.done)
    ensures var (after, v) := StoredWord(before, u, mask, words[|words| - 1]);
      v.done == Min(2 * |words|, Count(t)) && Placed(vram, after, t, mask, words, v.done)
  {
    if u.done < Count(t) {
      var last := words[|words| - 1];
      assert PixelOf(words, u.done) == Low(last) && PixelOf(words, u.done + 1) == High(last);
      var (one, v) := Stored(before, u, mask, Low(last));
      SameRectangle(t, u);
      SameRectangle(t, v);
      hide At, Kept, PixelOf, Low, High, Count;
      PlacedOn(vram, before, t, u, mask, words);
      PlacedOn(vram, one, t, v, mask, words);
    }
  }

  lemma SameRectangle(t: Transfer, u: Transfer)
    requires Sized(t) && u == t.(done := u.done)
    ensures Count(u) == Count(t) && forall k: nat :: At(u, k) == At(t, k)
  {
  }

  lemma PlacedOn(vram: Vram, before: Vram, t: Transfer, u: Transfer, mask: nat, words: seq<U32>)
    requires Sized(t) && u == t.(done := u.done) && u.done < 2 * |words| && u.done <= Count(t)
    requires Placed(vram, before, t, mask, words, u.done)
    ensures var (after, v) := Stored(before, u, mask, PixelOf(words, u.done));
      && v.done == Min(u.done + 1, Count(t)) && v == t.(done := v.done)
      && Placed(vram, after, t, mask, words, v.done)
  {
    SameRectangle(t, u);
    hide Kept, PixelOf;
    var pixel := PixelOf(words, u.done);
    if u.done < Count(t) {
      assert Stored(before, u, mask, pixel).0 == before[At(t, u.done) := Kept(mask, before[At(t, u.done)], pixel)];
      Fresh(vram, before, t, mask, words, u.done);
    }
  }

  lemma Fresh(vram: Vram, before: Vram, t: Transfer, mask: nat, words: seq<U32>, n: nat)
    requires Sized(t) && n < 2 * |words| && n < Count(t) && Placed(vram, before, t, mask, words, n)
    ensures Placed(vram, before[At(t, n) := Kept(mask, before[At(t, n)], PixelOf(words, n))], t, mask, words, n + 1)
  {
    forall k: nat | k < n ensures At(t, k) != At(t, n) {
      if At(t, k) == At(t, n) { PlacesApart(t, k, n); }
    }
    hide Count, At, PixelOf, Kept;
    var next := before[At(t, n) := Kept(mask, before[At(t, n)], PixelOf(words, n))];
    assert before[At(t, n)] == vram[At(t, n)];
    forall i | 0 <= i < 0x8_0000 && (forall k: nat :: k < n + 1 ==> At(t, k) != i) ensures next[i] == vram[i] {
      assert At(t, n) != i;
    }
  }

  // ---- coming back out ----

  /** The pixel read `k`th, or the zero that fills the last word. */
  function Held(vram: Vram, t: Transfer, k: nat): U16
    requires Sized(t)
  {
    if k < Count(t) then vram[At(t, k)] else 0
  }

  ghost predicate Shows(vram: Vram, t: Transfer, words: seq<U32>)
    requires Sized(t)
  {
    forall k: nat :: k < 2 * |words| ==> PixelOf(words, k) == Held(vram, t, k)
  }

  lemma ShowsMore(vram: Vram, t: Transfer, fewer: seq<U32>, word: U32)
    requires Sized(t) && Shows(vram, t, fewer)
    requires Low(word) == Held(vram, t, 2 * |fewer|) && High(word) == Held(vram, t, 2 * |fewer| + 1)
    ensures Shows(vram, t, fewer + [word])
  {
    hide Held, Low, High, PixelOf;
    forall k: nat | k < 2 * |fewer| + 2 ensures PixelOf(fewer + [word], k) == Held(vram, t, k) {
      PixelsMore(fewer, word, k);
    }
  }

  lemma {:induction false} DownloadReads(vram: Vram, t: Transfer, n: nat)
    requires Sized(t) && t.done == 0
    ensures var (words, u) := Downloaded(vram, t, n);
      u.done == Min(2 * n, Count(t)) && Shows(vram, t, words)
  {
    hide At, Count, LoadedWord, PixelOf, Low, High;
    if n > 0 {
      DownloadReads(vram, t, n - 1);
      var (fewer, u) := Downloaded(vram, t, n - 1);
      var (word, v) := LoadedWord(vram, u);
      LoadedHalves(vram, t, u);
      hide Shows, Downloaded;
      ShowsMore(vram, t, fewer, word);
    }
  }

  lemma PixelsMore(fewer: seq<U32>, word: U32, k: nat)
    requires k < 2 * |fewer| + 2
    ensures PixelOf(fewer + [word], k) ==
            if k < 2 * |fewer| then PixelOf(fewer, k) else if k == 2 * |fewer| then Low(word) else High(word)
  {
    hide Low, High;
  }

  lemma LoadedHalves(vram: Vram, t: Transfer, u: Transfer)
    requires Sized(t) && u == t.(done := u.done) && u.done <= Count(t)
    ensures var (word, v) := LoadedWord(vram, u);
      && v.done == Min(u.done + 2, Count(t))
      && Low(word) == (if u.done < Count(t) then vram[At(t, u.done)] else 0)
      && High(word) == (if u.done + 1 < Count(t) then vram[At(t, u.done + 1)] else 0)
  {
    SameRectangle(t, u);
    var (low, one) := Loaded(vram, u);
    SameRectangle(t, one);
    var (high, two) := Loaded(vram, one);
    hide At, Count;
    Halves(low, high);
  }

  lemma Halves(low: U16, high: U16)
    ensures Low(Joined(low, high)) == low && High(Joined(low, high)) == high
  {
  }

  /** Words for a rectangle of this size: an odd last pixel still takes a whole one. */
  function WordsFor(t: Transfer): nat { (Count(t) + 1) / 2 }

  /**
    What comes back out of a rectangle is exactly what the mask setting let in,
    pixel for pixel, with the spare half of an odd last word read as zero.
   */
  lemma ReadsBackWhatWentIn(vram: Vram, t: Transfer, mask: nat, words: seq<U32>)
    requires Sized(t) && t.done == 0 && |words| == WordsFor(t)
    ensures var (after, u) := Uploaded(vram, t, mask, words);
      var (back, v) := Downloaded(after, t, WordsFor(t));
      && u.done == v.done == Count(t)
      && (forall k: nat :: k < Count(t) ==> PixelOf(back, k) == Kept(mask, vram[At(t, k)], PixelOf(words, k)))
      && (forall k: nat :: Count(t) <= k < 2 * |back| ==> PixelOf(back, k) == 0)
      && (forall i :: 0 <= i < 0x8_0000 && (forall k: nat :: k < Count(t) ==> At(t, k) != i) ==> after[i] == vram[i])
  {
    UploadPlaces(vram, t, mask, words);
    DownloadReads(Uploaded(vram, t, mask, words).0, t, WordsFor(t));
    hide At, Kept, PixelOf, Uploaded, Downloaded, Count;
  }

  /** So a rectangle survives the round trip exactly when no pixel was protected from a different one, and none was marked. */
  lemma RoundTripExactly(vram: Vram, t: Transfer, mask: nat, words: seq<U32>)
    requires Sized(t) && t.done == 0 && |words| == WordsFor(t)
    ensures var back := Downloaded(Uploaded(vram, t, mask, words).0, t, WordsFor(t)).0;
      (forall k: nat :: k < Count(t) ==> PixelOf(back, k) == PixelOf(words, k)) <==>
      (forall k: nat :: k < Count(t) ==>
         if mask / 2 % 2 == 1 && vram[At(t, k)] >= 0x8000 then vram[At(t, k)] == PixelOf(words, k)
         else mask % 2 == 1 ==> PixelOf(words, k) >= 0x8000)
  {
    ReadsBackWhatWentIn(vram, t, mask, words);
    var back := Downloaded(Uploaded(vram, t, mask, words).0, t, WordsFor(t)).0;
    hide At, PixelOf, Uploaded, Downloaded, Count;
    assert forall k: nat :: k < Count(t) ==> PixelOf(back, k) == Kept(mask, vram[At(t, k)], PixelOf(words, k));
  }

  // ---- the port ----

  datatype Mode = Command | ImageLoad | ImageStore | PolyLine

  datatype Port = Port(mode: Mode, transfer: Transfer, mask: nat, latch: U32, command: seq<U32>)

  /** What a word lets the rest of the GPU do: run a whole command, or take a polyline's next word. */
  datatype Handed = Nothing | Whole(words: seq<U32>) | More(word: U32)

  function Opcode(command: U32): U8 { command / 0x100_0000 }

  /** How many words a command takes, from its first. */
  function Length(command: U32): (n: nat)
    ensures 1 <= n <= 12
  {
    var op := Opcode(command);
    match op / 0x20
    case 0 => if op == 0x02 then 3 else 1
    case 1 =>
      var vertices := if HasBit(op, 8) then 4 else 3;
      1 + vertices * (if HasBit(op, 4) then 2 else 1) + (if HasBit(op, 0x10) then vertices - 1 else 0)
    case 2 => if HasBit(op, 0x10) then 4 else 3
    case 3 => 2 + (if op / 8 % 4 == 0 then 1 else 0) + (if HasBit(op, 4) then 1 else 0)
    case 4 => 4
    case 5 => 3
    case 6 => 3
    case _ => 1
  }

  /** A size of zero means the whole of VRAM that way. */
  function Extent(value: nat, limit: nat): nat
    requires limit > 0
  {
    (value + limit - 1) % limit + 1
  }

  function Begun(corner: U32, size: U32): (t: Transfer)
    ensures Sized(t) && t.done == 0
  {
    Transfer(Times(corner, 1) % 1024, High(corner) % 512, Extent(Low(size), 1024), Extent(High(size), 512), 0)
  }

  /** Between words: a rectangle under way has pixels left, and a command being collected has words left. */
  predicate Valid(p: Port) {
    && (p.mode == ImageLoad || p.mode == ImageStore ==> Sized(p.transfer) && p.transfer.done < Count(p.transfer))
    && (p.command != [] ==> |p.command| < Length(p.command[0]))
  }

  lemma Worth(t: Transfer)
    requires Sized(t)
    ensures Count(t) >= 1
  {
    MulMono(1, t.width, t.height);
  }

  function Executed(p: Port, words: seq<U32>): (next: (Port, Handed))
    requires words != [] && |words| == Length(words[0]) && Valid(p.(command := []))
    ensures Valid(next.0)
  {
    var op, idle := Opcode(words[0]), p.(command := []);
    if op == 0xE6 then (idle.(mask := Times(words[0], 1) % 4), Nothing)
    else if 0xA0 <= op < 0xE0 then
      var t := Begun(words[1], words[2]);
      Worth(t);
      (idle.(transfer := t, mode := if op < 0xC0 then ImageLoad else ImageStore), Nothing)
    else if 0x40 <= op < 0x60 && HasBit(op, 8) then (idle.(mode := PolyLine), Whole(words))
    else (idle, Whole(words))
  }

  /** A polyline runs until a word whose top hex digit, and the top one of its low half, are both 5. */
  predicate EndsPolyline(word: U32) { word / 0x1000_0000 == 5 && word / 0x1000 % 0x10 == 5 }

  function Written(p: Port, vram: Vram, word: U32): (next: (Port, Vram, Handed))
    requires Valid(p)
    ensures Valid(next.0)
  {
    match p.mode
    case ImageLoad =>
      var (after, t) := StoredWord(vram, p.transfer, p.mask, word);
      (p.(transfer := t, mode := if t.done >= Count(t) then Command else ImageLoad), after, Nothing)
    case PolyLine =>
      if EndsPolyline(word) then (p.(mode := Command), vram, Nothing) else (p, vram, More(word))
    case _ =>
      var words := p.command + [word];
      if |words| < Length(words[0]) then (p.(command := words), vram, Nothing)
      else
        var (next, handed) := Executed(p, words);
        (next, vram, handed)
  }

  function Read(p: Port, vram: Vram): (next: (U32, Port))
    requires Valid(p)
    ensures Valid(next.1)
  {
    if p.mode != ImageStore then (p.latch, p)
    else
      var (word, t) := LoadedWord(vram, p.transfer);
      (word, p.(transfer := t, mode := if t.done >= Count(t) then Command else ImageStore))
  }

  function Fed(p: Port, vram: Vram, words: seq<U32>): (next: (Port, Vram, seq<Handed>))
    requires Valid(p)
    ensures Valid(next.0) && |next.2| == |words|
  {
    if words == [] then (p, vram, [])
    else
      var (q, before, handed) := Fed(p, vram, words[..|words| - 1]);
      var (next, after, last) := Written(q, before, words[|words| - 1]);
      (next, after, handed + [last])
  }

  function Reads(p: Port, vram: Vram, n: nat): (next: (seq<U32>, Port))
    requires Valid(p)
    ensures Valid(next.1) && |next.0| == n
  {
    if n == 0 then ([], p)
    else
      var (words, q) := Reads(p, vram, n - 1);
      var (word, next) := Read(q, vram);
      (words + [word], next)
  }

  // ---- commands are told apart by their first word alone ----

  /** A command is collected in silence until its last word arrives, and only then carried out. */
  lemma {:induction false} WholeCommands(p: Port, vram: Vram, words: seq<U32>)
    requires Valid(p) && (p.mode == Command || p.mode == ImageStore) && p.command == []
    requires words != [] && |words| <= Length(words[0])
    ensures var (next, after, handed) := Fed(p, vram, words);
      && after == vram
      && (forall i :: 0 <= i < |words| - 1 ==> handed[i] == Nothing)
      && if |words| < Length(words[0]) then next == p.(command := words) && handed[|words| - 1] == Nothing
         else (next, handed[|words| - 1]) == Executed(p, words)
  {
    var n := |words|;
    hide Length, Executed, Written;
    var fewer := words[..n - 1];
    if n > 1 { WholeCommands(p, vram, fewer); } else { assert fewer == [] && p.(command := fewer) == p; }
    LastWord(p, vram, words);
  }

  lemma LastWord(p: Port, vram: Vram, words: seq<U32>)
    requires Valid(p) && (p.mode == Command || p.mode == ImageStore) && p.command == []
    requires words != [] && |words| <= Length(words[0])
    ensures var collecting := p.(command := words[..|words| - 1]);
      && Valid(collecting)
      && Written(collecting, vram, words[|words| - 1]) ==
         if |words| < Length(words[0]) then (p.(command := words), vram, Nothing)
         else (Executed(p, words).0, vram, Executed(p, words).1)
  {
    var n := |words|;
    var collecting := p.(command := words[..n - 1]);
    hide Length, Executed;
    assert collecting.command + [words[n - 1]] == words;
    assert collecting.(command := []) == p;
    if n == Length(words[0]) { ExecutedAfresh(collecting, p, words); }
  }

  lemma ExecutedAfresh(p: Port, q: Port, words: seq<U32>)
    requires words != [] && |words| == Length(words[0]) && q == p.(command := []) && Valid(q)
    ensures Executed(p, words) == Executed(q, words)
  {
  }

  /** The words a polygon's corners are read from, walked as drawing it walks them. */
  function Walked(op: U8, corners: nat): nat {
    if corners == 0 then 1
    else
      Walked(op, corners - 1) + (if HasBit(op, 0x10) && corners > 1 then 1 else 0) + 1 + (if HasBit(op, 4) then 1 else 0)
  }

  /** Drawing reads the whole of its command and nothing past it. */
  lemma DrawingReadsItsCommand(command: U32)
    ensures var op, n := Opcode(command), Length(command);
      && (0x20 <= op < 0x40 ==> Walked(op, if HasBit(op, 8) then 4 else 3) == n)
      && (0x40 <= op < 0x60 ==> (if HasBit(op, 0x10) then 3 else 2) == n - 1)
      && (0x60 <= op < 0x80 ==> 2 + (if HasBit(op, 4) then 1 else 0) + (if op / 8 % 4 == 0 then 1 else 0) == n)
  {
    var op := Opcode(command);
    if 0x20 <= op < 0x40 {
      var more := (if HasBit(op, 0x10) then 1 else 0) + 1 + (if HasBit(op, 4) then 1 else 0);
      assert Walked(op, 0) == 1;
      assert Walked(op, 1) == 2 + (if HasBit(op, 4) then 1 else 0);
      assert Walked(op, 2) == Walked(op, 1) + more;
      assert Walked(op, 3) == Walked(op, 2) + more;
      assert Walked(op, 4) == Walked(op, 3) + more;
    }
  }

  // ---- a rectangle through the port ----

  predicate AllNothing(handed: seq<Handed>) { forall i :: 0 <= i < |handed| ==> handed[i] == Nothing }

  /** While pixels arrive the port takes nothing for a command, and it listens for one again after exactly the words the rectangle needs. */
  lemma {:induction false} RectangleFed(p: Port, vram: Vram, words: seq<U32>)
    requires Valid(p) && p.mode == ImageLoad && p.transfer.done == 0 && |words| <= WordsFor(p.transfer)
    ensures var (next, after, handed) := Fed(p, vram, words);
      var (pixels, u) := Uploaded(vram, p.transfer, p.mask, words);
      && after == pixels && AllNothing(handed)
      && next == p.(transfer := u, mode := if |words| == WordsFor(p.transfer) then Command else ImageLoad)
  {
    hide StoredWord, Count;
    Worth(p.transfer);
    if words != [] {
      var fewer := words[..|words| - 1];
      RectangleFed(p, vram, fewer);
      UploadPlaces(vram, p.transfer, p.mask, words);
      SameRectangle(p.transfer, Uploaded(vram, p.transfer, p.mask, words).1);
      hide Placed;
    }
  }

  lemma {:induction false} RectangleRead(p: Port, vram: Vram, n: nat)
    requires Valid(p) && p.mode == ImageStore && p.transfer.done == 0 && n <= WordsFor(p.transfer)
    ensures var (words, next) := Reads(p, vram, n);
      var (back, u) := Downloaded(vram, p.transfer, n);
      && words == back
      && next == p.(transfer := u, mode := if n == WordsFor(p.transfer) then Command else ImageStore)
  {
    hide LoadedWord, Count;
    Worth(p.transfer);
    if n > 0 {
      RectangleRead(p, vram, n - 1);
      DownloadReads(vram, p.transfer, n);
      SameRectangle(p.transfer, Downloaded(vram, p.transfer, n).1);
      hide Shows;
    }
  }

  lemma {:induction false} FedSplits(p: Port, vram: Vram, words: seq<U32>, more: seq<U32>)
    requires Valid(p)
    ensures var (q, between, handed) := Fed(p, vram, words);
      var (next, after, rest) := Fed(q, between, more);
      Fed(p, vram, words + more) == (next, after, handed + rest)
  {
    hide Written;
    if more == [] {
      var (q, between, handed) := Fed(p, vram, words);
      assert words + more == words && Fed(q, between, more).2 == [] && handed + [] == handed;
    } else {
      var n := |more| - 1;
      FedSplits(p, vram, words, more[..n]);
      assert (words + more)[..|words| + n] == words + more[..n];
      var (q, between, handed) := Fed(p, vram, words);
      var rest, last := Fed(q, between, more).2, Fed(q, between, more).2[n];
      assert handed + rest == handed + rest[..n] + [last];
    }
  }

  lemma TransferBegins(p: Port, vram: Vram, command: U32, corner: U32, size: U32)
    requires Valid(p) && p.mode == Command && p.command == [] && 0xA0 <= Opcode(command) < 0xE0
    ensures Fed(p, vram, [command, corner, size]) ==
      (p.(transfer := Begun(corner, size), mode := if Opcode(command) < 0xC0 then ImageLoad else ImageStore), vram, [Nothing, Nothing, Nothing])
  {
    var words := [command, corner, size];
    WholeCommands(p, vram, words);
    var (next, after, handed) := Fed(p, vram, words);
    hide Fed, Begun, Opcode;
    assert Length(command) == 3;
    assert p.(command := []) == p;
    assert handed == [Nothing, Nothing, Nothing];
  }

  /**
    With the mask setting clear, a rectangle of any size anywhere in VRAM sent
    with GP0(A0h) and asked for with GP0(C0h) comes back pixel for pixel. Nothing
    outside it changes, no pixel is taken for a command, and each way the port is
    back to commands after exactly the words the rectangle needs.
   */
  lemma PortRoundTrip(p: Port, vram: Vram, load: U32, store: U32, corner: U32, size: U32, pixels: seq<U32>)
    requires Valid(p) && p.mode == Command && p.command == [] && p.mask % 4 == 0
    requires 0xA0 <= Opcode(load) < 0xC0 && 0xC0 <= Opcode(store) < 0xE0
    requires |pixels| == WordsFor(Begun(corner, size))
    ensures var t := Begun(corner, size);
      var (q, after, handed) := Fed(p, vram, [load, corner, size] + pixels);
      var (r, same, _) := Fed(q, after, [store, corner, size]);
      var (back, last) := Reads(r, after, |pixels|);
      && q.mode == Command && q.command == [] && AllNothing(handed)
      && r.mode == ImageStore && same == after && last.mode == Command
      && (forall k: nat :: k < Count(t) ==> PixelOf(back, k) == PixelOf(pixels, k))
      && (forall i :: 0 <= i < 0x8_0000 && (forall k: nat :: k < Count(t) ==> At(t, k) != i) ==> after[i] == vram[i])
  {
    hide At, Count, PixelOf, Fed, Reads, Uploaded, Downloaded, Opcode, Begun, Kept;
    var t := Begun(corner, size);
    PortUploads(p, vram, load, corner, size, pixels);
    var (q, after, handed) := Fed(p, vram, [load, corner, size] + pixels);
    PortDownloads(q, after, store, corner, size, |pixels|);
    ReadsBackWhatWentIn(vram, t, p.mask, pixels);
    var back := Downloaded(after, t, |pixels|).0;
    forall k: nat | k < Count(t) ensures PixelOf(back, k) == PixelOf(pixels, k) {
      assert PixelOf(back, k) == Kept(p.mask, vram[At(t, k)], PixelOf(pixels, k));
      ClearMaskKeeps(p.mask, vram[At(t, k)], PixelOf(pixels, k));
    }
  }

  lemma ClearMaskKeeps(mask: nat, was: U16, pixel: U16)
    requires mask % 4 == 0
    ensures Kept(mask, was, pixel) == pixel
  {
  }

  lemma PortUploads(p: Port, vram: Vram, command: U32, corner: U32, size: U32, pixels: seq<U32>)
    requires Valid(p) && p.mode == Command && p.command == [] && 0xA0 <= Opcode(command) < 0xC0
    requires |pixels| == WordsFor(Begun(corner, size))
    ensures var (q, after, handed) := Fed(p, vram, [command, corner, size] + pixels);
      && after == Uploaded(vram, Begun(corner, size), p.mask, pixels).0
      && q.mode == Command && q.command == [] && q.mask == p.mask && AllNothing(handed)
  {
    hide Count, Fed, Uploaded, Opcode, Begun;
    var t := Begun(corner, size);
    assert Count(t) >= 1 by { Worth(t); }
    TransferBegins(p, vram, command, corner, size);
    FedSplits(p, vram, [command, corner, size], pixels);
    RectangleFed(p.(transfer := t, mode := ImageLoad), vram, pixels);
  }

  lemma PortDownloads(p: Port, vram: Vram, command: U32, corner: U32, size: U32, n: nat)
    requires Valid(p) && p.mode == Command && p.command == [] && 0xC0 <= Opcode(command) < 0xE0
    requires n == WordsFor(Begun(corner, size))
    ensures var (r, same, _) := Fed(p, vram, [command, corner, size]);
      var (back, last) := Reads(r, vram, n);
      && r.mode == ImageStore && same == vram && last.mode == Command
      && back == Downloaded(vram, Begun(corner, size), n).0
  {
    hide Count, Fed, Reads, Downloaded, Opcode, Begun;
    var t := Begun(corner, size);
    assert Count(t) >= 1 by { Worth(t); }
    TransferBegins(p, vram, command, corner, size);
    RectangleRead(p.(transfer := t, mode := ImageStore), vram, n);
  }

  /** Short of that many words, by one or by all of them, the port is still loading or still handing out. */
  lemma NotSooner(p: Port, vram: Vram, command: U32, corner: U32, size: U32, pixels: seq<U32>)
    requires Valid(p) && p.mode == Command && p.command == [] && 0xA0 <= Opcode(command) < 0xE0
    requires |pixels| < WordsFor(Begun(corner, size))
    ensures Opcode(command) < 0xC0 ==> Fed(p, vram, [command, corner, size] + pixels).0.mode == ImageLoad
    ensures Opcode(command) >= 0xC0 ==>
              Reads(Fed(p, vram, [command, corner, size]).0, vram, |pixels|).1.mode == ImageStore
  {
    var t := Begun(corner, size);
    TransferBegins(p, vram, command, corner, size);
    assert Count(t) >= 1 by { Worth(t); }
    hide Count, Fed, Reads, Uploaded, Downloaded, Opcode, Begun;
    if Opcode(command) < 0xC0 {
      FedSplits(p, vram, [command, corner, size], pixels);
      RectangleFed(p.(transfer := t, mode := ImageLoad), vram, pixels);
    } else {
      RectangleRead(p.(transfer := t, mode := ImageStore), vram, |pixels|);
    }
  }
}
