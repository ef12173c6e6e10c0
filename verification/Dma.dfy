/** The DMA controller: bursts, blocks, chop windows and lists, one turn at a time. */
module Dma {
  import opened Words
  import opened Ram

  const OTC := 6

  datatype SyncMode = Manual | Request | LinkedList

  /** A CHCR word, and the fields that are read out of it. */
  function ModeOf(control: U32): SyncMode {
    match control / 0x200 % 4 case 0 => Manual case 1 => Request case _ => LinkedList
  }

  predicate ToDevice(control: U32) { control % 2 == 1 }

  predicate Decreasing(control: U32) { control / 2 % 2 == 1 }

  predicate Chopping(control: U32) { control / 0x100 % 2 == 1 }

  predicate Enabled(control: U32) { control / 0x100_0000 % 2 == 1 }

  predicate Triggered(control: U32) { control / 0x1000_0000 % 2 == 1 }

  function ChopWords(control: U32): (n: nat)
    ensures n >= 1
  {
    PowerOfTwo(control / 0x1_0000 % 8)
  }

  function ChopCpuCycles(control: U32): nat { PowerOfTwo(control / 0x10_0000 % 8) }

  /** The enable and the trigger put down, every other bit kept. */
  function Finished(control: U32): U32 {
    control - (if Enabled(control) then 0x100_0000 else 0) - (if Triggered(control) then 0x1000_0000 else 0)
  }

  /** BCR's low half, a count of zero meaning the most it can ask for. */
  function SizeOf(block: U32): (n: nat)
    ensures 1 <= n <= 0x1_0000
  {
    if block % 0x1_0000 == 0 then 0x1_0000 else block % 0x1_0000
  }

  function CountOf(block: U32): nat { block / 0x1_0000 }

  datatype Channel = Channel(base: U32, block: U32, control: U32, running: bool, remaining: nat)

  /**
    A device seen from its channel: an endless supply of words, a count of those used up, and the log of
    what it was sent. Nothing but the transfer moves it.
   */
  datatype Device = Device(source: nat -> U32, taken: nat, sent: seq<U32>)

  // ---- moving words ----

  /** RAM, the walking address and the device, part of the way through a transfer. */
  datatype Transfer = Transfer(ram: Image, address: U32, device: Device)

  function Stepped(control: U32, address: U32): (at: U32)
    ensures Aligned(at)
  {
    Masked(if Decreasing(control) then address - 4 else address + 4)
  }

  /** The word the channel puts in RAM: the device's next, or on channel 6 the entry before this one. */
  function Offered(channel: nat, t: Transfer, remaining: nat): U32 {
    if channel == OTC then (if remaining == 1 then 0xFF_FFFF else Masked(t.address - 4))
    else t.device.source(t.device.taken)
  }

  function MoveOne(channel: nat, control: U32, t: Transfer, remaining: nat): Transfer
    requires Aligned(t.address)
  {
    var next := Stepped(control, t.address);
    if ToDevice(control) then
      t.(address := next, device := t.device.(sent := t.device.sent + [ReadWord(t.ram, t.address)]))
    else
      Transfer(WriteWord(t.ram, t.address, Offered(channel, t, remaining)), next,
               if channel == OTC then t.device else t.device.(taken := t.device.taken + 1))
  }

  function Moved(channel: nat, control: U32, t: Transfer, words: nat): (after: Transfer)
    requires Aligned(t.address)
    ensures Aligned(after.address)
    decreases words
  {
    if words == 0 then t else Moved(channel, control, MoveOne(channel, control, t, words), words - 1)
  }

  /** The address of word k of a run, wrapping round RAM in either direction. */
  function AddressOf(control: U32, start: U32, k: int): (at: U32)
    ensures Aligned(at)
  {
    Masked(if Decreasing(control) then start - 4 * k else start + 4 * k)
  }

  lemma AddressSteps(control: U32, start: U32, k: int)
    requires Aligned(start)
    ensures AddressOf(control, start, 0) == start
    ensures Stepped(control, AddressOf(control, start, k)) == AddressOf(control, start, k + 1)
    ensures AddressOf(control, Stepped(control, start), k) == AddressOf(control, start, k + 1)
  {
    hide Masked;
    var way := if Decreasing(control) then -1 else 1;
    AlignedKept(start);
    MaskedAdd(start + 4 * (way * k), way);
    MaskedAdd(start + 4 * way, way * k);
  }

  lemma AlignedKept(start: int)
    requires Aligned(start)
    ensures Masked(start) == start
  {
  }

  /** Within one lap of RAM no two words of a run share an address. */
  lemma AddressesDistinct(control: U32, start: U32, j: int, k: int)
    requires Aligned(start) && 0 <= j < k < j + 0x8_0000
    ensures AddressOf(control, start, j) != AddressOf(control, start, k)
  {
    var s := start / 4;
    assert (start - 4 * j) / 4 == s - j && (start - 4 * k) / 4 == s - k;
    assert (start + 4 * j) / 4 == s + j && (start + 4 * k) / 4 == s + k;
  }

  /** After any number of words MADR has moved by four bytes each, modulo two megabytes. */
  lemma {:induction false} MovedAddress(channel: nat, control: U32, t: Transfer, words: nat)
    requires Aligned(t.address)
    ensures Moved(channel, control, t, words).address == AddressOf(control, t.address, words)
    decreases words
  {
    AddressSteps(control, t.address, words - 1);
    if words > 0 {
      MovedAddress(channel, control, MoveOne(channel, control, t, words), words - 1);
    }
  }

  /** A transfer with a device behind it can be cut anywhere. */
  lemma {:induction false} MovedSplits(channel: nat, control: U32, t: Transfer, m: nat, n: nat)
    requires Aligned(t.address) && (channel != OTC || ToDevice(control))
    ensures Moved(channel, control, Moved(channel, control, t, m), n) == Moved(channel, control, t, m + n)
    decreases m
  {
    hide MoveOne;
    if m > 0 {
      OneMove(channel, control, t, m, m + n);
      MovedSplits(channel, control, MoveOne(channel, control, t, m), m - 1, n);
    }
  }

  /** Only channel 6 looks at how many words are still to come. */
  lemma OneMove(channel: nat, control: U32, t: Transfer, m: nat, n: nat)
    requires Aligned(t.address) && (channel != OTC || ToDevice(control))
    ensures MoveOne(channel, control, t, m) == MoveOne(channel, control, t, n)
    ensures Aligned(MoveOne(channel, control, t, m).address)
  {
    hide Stepped, ReadWord, WriteWord;
  }

  /** What a run to the device sends: RAM's words at the run's addresses, in order, with RAM unchanged. */
  lemma {:induction false} SentInOrder(channel: nat, control: U32, t: Transfer, words: nat)
    requires Aligned(t.address) && ToDevice(control)
    ensures var after := Moved(channel, control, t, words);
            && after.ram == t.ram && after.device.taken == t.device.taken && after.device.source == t.device.source
            && after.device.sent == t.device.sent + seq(words, k requires 0 <= k < words => ReadWord(t.ram, AddressOf(control, t.address, k)))
    decreases words
  {
    hide Stepped, Masked, AddressOf, ReadWord, WriteWord, Offered;
    if words > 0 {
      var next := MoveOne(channel, control, t, words);
      SentInOrder(channel, control, next, words - 1);
      var tail := seq(words - 1, k requires 0 <= k < words - 1 => ReadWord(t.ram, AddressOf(control, next.address, k)));
      var whole := seq(words, k requires 0 <= k < words => ReadWord(t.ram, AddressOf(control, t.address, k)));
      forall k | 0 <= k < words
        ensures whole[k] == ([ReadWord(t.ram, t.address)] + tail)[k]
      {
        AddressSteps(control, t.address, k - 1);
      }
      assert whole == [ReadWord(t.ram, t.address)] + tail;
    }
  }

  /**
    Word k of a run into RAM: the device's next but k, or on channel 6 the address of the entry
    before it, and the end marker in the last.
   */
  function Given(channel: nat, control: U32, t: Transfer, words: nat, k: nat): U32
    requires k < words
  {
    if channel != OTC then t.device.source(t.device.taken + k)
    else if k == words - 1 then 0xFF_FFFF
    else AddressOf(control, t.address, k + 1)
  }

  /** What a run into RAM leaves there: each word at its own address, and nothing else changed. */
  lemma {:induction false} ReceivedInOrder(channel: nat, control: U32, t: Transfer, words: nat)
    requires Aligned(t.address) && !ToDevice(control) && (channel == OTC ==> Decreasing(control)) && words <= 0x8_0000
    ensures var after := Moved(channel, control, t, words);
            && after.device == (if channel == OTC then t.device else t.device.(taken := t.device.taken + words))
            && (forall k :: 0 <= k < words ==> ReadWord(after.ram, AddressOf(control, t.address, k)) == Given(channel, control, t, words, k))
            && (forall at :: Aligned(at) && (forall k :: 0 <= k < words ==> AddressOf(control, t.address, k) != at) ==>
                 ReadWord(after.ram, at) == ReadWord(t.ram, at))
    decreases words
  {
    hide Stepped, AddressOf, Masked, ReadWord, WriteWord, Aligned, ToDevice;
    if words > 0 {
      var next := MoveOne(channel, control, t, words);
      var after := Moved(channel, control, t, words);
      ReceivedInOrder(channel, control, next, words - 1);
      AddressSteps(control, t.address, 0);
      RestOfRun(control, t.address, words);
      EntryBefore(channel, control, t, words);
      forall at | Aligned(at)
        ensures ReadWord(next.ram, at) == if at == t.address then Given(channel, control, t, words, 0) else ReadWord(t.ram, at)
      {
        WriteThenRead(t.ram, t.address, Offered(channel, t, words), at);
      }
    }
  }

  lemma EntryBefore(channel: nat, control: U32, t: Transfer, words: nat)
    requires Aligned(t.address) && (channel == OTC ==> Decreasing(control)) && words > 0
    ensures Offered(channel, t, words) == Given(channel, control, t, words, 0)
  {
  }

  lemma RestOfRun(control: U32, start: U32, words: int)
    requires Aligned(start) && 0 < words <= 0x8_0000
    ensures forall k {:trigger AddressOf(control, start, k)} :: 0 < k < words ==>
              AddressOf(control, start, k) == AddressOf(control, Stepped(control, start), k - 1)
    ensures forall k {:trigger AddressOf(control, Stepped(control, start), k)} :: 0 <= k < words - 1 ==>
              AddressOf(control, Stepped(control, start), k) == AddressOf(control, start, k + 1) != start
  {
    hide Stepped, AddressOf, Masked, Aligned;
    AddressSteps(control, start, 0);
    forall k | 0 < k < words
      ensures AddressOf(control, start, k) == AddressOf(control, Stepped(control, start), k - 1) != start
    {
      AddressSteps(control, start, k - 1);
      AddressesDistinct(control, start, 0, k);
    }
    forall k | 0 <= k < words - 1
      ensures AddressOf(control, Stepped(control, start), k) == AddressOf(control, start, k + 1) != start
    {
      AddressSteps(control, start, k);
      AddressesDistinct(control, start, 0, k + 1);
    }
  }

  // ---- linked lists ----

  const LIST_SLICE := 4096

  function RamCycles(words: nat): nat { words + (words + 15) / 16 }

  /** A walk of a list: where the next header is, what has been sent, and whether the end was met. */
  datatype List = List(base: U32, sent: seq<U32>, done: bool)

  function PayloadOf(header: U32): nat { header / 0x100_0000 }

  predicate IsEnd(header: U32) { header / 0x80_0000 % 2 == 1 }

  function Payload(ram: Image, address: U32, words: nat): (p: seq<U32>)
    ensures |p| == words
  {
    if words == 0 then [] else Payload(ram, address, words - 1) + [ReadWord(ram, Masked(address + words * 4))]
  }

  function HeaderAt(ram: Image, base: U32): U32 { ReadWord(ram, Masked(base)) }

  function Followed(ram: Image, l: List): List {
    var header := HeaderAt(ram, l.base);
    List(if IsEnd(header) then 0xFF_FFFF else header % 0x100_0000,
         l.sent + Payload(ram, Masked(l.base), PayloadOf(header)), IsEnd(header))
  }

  /** The bus time one node takes. */
  function NodeHold(ram: Image, base: U32): nat { RamCycles(PayloadOf(HeaderAt(ram, base)) + 1) + 1 }

  /** Up to n nodes followed in turn; an end marker makes the rest do nothing. */
  function Walk(ram: Image, l: List, n: nat): List
    decreases n
  {
    if n == 0 || l.done then l else Walk(ram, Followed(ram, l), n - 1)
  }

  lemma {:induction false} WalkSplits(ram: Image, l: List, m: nat, n: nat)
    ensures Walk(ram, Walk(ram, l, m), n) == Walk(ram, l, m + n)
    decreases m
  {
    if m > 0 && !l.done {
      WalkSplits(ram, Followed(ram, l), m - 1, n);
    } else if l.done {
      assert Walk(ram, l, m + n) == l;
    }
  }

  function Total(slices: seq<nat>): nat { if slices == [] then 0 else slices[0] + Total(slices[1..]) }

  /** The list walked in slices, each of its own number of nodes. */
  function WalkSliced(ram: Image, l: List, slices: seq<nat>): List
    decreases |slices|
  {
    if slices == [] then l else WalkSliced(ram, Walk(ram, l, slices[0]), slices[1..])
  }

  /** The bus time of the first n nodes. */
  function WalkHold(ram: Image, l: List, n: nat): nat
    decreases n
  {
    if n == 0 || l.done then 0 else NodeHold(ram, l.base) + WalkHold(ram, Followed(ram, l), n - 1)
  }

  lemma {:induction false} WalkExtends(ram: Image, l: List, n: nat)
    requires !Walk(ram, l, n).done
    ensures Walk(ram, l, n + 1) == Followed(ram, Walk(ram, l, n))
    ensures WalkHold(ram, l, n + 1) == WalkHold(ram, l, n) + NodeHold(ram, Walk(ram, l, n).base)
    decreases n
  {
    if n > 0 && !l.done {
      WalkExtends(ram, Followed(ram, l), n - 1);
    }
    if !l.done && n == 0 {
      assert Walk(ram, Followed(ram, l), 0) == Followed(ram, l);
    }
  }

  /** However the slices fall, the nodes are the same nodes. */
  lemma {:induction false} SlicingIsInvisible(ram: Image, l: List, slices: seq<nat>)
    ensures WalkSliced(ram, l, slices) == Walk(ram, l, Total(slices))
    decreases |slices|
  {
    if slices != [] {
      SlicingIsInvisible(ram, Walk(ram, l, slices[0]), slices[1..]);
      WalkSplits(ram, l, slices[0], Total(slices[1..]));
    }
  }

  /** RAM holding an ordering table of n entries below start, as channel 6 builds it. */
  predicate HoldsTable(ram: Image, control: U32, start: U32, n: nat) {
    forall k :: 0 <= k < n ==> EntryHolds(ram, control, start, n, k)
  }

  predicate EntryHolds(ram: Image, control: U32, start: U32, n: nat, k: int) {
    ReadWord(ram, AddressOf(control, start, k)) == if k == n - 1 then 0xFF_FFFF else AddressOf(control, start, k + 1)
  }

  /** Channel 6's own CHCR: backwards through RAM, into it, as one burst. */
  predicate OtcControl(control: U32) {
    Decreasing(control) && !ToDevice(control) && ModeOf(control).Manual? && !Chopping(control)
  }

  lemma OtcBuildsTable(control: U32, t: Transfer, n: nat)
    requires Aligned(t.address) && OtcControl(control) && n <= 0x1_0000
    ensures var after := Moved(OTC, control, t, n); HoldsTable(after.ram, control, t.address, n) && after.device == t.device
    ensures forall at :: Aligned(at) && (forall k :: 0 <= k < n ==> AddressOf(control, t.address, k) != at) ==>
              ReadWord(Moved(OTC, control, t, n).ram, at) == ReadWord(t.ram, at)
  {
    ReceivedInOrder(OTC, control, t, n);
  }

  /** Walking a table: after k of its n nodes nothing has been sent, and the end comes at the n-th and not before. */
  lemma {:induction false} TableWalk(ram: Image, control: U32, start: U32, n: nat, sent: seq<U32>, base: U32, j: nat, k: nat)
    requires Aligned(start) && OtcControl(control) && HoldsTable(ram, control, start, n)
    requires j + k <= n && j < n && Masked(base) == AddressOf(control, start, j)
    ensures var l := Walk(ram, List(base, sent, false), k);
            && l.sent == sent && (l.done <==> j + k == n)
            && l.base == if k == 0 then base else if j + k == n then 0xFF_FFFF else AddressOf(control, start, j + k)
    decreases k
  {
    if k > 0 {
      hide AddressOf, Masked, ReadWord, Followed, HoldsTable;
      TableEntry(ram, control, start, n, sent, base, j);
      var next := Followed(ram, List(base, sent, false));
      if j < n - 1 {
        TableWalk(ram, control, start, n, sent, next.base, j + 1, k - 1);
      } else {
        assert Walk(ram, next, 0) == next;
      }
    }
  }

  /** One entry, followed: nothing to send, and the entry before it next. */
  lemma TableEntry(ram: Image, control: U32, start: U32, n: nat, sent: seq<U32>, base: U32, j: nat)
    requires Aligned(start) && HoldsTable(ram, control, start, n) && j < n && Masked(base) == AddressOf(control, start, j)
    ensures Followed(ram, List(base, sent, false)) == List(if j == n - 1 then 0xFF_FFFF else AddressOf(control, start, j + 1), sent, j == n - 1)
    ensures Masked(AddressOf(control, start, j + 1)) == AddressOf(control, start, j + 1)
  {
    hide AddressOf, Masked, ReadWord;
    assert EntryHolds(ram, control, start, n, j);
    EntryIsBareNode(control, start, j);
    hide HoldsTable;
    var header := HeaderAt(ram, base);
    assert header == ReadWord(ram, AddressOf(control, start, j));
    assert Payload(ram, Masked(base), 0) == [];
  }

  lemma EntryIsBareNode(control: U32, start: U32, j: nat)
    requires Aligned(start)
    ensures var entry := AddressOf(control, start, j + 1);
            PayloadOf(entry) == 0 && !IsEnd(entry) && entry % 0x100_0000 == entry && Masked(entry) == entry
    ensures PayloadOf(0xFF_FFFF) == 0 && IsEnd(0xFF_FFFF)
  {
    assert AddressOf(control, start, j + 1) < 0x20_0000;
  }

  /** A table of n entries, sliced anyhow, is walked to its end by n nodes and not by fewer. */
  lemma TableWalked(ram: Image, control: U32, start: U32, n: nat, sent: seq<U32>, base: U32, slices: seq<nat>)
    requires Aligned(start) && OtcControl(control) && HoldsTable(ram, control, start, n) && n > 0 && Masked(base) == start
    ensures var l := WalkSliced(ram, List(base, sent, false), slices);
            && (Total(slices) >= n ==> l == List(0xFF_FFFF, sent, true))
            && (Total(slices) < n ==> !l.done && l.sent == sent)
  {
    hide HoldsTable, AddressOf, Masked;
    SlicingIsInvisible(ram, List(base, sent, false), slices);
    AddressSteps(control, start, 0);
    if Total(slices) < n {
      TableWalk(ram, control, start, n, sent, base, 0, Total(slices));
    } else {
      TableWalk(ram, control, start, n, sent, base, 0, n);
      WalkSplits(ram, List(base, sent, false), n, Total(slices) - n);
    }
  }

  // ---- turns ----

  /** One channel, the RAM it moves words of, and the device behind it. */
  datatype World = World(ch: Channel, ram: Image, device: Device)

  function Carried(channel: nat, w: World, words: nat): World {
    var after := Moved(channel, w.ch.control, Transfer(w.ram, Masked(w.ch.base), w.device), words);
    World(w.ch.(base := after.address), after.ram, after.device)
  }

  function Begun(ch: Channel): Channel {
    match ModeOf(ch.control)
    case Manual => ch.(running := true, remaining := SizeOf(ch.block))
    case Request => ch.(running := true, remaining := CountOf(ch.block))
    case LinkedList => ch.(running := true, remaining := 1)
  }

  function Window(ch: Channel): nat {
    if Chopping(ch.control) then Min(ch.remaining, ChopWords(ch.control)) else ch.remaining
  }

  function ManualStep(channel: nat, w: World): (after: World)
    ensures after.ch.running == w.ch.running && after.ch.control == w.ch.control && after.ch.remaining <= w.ch.remaining
  {
    var words := Window(w.ch);
    var after := Carried(channel, w, words);
    after.(ch := after.ch.(remaining := w.ch.remaining - words))
  }

  function RequestStep(channel: nat, w: World): (after: World)
    requires w.ch.remaining <= 0x1_0000
    ensures after.ch.running == w.ch.running && after.ch.control == w.ch.control && after.ch.remaining <= w.ch.remaining
  {
    if w.ch.remaining == 0 then w
    else
      var after := Carried(channel, w, SizeOf(w.ch.block));
      var left := w.ch.remaining - 1;
      after.(ch := after.ch.(remaining := left, block := left * 0x1_0000 + w.ch.block % 0x1_0000))
  }

  function Settled(w: World): World {
    if w.ch.remaining == 0 then w.(ch := w.ch.(control := Finished(w.ch.control), running := false, remaining := 0)) else w
  }

  predicate InProgress(ch: Channel) {
    ch.running ==> 0 < ch.remaining <= 0x1_0000
  }

  /** One turn of a channel that is not walking a list. */
  function Turn(channel: nat, w: World): (after: World)
    requires !ModeOf(w.ch.control).LinkedList? && InProgress(w.ch)
    ensures InProgress(after.ch)
    ensures after.ch.running ==> after.ch.control == w.ch.control
  {
    var begun := if w.ch.running then w else w.(ch := Begun(w.ch));
    Settled(if ModeOf(w.ch.control).Manual? then ManualStep(channel, begun) else RequestStep(channel, begun))
  }

  function Turns(channel: nat, w: World, k: nat): (after: World)
    requires !ModeOf(w.ch.control).LinkedList? && InProgress(w.ch) && !w.ch.running
    ensures InProgress(after.ch)
    ensures after.ch.running ==> after.ch.control == w.ch.control
    decreases k
  {
    if k == 0 then w
    else
      var before := Turns(channel, w, k - 1);
      if k > 1 && !before.ch.running then before else Turn(channel, before)
  }

  lemma CarriedSplits(channel: nat, w: World, m: nat, n: nat)
    requires channel != OTC || ToDevice(w.ch.control)
    ensures Carried(channel, Carried(channel, w, m), n) == Carried(channel, w, m + n)
  {
    hide Moved, Masked;
    var t := Transfer(w.ram, Masked(w.ch.base), w.device);
    MovedSplits(channel, w.ch.control, t, m, n);
    AlignedKept(Moved(channel, w.ch.control, t, m).address);
  }

  /** Only its own fields of the channel matter to what is carried. */
  lemma CarriedIgnoresCounts(channel: nat, w: World, running: bool, remaining: nat, block: U32, words: nat)
    ensures Carried(channel, w.(ch := w.ch.(running := running, remaining := remaining, block := block)), words) ==
            var c := Carried(channel, w, words); c.(ch := c.ch.(running := running, remaining := remaining, block := block))
  {
  }

  function WindowSize(ch: Channel): (n: nat)
    ensures n >= 1
  {
    if Chopping(ch.control) then ChopWords(ch.control) else SizeOf(ch.block)
  }

  /**
    A burst, chopped or whole: k turns have moved exactly the first k windows of the one unsplit
    transfer, or all of it if they are enough, and the turn that moves the last of it puts the channel down.
   */
  lemma {:induction false} BurstTurns(channel: nat, w: World, k: nat)
    requires ModeOf(w.ch.control).Manual? && !w.ch.running && k > 0
    requires channel != OTC || ToDevice(w.ch.control)
    ensures Turns(channel, w, k) == PartWay(channel, w, Min(k * WindowSize(w.ch), SizeOf(w.ch.block)))
    decreases k
  {
    hide Carried, SizeOf, ChopWords, Turn, PartWay, WindowSize;
    var size, window := SizeOf(w.ch.block), WindowSize(w.ch);
    assert k * window == (k - 1) * window + window;
    if k == 1 {
      FirstWindow(channel, w);
      assert Turns(channel, w, 1) == Turn(channel, Turns(channel, w, 0));
    } else {
      assert (k - 1) * window == (k - 2) * window + window;
      MulMono(0, k - 2, window);
      BurstTurns(channel, w, k - 1);
      if (k - 1) * window < size { NextWindow(channel, w, (k - 1) * window); }
    }
  }

  /** A burst with the given number of its words behind it, and more to come. */
  function PartWay(channel: nat, w: World, moved: nat): (part: World)
    requires moved <= SizeOf(w.ch.block)
    ensures part.ch.running <==> moved < SizeOf(w.ch.block)
  {
    var whole, size := Carried(channel, w, moved), SizeOf(w.ch.block);
    if moved < size then whole.(ch := whole.ch.(running := true, remaining := size - moved))
    else whole.(ch := whole.ch.(control := Finished(w.ch.control), running := false, remaining := 0))
  }

  lemma FirstWindow(channel: nat, w: World)
    requires ModeOf(w.ch.control).Manual? && !w.ch.running
    ensures Turn(channel, w) == PartWay(channel, w, Min(WindowSize(w.ch), SizeOf(w.ch.block)))
  {
    hide Carried, SizeOf, ChopWords;
    var size, words := SizeOf(w.ch.block), Min(WindowSize(w.ch), SizeOf(w.ch.block));
    CarriedIgnoresCounts(channel, w, true, size, w.ch.block, words);
    CarriedKeeps(channel, w, words);
  }

  lemma NextWindow(channel: nat, w: World, moved: nat)
    requires ModeOf(w.ch.control).Manual? && !w.ch.running && moved < SizeOf(w.ch.block)
    requires channel != OTC || ToDevice(w.ch.control)
    ensures Turn(channel, PartWay(channel, w, moved)) == PartWay(channel, w, Min(moved + WindowSize(w.ch), SizeOf(w.ch.block)))
  {
    hide Carried, SizeOf, ChopWords;
    var size, before := SizeOf(w.ch.block), Carried(channel, w, moved);
    var next := Min(WindowSize(w.ch), size - moved);
    CarriedIgnoresCounts(channel, before, true, size - moved, w.ch.block, next);
    CarriedKeeps(channel, w, moved);
    CarriedKeeps(channel, w, moved + next);
    CarriedSplits(channel, w, moved, next);
  }

  lemma CarriedKeeps(channel: nat, w: World, words: nat)
    ensures var c := Carried(channel, w, words); c.ch == w.ch.(base := c.ch.base)
  {
  }

  /** A block transfer with the given number of its blocks behind it; one of no blocks is over with nothing moved. */
  function BlocksIn(channel: nat, w: World, k: nat): (part: World)
    requires k <= CountOf(w.ch.block)
    ensures part.ch.running <==> k < CountOf(w.ch.block)
  {
    if CountOf(w.ch.block) == 0 then w.(ch := w.ch.(control := Finished(w.ch.control), running := false, remaining := 0))
    else
      var whole, left := Carried(channel, w, k * SizeOf(w.ch.block)), CountOf(w.ch.block) - k;
      whole.(ch := whole.ch.(block := left * 0x1_0000 + w.ch.block % 0x1_0000, remaining := left, running := left > 0,
                             control := if left > 0 then w.ch.control else Finished(w.ch.control)))
  }

  /**
    A block transfer of any count: k of its turns have moved exactly k blocks of the one unsplit
    transfer, or all of them if they are enough, BCR's high half reads the blocks left, and the last
    turn puts the channel down.
   */
  lemma {:induction false} BlockTurns(channel: nat, w: World, k: nat)
    requires ModeOf(w.ch.control).Request? && !w.ch.running && k > 0
    requires channel != OTC || ToDevice(w.ch.control)
    ensures var moved := Min(k, CountOf(w.ch.block));
            var after := Turns(channel, w, k);
            && after == BlocksIn(channel, w, moved)
            && CountOf(after.ch.block) == CountOf(w.ch.block) - moved && after.ch.block % 0x1_0000 == w.ch.block % 0x1_0000
    decreases k
  {
    hide Turn, BlocksIn;
    if k == 1 {
      assert Turns(channel, w, 1) == Turn(channel, Turns(channel, w, 0));
      if CountOf(w.ch.block) == 0 { NoBlocks(channel, w); } else { FirstBlock(channel, w); }
    } else {
      BlockTurns(channel, w, k - 1);
      if k - 1 < CountOf(w.ch.block) { NextBlock(channel, w, k - 1); }
    }
    BlocksLeft(channel, w, Min(k, CountOf(w.ch.block)));
  }

  lemma BlocksLeft(channel: nat, w: World, k: nat)
    requires k <= CountOf(w.ch.block) && (k > 0 || CountOf(w.ch.block) == 0)
    ensures var block := BlocksIn(channel, w, k).ch.block; CountOf(block) == CountOf(w.ch.block) - k && block % 0x1_0000 == w.ch.block % 0x1_0000
  {
    hide Carried;
    BlockParts(CountOf(w.ch.block) - k, w.ch.block % 0x1_0000);
  }

  /** With BCR's high half zero a single turn puts the channel down and leaves RAM, MADR and device alone. */
  lemma NoBlocks(channel: nat, w: World)
    requires ModeOf(w.ch.control).Request? && !w.ch.running && CountOf(w.ch.block) == 0
    ensures Turn(channel, w) == BlocksIn(channel, w, 0)
  {
    hide Carried;
  }

  lemma FirstBlock(channel: nat, w: World)
    requires ModeOf(w.ch.control).Request? && !w.ch.running && CountOf(w.ch.block) > 0
    ensures Turn(channel, w) == BlocksIn(channel, w, 1)
  {
    hide Carried, SizeOf;
    var size, count := SizeOf(w.ch.block), CountOf(w.ch.block);
    CarriedIgnoresCounts(channel, w, true, count, w.ch.block, size);
    CarriedKeeps(channel, w, size);
  }

  lemma NextBlock(channel: nat, w: World, k: nat)
    requires ModeOf(w.ch.control).Request? && !w.ch.running && 0 < k < CountOf(w.ch.block)
    requires channel != OTC || ToDevice(w.ch.control)
    ensures InProgress(BlocksIn(channel, w, k).ch) && BlocksIn(channel, w, k).ch.control == w.ch.control
    ensures Turn(channel, BlocksIn(channel, w, k)) == BlocksIn(channel, w, k + 1)
  {
    hide Carried, SizeOf;
    var size, left := SizeOf(w.ch.block), CountOf(w.ch.block) - k;
    var before := BlocksIn(channel, w, k);
    CarriedKeeps(channel, w, k * size);
    BlockParts(left, w.ch.block % 0x1_0000);
    BlockParts(left - 1, w.ch.block % 0x1_0000);
    SizeOfBlock(before.ch.block, w.ch.block);
    CarriedIgnoresCounts(channel, Carried(channel, w, k * size), true, left, before.ch.block, size);
    CarriedKeeps(channel, w, k * size + size);
    CarriedSplits(channel, w, k * size, size);
    assert (k + 1) * size == k * size + size;
  }

  lemma SizeOfBlock(a: U32, b: U32)
    requires a % 0x1_0000 == b % 0x1_0000
    ensures SizeOf(a) == SizeOf(b)
  {
  }

  lemma BlockParts(high: int, low: int)
    requires 0 <= high < 0x1_0000 && 0 <= low < 0x1_0000
    ensures (high * 0x1_0000 + low) / 0x1_0000 == high && (high * 0x1_0000 + low) % 0x1_0000 == low
  {
  }

  /** MADR through either kind of transfer: the start, four bytes on for every word moved, modulo two megabytes. */
  lemma CarriedAddress(channel: nat, w: World, words: nat)
    ensures Carried(channel, w, words).ch.base == AddressOf(w.ch.control, Masked(w.ch.base), words)
  {
    MovedAddress(channel, w.ch.control, Transfer(w.ram, Masked(w.ch.base), w.device), words);
  }

  // ---- list turns ----

  /** A turn of a channel walking a list, of the given number of nodes. */
  function ListTurn(w: World, nodes: nat): World {
    var begun := if w.ch.running then w.ch else Begun(w.ch);
    var to := Walk(w.ram, List(begun.base, w.device.sent, false), nodes);
    Settled(World(begun.(base := to.base, remaining := if to.done then 0 else 1), w.ram, w.device.(sent := to.sent)))
  }

  /** Turn after turn, each of its own number of nodes, until the channel is down or there are no more. */
  function ListTurns(w: World, slices: seq<nat>): World
    decreases |slices|
  {
    if slices == [] then w
    else
      var after := ListTurn(w, slices[0]);
      if after.ch.running then ListTurns(after, slices[1..]) else after
  }

  /** The channel a walk has reached: at its next header and running, or finished with. */
  function Reached(w: World, l: List): World {
    World(w.ch.(base := l.base, remaining := if l.done then 0 else 1, running := !l.done,
                control := if l.done then Finished(w.ch.control) else w.ch.control), w.ram, w.device.(sent := l.sent))
  }

  lemma ListTurnReaches(w: World, nodes: nat)
    requires ModeOf(w.ch.control).LinkedList?
    ensures ListTurn(w, nodes) == Reached(w, Walk(w.ram, List(w.ch.base, w.device.sent, false), nodes))
  {
    hide Walk, Finished;
  }

  lemma {:induction false} WalkedOut(ram: Image, l: List, slices: seq<nat>)
    requires l.done
    ensures WalkSliced(ram, l, slices) == l
    decreases |slices|
  {
    if slices != [] {
      WalkedOut(ram, l, slices[1..]);
    }
  }

  /** The turns of a list transfer, whatever the device and the slice allowed each, are one walk of the list. */
  lemma {:induction false} ListTurnsWalk(w: World, slices: seq<nat>)
    requires ModeOf(w.ch.control).LinkedList? && slices != []
    ensures ListTurns(w, slices) == Reached(w, WalkSliced(w.ram, List(w.ch.base, w.device.sent, false), slices))
    ensures ListTurns(w, slices) == Reached(w, Walk(w.ram, List(w.ch.base, w.device.sent, false), Total(slices)))
    decreases |slices|
  {
    hide Walk, Finished, ListTurn;
    var from := List(w.ch.base, w.device.sent, false);
    var l, after := Walk(w.ram, from, slices[0]), ListTurn(w, slices[0]);
    ListTurnReaches(w, slices[0]);
    SlicingIsInvisible(w.ram, from, slices);
    if l.done {
      WalkedOut(w.ram, l, slices[1..]);
    } else if slices[1..] == [] {
      assert ListTurns(after, slices[1..]) == after && WalkSliced(w.ram, l, slices[1..]) == l;
    } else {
      ListTurnsWalk(after, slices[1..]);
    }
  }

  /**
    Build an ordering table with channel 6, then send it as a list from where the table began: the
    turns read as many headers as the table has entries, send nothing, and leave FFFFFFh in MADR.
   */
  lemma TableThenList(otc: World, list: Channel, device: Device, slices: seq<nat>)
    requires OtcControl(otc.ch.control) && !otc.ch.running
    requires ModeOf(list.control).LinkedList? && Masked(list.base) == Masked(otc.ch.base) && slices != []
    ensures var built := Turn(OTC, otc);
            var after := ListTurns(World(list, built.ram, device), slices);
            && !built.ch.running && after.ram == built.ram && after.device == device
            && (Total(slices) >= SizeOf(otc.ch.block) ==> !after.ch.running && after.ch.base == 0xFF_FFFF)
            && (Total(slices) < SizeOf(otc.ch.block) ==> after.ch.running)
  {
    hide HoldsTable, Masked, Moved, SizeOf, Walk, WalkSliced, ListTurns, Aligned;
    var n, t := SizeOf(otc.ch.block), Transfer(otc.ram, Masked(otc.ch.base), otc.device);
    MaskIsAligned(otc.ch.base);
    OtcBuildsTable(otc.ch.control, t, n);
    TableTurn(otc);
    var ram := Turn(OTC, otc).ram;
    TableWalked(ram, otc.ch.control, t.address, n, device.sent, list.base, slices);
    ListTurnsWalk(World(list, ram, device), slices);
  }

  lemma MaskIsAligned(address: int)
    ensures Aligned(Masked(address))
  {
  }

  /** An unchopped burst is over in one turn. */
  lemma TableTurn(otc: World)
    requires OtcControl(otc.ch.control) && !otc.ch.running
    ensures var built := Turn(OTC, otc);
            !built.ch.running && built.ram == Moved(OTC, otc.ch.control, Transfer(otc.ram, Masked(otc.ch.base), otc.device), SizeOf(otc.ch.block)).ram
  {
    hide Moved, Masked, SizeOf, Finished;
  }
}
