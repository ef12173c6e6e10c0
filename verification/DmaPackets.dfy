/** What a list transfer is for: packets of words, linked in any order, sent to a device as one stream; and what the registers ask for. */
module DmaPackets {
  import opened Words
  import opened Ram
  import opened Dma
  import opened DmaController

  // ---- the words of a node ----

  /** A node's words are the ones after its header, in order. */
  lemma {:induction false} PayloadAt(ram: Image, address: U32, n: nat, j: nat)
    requires j < n
    ensures Payload(ram, address, n)[j] == ReadWord(ram, Masked(address + 4 + 4 * j))
    decreases n
  {
    hide ReadWord, Masked;
    if j < n - 1 {
      PayloadAt(ram, address, n - 1, j);
    }
  }

  // ---- a list of packets ----

  /** A packet as software lays it out: where its header is, and the words behind it. */
  datatype Packet = Packet(at: U32, words: seq<U32>)

  /** The packet is in RAM: its length in the top byte of its header, and its words from the next address on. */
  predicate LaidOut(ram: Image, p: Packet) {
    && ReadWord(ram, Masked(p.at)) / 0x100_0000 == |p.words|
    && forall j :: 0 <= j < |p.words| ==> WordLaid(ram, p, j)
  }

  predicate WordLaid(ram: Image, p: Packet, j: int)
    requires 0 <= j < |p.words|
  {
    ReadWord(ram, Masked(p.at + 4 + 4 * j)) == p.words[j]
  }

  /** Each header names the next packet, wherever it is, and only the last carries the end mark. */
  predicate LinkedUp(ram: Image, packets: seq<Packet>) {
    && (forall i :: 0 <= i < |packets| ==> LaidOut(ram, packets[i]))
    && (forall i :: 0 <= i < |packets| - 1 ==> Leads(ram, packets[i], packets[i + 1]))
    && (packets != [] ==> ReadWord(ram, Masked(packets[|packets| - 1].at)) / 0x80_0000 % 2 == 1)
  }

  predicate Leads(ram: Image, p: Packet, q: Packet) { q.at < 0x80_0000 && ReadWord(ram, Masked(p.at)) % 0x100_0000 == q.at }

  function Joined(packets: seq<Packet>): seq<U32> { if packets == [] then [] else packets[0].words + Joined(packets[1..]) }

  lemma PacketWords(ram: Image, p: Packet)
    requires LaidOut(ram, p)
    ensures Payload(ram, Masked(p.at), |p.words|) == p.words
  {
    hide ReadWord, Masked;
    var sent := Payload(ram, Masked(p.at), |p.words|);
    forall j | 0 <= j < |p.words|
      ensures sent[j] == p.words[j]
    {
      PayloadAt(ram, Masked(p.at), |p.words|, j);
      MaskedAdd(p.at, 1 + j);
      assert WordLaid(ram, p, j);
    }
  }

  lemma EndMark(header: U32)
    ensures header % 0x100_0000 < 0x80_0000 <==> !IsEnd(header)
  {
  }

  /** One packet sent, and the next one's header the place to go on from. */
  lemma PacketFollowed(ram: Image, packets: seq<Packet>, sent: seq<U32>)
    requires packets != [] && LinkedUp(ram, packets)
    ensures Followed(ram, List(packets[0].at, sent, false)) ==
            List(if |packets| == 1 then 0xFF_FFFF else packets[1].at, sent + packets[0].words, |packets| == 1)
  {
    hide ReadWord, Masked, Payload;
    var p, header := packets[0], ReadWord(ram, Masked(packets[0].at));
    assert LaidOut(ram, p) && (|packets| > 1 ==> Leads(ram, p, packets[1]));
    PacketWords(ram, p);
    EndMark(header);
  }

  lemma RestLinked(ram: Image, packets: seq<Packet>)
    requires packets != [] && LinkedUp(ram, packets)
    ensures LinkedUp(ram, packets[1..])
  {
    hide LaidOut, ReadWord, Masked;
    forall i | 0 <= i < |packets| - 2
      ensures Leads(ram, packets[1..][i], packets[1..][i + 1])
    {
      assert Leads(ram, packets[i + 1], packets[i + 2]);
    }
  }

  /** A walk of n nodes sends the first n packets, and meets the end with the last of them. */
  lemma {:induction false} PacketsWalked(ram: Image, packets: seq<Packet>, sent: seq<U32>, n: nat)
    requires packets != [] && LinkedUp(ram, packets) && n <= |packets|
    ensures Walk(ram, List(packets[0].at, sent, false), n) ==
            List(if n == |packets| then 0xFF_FFFF else packets[n].at, sent + Joined(packets[..n]), n == |packets|)
    decreases n
  {
    hide Followed, LinkedUp;
    if n == 0 {
      assert sent + Joined(packets[..0]) == sent;
    } else {
      PacketFollowed(ram, packets, sent);
      RestLinked(ram, packets);
      var rest, words := packets[1..], packets[0].words;
      assert packets[..n][1..] == rest[..n - 1];
      assert sent + words + Joined(rest[..n - 1]) == sent + (words + Joined(rest[..n - 1]));
      if rest == [] {
        assert Walk(ram, List(0xFF_FFFF, sent + words, true), 0) == List(0xFF_FFFF, sent + words, true);
        assert Joined(rest[..0]) == [];
      } else {
        PacketsWalked(ram, rest, sent + words, n - 1);
      }
    }
  }

  /** And any number of nodes: past the last packet there is nothing more to send. */
  lemma PacketsEnd(ram: Image, packets: seq<Packet>, sent: seq<U32>, n: nat)
    requires packets != [] && LinkedUp(ram, packets)
    ensures Walk(ram, List(packets[0].at, sent, false), n) ==
            if n >= |packets| then List(0xFF_FFFF, sent + Joined(packets), true)
            else List(packets[n].at, sent + Joined(packets[..n]), false)
  {
    hide Walk, LinkedUp;
    PacketsWalked(ram, packets, sent, Min(n, |packets|));
    if n >= |packets| {
      var from := List(packets[0].at, sent, false);
      assert packets[..|packets|] == packets;
      WalkSplits(ram, from, |packets|, n - |packets|);
      WalkedPast(ram, Walk(ram, from, |packets|), n - |packets|);
    }
  }

  /**
    A list of packets, linked through any addresses, and a channel told to walk it from the first:
    turns of any sizes send exactly the packets' words, joined in the order of the links. The channel
    is put down with the last packet and not before, RAM is as it was, and MADR reads FFFFFFh.
   */
  lemma PacketsSent(w: World, packets: seq<Packet>, slices: seq<nat>)
    requires ModeOf(w.ch.control).LinkedList? && slices != []
    requires packets != [] && LinkedUp(w.ram, packets) && w.ch.base == packets[0].at
    ensures var after, n := ListTurns(w, slices), Total(slices);
            && after.ram == w.ram
            && (n >= |packets| ==>
                  && after.device == w.device.(sent := w.device.sent + Joined(packets))
                  && !after.ch.running && after.ch.base == 0xFF_FFFF && after.ch.control == Finished(w.ch.control))
            && (n < |packets| ==>
                  && after.device == w.device.(sent := w.device.sent + Joined(packets[..n]))
                  && after.ch.running && after.ch.base == packets[n].at && after.ch.control == w.ch.control)
  {
    hide Walk, WalkSliced, LinkedUp, ListTurns, Finished, ModeOf, Joined;
    ListTurnsWalk(w, slices);
    PacketsEnd(w.ram, packets, w.device.sent, Total(slices));
  }

  lemma WalkedPast(ram: Image, l: List, n: nat)
    requires l.done
    ensures Walk(ram, l, n) == l
  {
  }

  // ---- what the registers say ----

  /** A channel that is over has its enable and its trigger down, and every other bit of its control as it was. */
  lemma FinishedIs(control: U32)
    ensures !Enabled(Finished(control)) && !Triggered(Finished(control))
    ensures Finished(control) % 0x100_0000 == control % 0x100_0000
    ensures Finished(control) / 0x200_0000 % 8 == control / 0x200_0000 % 8
    ensures Finished(control) / 0x2000_0000 == control / 0x2000_0000
  {
    var low, mid, high := control % 0x100_0000, control / 0x200_0000 % 8, control / 0x2000_0000;
    PartsApart(control);
    PartsOf(low, mid, high);
  }

  lemma PartsApart(x: U32)
    ensures x == x % 0x100_0000 + 0x100_0000 * (x / 0x100_0000 % 2) + 0x200_0000 * (x / 0x200_0000 % 8)
                 + 0x1000_0000 * (x / 0x1000_0000 % 2) + 0x2000_0000 * (x / 0x2000_0000)
  {
    var a := x / 0x100_0000;
    var b := a / 2;
    var c := b / 8;
    assert x == 0x100_0000 * a + x % 0x100_0000 && a == 2 * b + a % 2 && b == 8 * c + b % 8 && c == 2 * (c / 2) + c % 2;
    assert b == x / 0x200_0000 && c == x / 0x1000_0000 && c / 2 == x / 0x2000_0000;
  }

  lemma PartsOf(low: nat, mid: nat, high: nat)
    requires low < 0x100_0000 && mid < 8 && high < 8
    ensures var x := low + 0x200_0000 * mid + 0x2000_0000 * high;
            && x % 0x100_0000 == low && x / 0x200_0000 % 8 == mid && x / 0x2000_0000 == high
            && x / 0x100_0000 % 2 == 0 && x / 0x1000_0000 % 2 == 0
  {
    var x := low + 0x200_0000 * mid + 0x2000_0000 * high;
    UniqueRemainder(x, 0x100_0000, 2 * mid + 32 * high, low);
    UniqueRemainder(x, 0x200_0000, mid + 16 * high, low);
    UniqueRemainder(x, 0x1000_0000, 2 * high, low + 0x200_0000 * mid);
    UniqueRemainder(x, 0x2000_0000, high, low + 0x200_0000 * mid);
  }

  /** The control words software writes: a list to the GPU, blocks either way, and a chopped burst of sixteen with four cycles between. */
  lemma UsualControls()
    ensures ModeOf(0x0100_0401).LinkedList? && ToDevice(0x0100_0401) && !Decreasing(0x0100_0401) && Enabled(0x0100_0401)
    ensures ModeOf(0x0100_0201).Request? && ToDevice(0x0100_0201) && Enabled(0x0100_0201) && !Triggered(0x0100_0201)
    ensures ModeOf(0x0100_0200).Request? && !ToDevice(0x0100_0200) && !Chopping(0x0100_0200)
    ensures var control := 0x1124_0100;
            && ModeOf(control).Manual? && Chopping(control) && ChopWords(control) == 16 && ChopCpuCycles(control) == 4 && Triggered(control)
  {
    assert PowerOfTwo(4) == 16;
  }

  /** BCR's halves are a count of blocks over a size in words, of which nought is the most. */
  lemma BlockReads(count: nat, size: nat)
    requires count < 0x1_0000 && size < 0x1_0000
    ensures var block := count * 0x1_0000 + size; CountOf(block) == count && SizeOf(block) == (if size == 0 then 0x1_0000 else size)
  {
    BlockParts(count, size);
  }

  /** A run goes up four bytes a word, or down if the second bit of its control is up, and an address inside RAM on a word is taken as it is. */
  lemma RunsUpOrDown(control: U32, start: U32, k: nat)
    requires Aligned(start)
    ensures control / 2 % 2 == 0 && start + 4 * k < 0x20_0000 ==> AddressOf(control, start, k) == start + 4 * k
    ensures control / 2 % 2 == 1 && start >= 4 * k ==> AddressOf(control, start, k) == start - 4 * k
  {
    hide Masked;
    WordsOn(start, k);
    if start + 4 * k < 0x20_0000 { AlignedKept(start + 4 * k); }
    if start >= 4 * k { AlignedKept(start - 4 * k); }
  }

  lemma WordsOn(start: nat, k: nat)
    requires start % 4 == 0
    ensures (start + 4 * k) % 4 == 0 && (start - 4 * k) % 4 == 0
  {
    var q := start / 4;
    assert start + 4 * k == 4 * (q + k) && start - 4 * k == 4 * (q - k);
  }

  /** Only the address bits inside RAM, above the two lowest, are used. */
  lemma MaskedIs(address: U32, turns: nat, low: nat)
    requires Aligned(address) && low < 4
    ensures Masked(address + low + turns * 0x20_0000) == address
  {
    assert address + low + turns * 0x20_0000 == 4 * (address / 4 + turns * 0x8_0000) + low;
    UniqueRemainder(address + low + turns * 0x20_0000, 4, address / 4 + turns * 0x8_0000, low);
    UniqueRemainder(address / 4 + turns * 0x8_0000, 0x8_0000, turns, address / 4);
  }

  /** RAM gives sixteen words in seventeen cycles. */
  lemma BusTime(n: nat)
    ensures RamCycles(16 * n) == 17 * n
  {
  }

  /** A block takes the longer of what RAM and the device need: sixteen words for the SPU a whole sample's time, a list's none past RAM's. */
  lemma TurnTime(c: nat, words: nat)
    requires c < 7
    ensures var cost := BlockCost(c, words); cost.hold + cost.gap == Max(RamCycles(words), words * DeviceCyclesPerWord(c))
    ensures BlockCost(4, 16).hold + BlockCost(4, 16).gap == 768 && BlockCost(2, words).gap == 0
  {
  }

  /** At reset every channel is off and channel 6 has the lowest priority of all. */
  lemma ResetOrder(c: nat)
    requires c < 7
    ensures !Bit(0x0765_4321, c * 4 + 3) && PriorityOf(0x0765_4321, c) == c + 1
  {
    NibblesAre();
    if c == 0 {} else if c == 1 {} else if c == 2 {} else if c == 3 {} else if c == 4 {} else if c == 5 {} else {}
  }

  lemma NibblesAre()
    ensures PowerOfTwo(0) == 1 && PowerOfTwo(3) == 8 && PowerOfTwo(4) == 0x10 && PowerOfTwo(7) == 0x80
    ensures PowerOfTwo(8) == 0x100 && PowerOfTwo(11) == 0x800 && PowerOfTwo(12) == 0x1000 && PowerOfTwo(15) == 0x8000
    ensures PowerOfTwo(16) == 0x1_0000 && PowerOfTwo(19) == 0x8_0000 && PowerOfTwo(20) == 0x10_0000 && PowerOfTwo(23) == 0x80_0000
    ensures PowerOfTwo(24) == 0x100_0000 && PowerOfTwo(27) == 0x800_0000
  {
  }

  lemma PowersMultiply(j: nat, k: nat)
    requires j < k
    ensures PowerOfTwo(k) == PowerOfTwo(j) * (2 * PowerOfTwo(k - 1 - j))
    decreases k
  {
    if j < k - 1 {
      PowersMultiply(j, k - 1);
      assert 2 * (PowerOfTwo(j) * (2 * PowerOfTwo(k - 2 - j))) == PowerOfTwo(j) * (2 * (2 * PowerOfTwo(k - 2 - j)));
    }
  }

  /** Putting up a bit that was down leaves every other bit alone. */
  lemma BitPutUp(x: nat, k: nat, j: nat)
    requires x / PowerOfTwo(k) % 2 == 0
    ensures (x + PowerOfTwo(k)) / PowerOfTwo(j) % 2 == if j == k then 1 else x / PowerOfTwo(j) % 2
  {
    hide PowerOfTwo;
    if j < k {
      PowersMultiply(j, k);
      AboveLower(x, PowerOfTwo(j), PowerOfTwo(k - 1 - j));
    } else if j > k {
      PowersMultiply(k, j);
      UnderHigher(x, PowerOfTwo(k), PowerOfTwo(j - 1 - k));
    } else {
      CarriedOver(x, PowerOfTwo(k), 1);
    }
  }

  lemma AboveLower(x: nat, p: nat, m: nat)
    requires p > 0
    ensures (x + p * (2 * m)) / p % 2 == x / p % 2
  {
    CarriedOver(x, p, 2 * m);
    EvenMore(x / p, m);
  }

  lemma EvenMore(a: nat, m: nat)
    ensures (a + 2 * m) % 2 == a % 2
  {
  }

  lemma CarriedOver(x: nat, p: nat, m: nat)
    requires p > 0
    ensures (x + p * m) / p == x / p + m && (x + p * m) % p == x % p
  {
    assert x == x / p * p + x % p;
    MulAdd(x / p, m, p);
    UniqueRemainder(x + p * m, p, x / p + m, x % p);
  }

  lemma UnderHigher(x: nat, q: nat, m: nat)
    requires q > 0 && m > 0 && x / q % 2 == 0
    ensures (x + q) / (q * (2 * m)) == x / (q * (2 * m))
  {
    CarriedOver(x, q, 1);
    Nested(x, q, 2 * m);
    Nested(x + q, q, 2 * m);
    EvenAndNext(x / q, m);
  }

  lemma EvenAndNext(y: nat, m: nat)
    requires y % 2 == 0 && m > 0
    ensures (y + 1) / (2 * m) == y / (2 * m)
  {
    var n, r := y / (2 * m), y % (2 * m);
    assert y == n * (2 * m) + r;
    assert n * (2 * m) == 2 * (n * m);
    assert r % 2 == 0;
    UniqueRemainder(y + 1, 2 * m, n, r + 1);
  }

  lemma Nested(x: nat, q: nat, n: nat)
    requires q > 0 && n > 0
    ensures q * n > 0 && x / (q * n) == x / q / n
  {
    DivRemainder(x, q);
    DivRemainder(x / q, n);
    MulMono(1, q, n);
    NestedParts(x, q, n, x / q, x / q / n);
  }

  lemma NestedParts(x: int, q: int, n: int, y: int, a: int)
    requires q > 0 && n > 0 && q * n > 0 && 0 <= x - y * q < q && 0 <= y - a * n < n
    ensures x / (q * n) == a
  {
    var b, r := y - a * n, x - y * q;
    MulAdd(a * n, b, q);
    MulAssoc(a, n, q);
    MulMono(0, b, q);
    MulMono(b + 1, n, q);
    MulAdd(b, 1, q);
    assert n * q == q * n;
    UniqueRemainder(x, q * n, a, b * q + r);
  }

  /** Forced, the line is up whatever else the register holds; neither forced nor switched on it is down. */
  lemma LineSwitched(dicr: U32)
    ensures dicr / 0x8000 % 2 == 1 ==> LineUp(dicr)
    ensures dicr / 0x8000 % 2 == 0 && dicr / 0x80_0000 % 2 == 0 ==> !LineUp(dicr)
  {
    NibblesAre();
    hide PowerOfTwo;
  }

  /** With the master switch on, raising an enabled channel's flag brings the line up, and no other bit is touched. */
  lemma FlagRaisesLine(dicr: U32, c: nat, j: nat)
    requires c < 7 && Bit(dicr, 23) && Bit(dicr, 16 + c)
    ensures LineUp(Flagged(dicr, c)) && Flagged(dicr, c) < 0x1_0000_0000
    ensures Bit(Flagged(dicr, c), j) == (j == 24 + c || Bit(dicr, j))
  {
    hide Flagged, PowerOfTwo;
    FlaggedBit(dicr, c, j);
    FlaggedBit(dicr, c, 23);
    FlaggedBit(dicr, c, 16 + c);
    FlaggedBit(dicr, c, 24 + c);
    assert Flagging(Flagged(dicr, c), c);
  }

  lemma FlaggedBit(dicr: U32, c: nat, j: nat)
    requires c < 7 && Bit(dicr, 16 + c)
    ensures Bit(Flagged(dicr, c), j) == (j == 24 + c || Bit(dicr, j))
  {
    hide PowerOfTwo;
    if !Bit(dicr, 24 + c) { BitPutUp(dicr, 24 + c, j); }
  }

  /** A channel whose completion is not enabled leaves the register alone. */
  lemma FlagKeptDown(dicr: U32, c: nat)
    requires c < 7 && !Bit(dicr, 16 + c)
    ensures Flagged(dicr, c) == dicr
  {
  }
}
