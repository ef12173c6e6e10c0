/** The controller itself: seven channels over one RAM, one turn to an event. */
module DmaController {
  import opened Words
  import opened Ram
  import opened Dma

  function Bit(x: U32, n: nat): bool { x / PowerOfTwo(n) % 2 == 1 }

  /** The controller's interrupt line: forced, or switched on with some enabled channel flagged. */
  predicate LineUp(dicr: U32) {
    Bit(dicr, 15) || (Bit(dicr, 23) && exists c :: 0 <= c < 7 && Flagging(dicr, c))
  }

  predicate Flagging(dicr: U32, c: nat) { Bit(dicr, 16 + c) && Bit(dicr, 24 + c) }

  /** Its DPCR enable and its CHCR enable are up, and for a channel 6 burst the trigger as well. */
  predicate Ready(dpcr: U32, ch: Channel, c: nat) {
    Bit(dpcr, c * 4 + 3) && Enabled(ch.control) && (ModeOf(ch.control).Manual? && c == OTC ==> Triggered(ch.control))
  }

  function PriorityOf(dpcr: U32, c: nat): nat { dpcr / PowerOfTwo(c * 4) % 8 }

  /** A candidate for the bus: ready, with its device asking. */
  predicate Wants(dpcr: U32, chans: seq<Channel>, asking: seq<bool>, c: int)
    requires |chans| == 7 && |asking| == 7
  {
    0 <= c < 7 && Ready(dpcr, chans[c], c) && asking[c]
  }

  /** No candidate has a better priority, and none of the same priority a higher number. */
  ghost predicate Wins(dpcr: U32, chans: seq<Channel>, asking: seq<bool>, winner: nat)
    requires |chans| == 7 && |asking| == 7
  {
    && Wants(dpcr, chans, asking, winner)
    && forall c: int :: Wants(dpcr, chans, asking, c) && c != winner ==>
         PriorityOf(dpcr, winner) < PriorityOf(dpcr, c) || (PriorityOf(dpcr, winner) == PriorityOf(dpcr, c) && c < winner)
  }

  const NO_CHANNEL := 7

  /** DICR with one channel's flag raised, if its enable lets it be. */
  function Flagged(dicr: U32, c: nat): U32
    requires c < 7
  {
    if Bit(dicr, 16 + c) && !Bit(dicr, 24 + c) then FlagFits(dicr, c); dicr + PowerOfTwo(24 + c) else dicr
  }

  lemma FlagFits(dicr: U32, c: nat)
    requires c < 7 && !Bit(dicr, 24 + c)
    ensures dicr + PowerOfTwo(24 + c) < 0x1_0000_0000
  {
    var p := PowerOfTwo(24 + c);
    PowersAre(24 + c);
    assert dicr == (dicr / p) * p + dicr % p;
  }

  lemma PowersAre(n: nat)
    requires 24 <= n < 31
    ensures PowerOfTwo(n) == [0x100_0000, 0x200_0000, 0x400_0000, 0x800_0000, 0x1000_0000, 0x2000_0000, 0x4000_0000][n - 24]
  {
    assert PowerOfTwo(4) == 16;
    assert PowerOfTwo(8) == 0x100;
    assert PowerOfTwo(12) == 0x1000;
    assert PowerOfTwo(16) == 0x1_0000;
    assert PowerOfTwo(20) == 0x10_0000;
    assert PowerOfTwo(24) == 0x100_0000;
    assert PowerOfTwo(27) == 0x800_0000;
  }

  /** What channel 6 keeps of a write to its CHCR. */
  function OtcWritten(word: U32): U32 { OtcBits(Enabled(word), Triggered(word), word / 0x4000_0000 % 2 == 1) }

  function OtcBits(enabled: bool, triggered: bool, other: bool): U32 {
    2 + (if enabled then 0x100_0000 else 0) + (if triggered then 0x1000_0000 else 0) + (if other then 0x4000_0000 else 0)
  }

  /** Whatever software writes, channel 6 stays an unchopped burst backwards into RAM. */
  lemma OtcCannotBeChanged(word: U32)
    ensures OtcControl(OtcWritten(word)) && OtcControl(2)
    ensures Enabled(OtcWritten(word)) == Enabled(word) && Triggered(OtcWritten(word)) == Triggered(word)
  {
    assert OtcBits(false, false, false) == 2;
    hide OtcBits, OtcControl, Enabled, Triggered;
    OtcBitsRead(false, false, false);
    OtcBitsRead(Enabled(word), Triggered(word), word / 0x4000_0000 % 2 == 1);
  }

  lemma OtcBitsRead(enabled: bool, triggered: bool, other: bool)
    ensures var x := OtcBits(enabled, triggered, other); OtcControl(x) && Enabled(x) == enabled && Triggered(x) == triggered
  {
    var x := OtcBits(enabled, triggered, other);
    if enabled {
      if triggered {
        if other { assert x == 0x5100_0002; } else { assert x == 0x1100_0002; }
      } else {
        if other { assert x == 0x4100_0002; } else { assert x == 0x100_0002; }
      }
    } else if triggered {
      if other { assert x == 0x5000_0002; } else { assert x == 0x1000_0002; }
    } else {
      if other { assert x == 0x4000_0002; } else { assert x == 2; }
    }
  }

  datatype Cost = Cost(hold: nat, gap: nat)

  function DeviceCyclesPerWord(c: nat): nat
    requires c < 7
  {
    [1, 1, 1, 24, 48, 20, 1][c]
  }

  function BlockCost(c: nat, words: nat): Cost
    requires c < 7
  {
    var hold, device := RamCycles(words), Times(words, DeviceCyclesPerWord(c));
    Cost(hold, if device > hold then device - hold else 0)
  }

  class Controller {
    const ram: array<U8>
    const channels: array<Channel>
    const devices: array<Device>
    var control: U32
    var interrupt: U32

    predicate Sized() { ram.Length == 0x20_0000 && channels.Length == 7 && devices.Length == 7 }

    predicate Valid()
      reads this, channels
    {
      Sized() && forall c :: 0 <= c < 7 ==> InProgress(channels[c])
    }

    /** As a reset leaves it, over the machine's RAM and whatever is plugged into it. */
    constructor (ram: array<U8>, devices: array<Device>)
      requires ram.Length == 0x20_0000 && devices.Length == 7
      ensures Valid() && this.ram == ram && this.devices == devices && fresh(channels)
      ensures control == 0x0765_4321 && interrupt == 0
      ensures forall c :: 0 <= c < 7 ==> channels[c] == Channel(0, 0, if c == OTC then 2 else 0, false, 0)
    {
      this.ram, this.devices := ram, devices;
      channels := new Channel[7](c => Channel(0, 0, if c == OTC then 2 else 0, false, 0));
      control, interrupt := 0x0765_4321, 0;
    }

    function WorldOf(c: nat): World
      requires Sized() && c < 7
      reads this, ram, channels, devices
    {
      World(channels[c], ram[..], devices[c])
    }

    method ReadRam(address: int) returns (word: U32)
      requires ram.Length == 0x20_0000
      ensures word == ReadWord(ram[..], Masked(address))
    {
      var offset := Masked(address);
      word := FromBytes(ram[offset], ram[offset + 1], ram[offset + 2], ram[offset + 3]);
    }

    method WriteRam(address: int, value: U32)
      requires ram.Length == 0x20_0000
      modifies ram
      ensures ram[..] == WriteWord(old(ram[..]), Masked(address), value)
    {
      hide Byte;
      var offset := Masked(address);
      ram[offset] := Byte(value, 0);
      ram[offset + 1] := Byte(value, 1);
      ram[offset + 2] := Byte(value, 2);
      ram[offset + 3] := Byte(value, 3);
    }

    method WriteToDevice(c: nat, word: U32)
      requires devices.Length == 7 && c < 7
      modifies devices
      ensures devices[..] == old(devices[..])[c := old(devices[c]).(sent := old(devices[c]).sent + [word])]
    {
      devices[c] := devices[c].(sent := devices[c].sent + [word]);
    }

    method ReadFromDevice(c: nat, address: U32, remaining: nat) returns (word: U32)
      requires devices.Length == 7 && c < 7
      modifies devices
      ensures word == if c == OTC then (if remaining == 1 then 0xFF_FFFF else Masked(address - 4)) else old(devices[c]).source(old(devices[c]).taken)
      ensures devices[..] == if c == OTC then old(devices[..]) else old(devices[..])[c := old(devices[c]).(taken := old(devices[c]).taken + 1)]
    {
      if c == OTC {
        if remaining == 1 {
          return 0xFF_FFFF;
        }
        return Masked(address - 4);
      }
      word := devices[c].source(devices[c].taken);
      devices[c] := devices[c].(taken := devices[c].taken + 1);
    }

    /** The loop over one run's words carries out exactly that run, on this channel and device alone. */
    method MoveWords(c: nat, words: nat)
      requires Sized() && c < 7
      modifies ram, channels, devices
      ensures var after := Carried(c, old(WorldOf(c)), words);
              && WorldOf(c) == after
              && channels[..] == old(channels[..])[c := after.ch] && devices[..] == old(devices[..])[c := after.device]
    {
      hide ReadWord, WriteWord, Masked;
      var settings := channels[c];
      ghost var start := Transfer(ram[..], Masked(settings.base), devices[c]);
      ghost var others := devices[..];
      var address: U32 := Masked(settings.base);
      AlignedKept(address);
      var remaining := words;
      while remaining > 0
        invariant Aligned(address) && 0 <= remaining <= words
        invariant Moved(c, settings.control, Transfer(ram[..], address, devices[c]), remaining) == Moved(c, settings.control, start, words)
        invariant devices[..] == others[c := devices[c]]
        invariant channels[..] == old(channels[..])
      {
        ghost var now := Transfer(ram[..], address, devices[c]);
        AlignedKept(address);
        if ToDevice(settings.control) {
          var word := ReadRam(address);
          WriteToDevice(c, word);
        } else {
          var word := ReadFromDevice(c, address, remaining);
          WriteRam(address, word);
        }
        address := Stepped(settings.control, address);
        assert Transfer(ram[..], address, devices[c]) == MoveOne(c, settings.control, now, remaining);
        remaining := remaining - 1;
      }
      channels[c] := settings.(base := address);
    }

    method StepManual(c: nat) returns (cost: Cost)
      requires Sized() && c < 7 && channels[c].running && ModeOf(channels[c].control).Manual?
      modifies ram, channels, devices
      ensures WorldOf(c) == ManualStep(c, old(WorldOf(c)))
      ensures channels[..] == old(channels[..])[c := channels[c]] && devices[..] == old(devices[..])[c := devices[c]]
      ensures cost.hold == RamCycles(Window(old(channels[c])))
    {
      hide Carried, ChopWords, PowerOfTwo;
      var chopped := Chopping(channels[c].control);
      var words := channels[c].remaining;
      if chopped {
        words := Min(words, ChopWords(channels[c].control));
      }
      ghost var before := WorldOf(c);
      CarriedKeeps(c, before, words);
      MoveWords(c, words);
      channels[c] := channels[c].(remaining := channels[c].remaining - words);
      cost := BlockCost(c, words);
      cost := cost.(gap := cost.gap + 5);
      if chopped && channels[c].remaining > 0 {
        cost := cost.(gap := cost.gap + ChopCpuCycles(channels[c].control));
      }
    }

    method StepRequest(c: nat) returns (cost: Cost)
      requires Sized() && c < 7 && channels[c].running && ModeOf(channels[c].control).Request? && channels[c].remaining <= 0x1_0000
      modifies ram, channels, devices
      ensures WorldOf(c) == RequestStep(c, old(WorldOf(c)))
      ensures channels[..] == old(channels[..])[c := channels[c]] && devices[..] == old(devices[..])[c := devices[c]]
      ensures cost.hold == if old(channels[c].remaining) == 0 then 0 else RamCycles(SizeOf(old(channels[c]).block))
    {
      hide Carried, SizeOf;
      if channels[c].remaining == 0 {
        return Cost(0, 0);
      }
      var words := SizeOf(channels[c].block);
      ghost var before := WorldOf(c);
      CarriedKeeps(c, before, words);
      MoveWords(c, words);
      var left := channels[c].remaining - 1;
      channels[c] := channels[c].(remaining := left, block := left * 0x1_0000 + channels[c].block % 0x1_0000);
      cost := BlockCost(c, words);
      cost := cost.(gap := cost.gap + 10);
    }

    /** The words of a node, after its header. */
    method SendPayload(c: nat, address: U32, words: nat)
      requires Sized() && c < 7
      modifies devices
      ensures devices[..] == old(devices[..])[c := old(devices[c]).(sent := old(devices[c]).sent + Payload(ram[..], address, words))]
    {
      hide ReadWord, Masked;
      ghost var image: Image := ram[..];
      ghost var device := devices[c];
      var index := 1;
      assert device.sent + Payload(image, address, 0) == device.sent;
      while index <= words
        invariant 1 <= index <= words + 1
        invariant devices[..] == old(devices[..])[c := device.(sent := device.sent + Payload(image, address, index - 1))]
      {
        var word := ReadRam(address + index * 4);
        WriteToDevice(c, word);
        assert device.sent + Payload(image, address, index) == device.sent + Payload(image, address, index - 1) + [word];
        index := index + 1;
      }
    }

    /**
      One slice of a walk, never empty. It stops for one of three reasons, and had none of them at any
      node before: the end marker, a hold of LIST_SLICE or more, or a device that no longer asks.
     */
    method StepLinkedList(c: nat, asks: nat -> bool) returns (cost: Cost, nodes: nat)
      requires Sized() && c < 7
      modifies channels, devices
      ensures nodes >= 1
      ensures var was, settings, device := old(ram[..]), old(channels[c]), old(devices[c]);
              var from := List(settings.base, device.sent, false);
              var to := Walk(was, from, nodes);
              && channels[..] == old(channels[..])[c := settings.(base := to.base, remaining := if to.done then 0 else 1)]
              && devices[..] == old(devices[..])[c := device.(sent := to.sent)]
              && cost.hold == WalkHold(was, from, nodes) && !Walk(was, from, nodes - 1).done
              && (!to.done ==> cost.hold >= LIST_SLICE || !asks(nodes))
              && (forall k :: 0 < k < nodes ==> asks(k) && WalkHold(was, from, k) < LIST_SLICE)
    {
      hide ReadWord, Masked, Followed, NodeHold;
      ghost var image: Image := ram[..];
      ghost var from := List(channels[c].base, devices[c].sent, false);
      var settings := channels[c];
      ghost var device := devices[c];
      var hold := 0;
      nodes := 0;
      assert Walk(image, from, 0) == from && WalkHold(image, from, 0) == 0;
      hide Walk, WalkHold, Payload, PayloadOf, IsEnd, RamCycles;
      while hold < LIST_SLICE
        invariant nodes == 0 ==> hold == 0
        invariant var l := Walk(image, from, nodes);
                  !l.done && devices[..] == old(devices[..])[c := device.(sent := l.sent)] && settings == old(channels[c]).(base := l.base)
        invariant hold == WalkHold(image, from, nodes)
        invariant forall k :: 0 < k < nodes ==> asks(k) && WalkHold(image, from, k) < LIST_SLICE
        invariant nodes > 0 ==> asks(nodes) && !Walk(image, from, nodes - 1).done
        invariant channels[..] == old(channels[..])
        decreases LIST_SLICE - hold
      {
        ghost var l := Walk(image, from, nodes);
        var address := Masked(settings.base);
        AlignedKept(address);
        var header := ReadRam(address);
        var words := PayloadOf(header);
        SendPayload(c, address, words);
        hold := hold + RamCycles(words + 1) + 1;
        WalkExtends(image, from, nodes);
        NodeIs(image, l);
        nodes := nodes + 1;
        assert !Walk(image, from, nodes - 1).done;
        if IsEnd(header) {
          channels[c] := settings.(base := 0xFF_FFFF, remaining := 0);
          return Cost(hold, 0), nodes;
        }
        settings := settings.(base := header % 0x100_0000);
        if !asks(nodes) {
          break;
        }
      }
      channels[c] := settings.(remaining := 1);
      cost := Cost(hold, hold * 4 / 3);
    }

    method Arbitrate(asking: seq<bool>) returns (winner: nat)
      requires Sized() && |asking| == 7
      ensures winner <= NO_CHANNEL
      ensures winner == NO_CHANNEL ==> forall c: int :: !Wants(control, channels[..], asking, c)
      ensures winner != NO_CHANNEL ==> Wins(control, channels[..], asking, winner)
    {
      hide Ready, PriorityOf;
      winner := NO_CHANNEL;
      var winning := 0;
      for index := 0 to 7
        invariant winner == NO_CHANNEL || winner < index
        invariant winner == NO_CHANNEL ==> forall c: int :: c < index ==> !Wants(control, channels[..], asking, c)
        invariant winner != NO_CHANNEL ==> winning == PriorityOf(control, winner) && Wants(control, channels[..], asking, winner)
        invariant winner != NO_CHANNEL ==>
                    forall c: int :: c < index && Wants(control, channels[..], asking, c) && c != winner ==>
                      winning < PriorityOf(control, c) || (winning == PriorityOf(control, c) && c < winner)
      {
        if Ready(control, channels[index], index) && asking[index] {
          var priority := PriorityOf(control, index);
          if winner == NO_CHANNEL || priority <= winning {
            winner := index;
            winning := priority;
          }
        }
      }
    }

    /** Raises the channel's flag if DICR enables it; true only for the flag that takes the line from down to up. */
    method Complete(c: nat) returns (raised: bool)
      requires c < 7
      modifies this`interrupt
      ensures interrupt == Flagged(old(interrupt), c)
      ensures raised <==> !LineUp(old(interrupt)) && LineUp(interrupt)
    {
      hide Bit;
      if !Bit(interrupt, 16 + c) {
        return false;
      }
      var wasActive := LineUp(interrupt);
      interrupt := Flagged(interrupt, c);
      raised := !wasActive && LineUp(interrupt);
    }

    method WriteControl(c: nat, word: U32)
      requires Sized() && c < 7
      modifies channels
      ensures var kept := if c == OTC then OtcWritten(word) else word;
              var was := old(channels[c]);
              channels[..] == old(channels[..])[c := if Enabled(kept) then was.(control := kept) else was.(control := kept, running := false, remaining := 0)]
      ensures old(Valid()) ==> Valid()
    {
      var ch := channels[c].(control := word);
      if c == OTC {
        ch := ch.(control := OtcWritten(word));
      }
      if !Enabled(ch.control) {
        ch := ch.(running := false, remaining := 0);
      }
      channels[c] := ch;
    }

    /**
      One event: a single turn for the channel that wins arbitration, with every other channel, device and
      flag as it was, and at least a cycle until the next.
     */
    method Event(asking: seq<bool>, asks: nat -> bool, backlog: nat) returns (winner: nat, raised: bool, spent: nat, nodes: nat)
      requires Valid() && |asking| == 7
      modifies this`interrupt, ram, channels, devices
      ensures Valid() && spent >= 1
      ensures winner == NO_CHANNEL ==>
                && (forall c: int :: !Wants(control, old(channels[..]), asking, c)) && !raised && interrupt == old(interrupt)
                && ram[..] == old(ram[..]) && channels[..] == old(channels[..]) && devices[..] == old(devices[..])
      ensures winner != NO_CHANNEL ==>
                && Wins(control, old(channels[..]), asking, winner)
                && channels[..] == old(channels[..])[winner := channels[winner]] && devices[..] == old(devices[..])[winner := devices[winner]]
                && (if ModeOf(old(channels[winner]).control).LinkedList? then nodes >= 1 && WorldOf(winner) == ListTurn(old(WorldOf(winner)), nodes)
                    else WorldOf(winner) == Turn(winner, old(WorldOf(winner))))
                && interrupt == (if channels[winner].running then old(interrupt) else Flagged(old(interrupt), winner))
                && (raised <==> !LineUp(old(interrupt)) && LineUp(interrupt))
    {
      hide ManualStep, RequestStep, Ready, PriorityOf, LineUp, Flagged, Walk, WalkHold, Bit, Wants, Finished;
      raised, nodes := false, 0;
      winner := Arbitrate(asking);
      assert channels[..] == old(channels[..]);
      if winner == NO_CHANNEL {
        spent := 64;
        return;
      }
      ghost var before := WorldOf(winner);
      if !channels[winner].running {
        channels[winner] := Begun(channels[winner]);
      }
      ghost var begun := WorldOf(winner);
      var cost;
      match ModeOf(channels[winner].control) {
        case Manual =>
          cost := StepManual(winner);
        case Request =>
          cost := StepRequest(winner);
        case LinkedList =>
          cost, nodes := StepLinkedList(winner, asks);
      }
      if channels[winner].remaining == 0 {
        channels[winner] := channels[winner].(control := Finished(channels[winner].control), running := false, remaining := 0);
        raised := Complete(winner);
      }
      spent := Max(cost.hold + cost.gap + backlog, 1);
    }
  }

  lemma NodeIs(ram: Image, l: List)
    ensures var header := ReadWord(ram, Masked(l.base));
            && Followed(ram, l) == List(if IsEnd(header) then 0xFF_FFFF else header % 0x100_0000, l.sent + Payload(ram, Masked(l.base), PayloadOf(header)), IsEnd(header))
            && NodeHold(ram, l.base) == RamCycles(PayloadOf(header) + 1) + 1
  {
  }
}
