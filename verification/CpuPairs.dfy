/** Two halves of an unaligned access in a row: exactly when they load, or store, the word. */
module CpuPairs {
  import opened Words
  import opened Ram
  import opened Cpu
  import opened CpuUnaligned

  // ---- a pair of loads, run through the pipeline ----

  /** Between two instructions of a run: see Cpu.Tells. */
  predicate Settled(p: Pipe) { p.outRegs == p.regs && p.regs[0] == 0 }

  /** An address whose four bytes are main memory, and an offset that leaves room for the other half's. */
  predicate Reaches(p: Pipe, base: Register, offset: S16) {
    offset + 3 < 0x8000 && Physical(Address(p.regs, base, offset)) + 3 < 0x20_0000
  }

  lemma FarAddress(p: Pipe, base: Register, offset: S16)
    requires Reaches(p, base, offset)
    ensures offset + 3 < 0x8000
    ensures var at := Address(p.regs, base, offset);
      && Address(p.regs, base, offset + 3) == at + 3
      && InRam(at) && InRam(at + 3) && Physical(at + 3) == Physical(at) + 3
  {
    hide Physical;
    var at := Address(p.regs, base, offset);
    WindowsKeepWords(at);
    var sum: int := p.regs[base] + offset;
    UniqueRemainder(sum + 3, 0x1_0000_0000, sum / 0x1_0000_0000, at + 3);
  }

  lemma LwlStep(p: Pipe, memory: Memory, base: Register, offset: S16, rt: Register)
    ensures Step(p, Lwl(memory, base, offset, rt)) ==
            (Executed(p, Loads(rt, LoadLeft(memory, Address(p.regs, base, offset), Landed(p)[rt]))), memory)
  {
  }

  lemma LwrStep(p: Pipe, memory: Memory, base: Register, offset: S16, rt: Register)
    ensures Step(p, Lwr(memory, base, offset, rt)) ==
            (Executed(p, Loads(rt, LoadRight(memory, Address(p.regs, base, offset), Landed(p)[rt]))), memory)
  {
  }

  /**
    `word` is about to land in rt: every instruction that leaves rt alone has it
    read from then on. Nothing else was disturbed, and rt itself reads as before.
   */
  ghost predicate Delivers(p: Pipe, q: Pipe, rt: Register, word: U32) {
    && Settled(q) && q.loadReg == rt && q.loadValue == word
    && q.regs == Landed(p)[rt := q.regs[rt]]
    && forall effect: Effect :: !Touches(effect, rt) ==> Executed(q, effect).regs[rt] == word
  }

  /**
    The bank the second of two loads to rt takes its base from. A load pending before
    them has landed by then, unless it was for rt, which the first of the two put off.
   */
  function BaseBank(p: Pipe, base: Register, rt: Register): Bank { if base == rt then p.regs else Landed(p) }

  /** Two loads in a row to one register: the second sees the first in flight, and nobody reads it. */
  lemma TwoLoads(p: Pipe, base: Register, rt: Register, first: U32, second: U32)
    requires Settled(p) && rt != 0
    ensures var one := Executed(p, Loads(rt, first));
      && one.regs[base] == BaseBank(p, base, rt)[base] && Landed(one)[rt] == first
      && Delivers(p, Executed(one, Loads(rt, second)), rt, second)
  {
    var one := Executed(p, Loads(rt, first));
    var two := Executed(one, Loads(rt, second));
    assert two.regs == Landed(p)[rt := two.regs[rt]];
  }

  /** LWL a+3 then LWR a, with nothing between, leave memory alone and deliver the word at a. */
  ghost predicate LeftRightDelivers(p: Pipe, memory: Memory, base: Register, offset: S16, rt: Register)
    requires Reaches(p, base, offset)
  {
    var (one, between) := Step(p, Lwl(memory, base, offset + 3, rt));
    var (two, after) := Step(one, Lwr(between, base, offset, rt));
    after == memory && Delivers(p, two, rt, Unaligned(memory.ram, Physical(Address(p.regs, base, offset))))
  }

  ghost predicate RightLeftDelivers(p: Pipe, memory: Memory, base: Register, offset: S16, rt: Register)
    requires Reaches(p, base, offset)
  {
    var (one, between) := Step(p, Lwr(memory, base, offset, rt));
    var (two, after) := Step(one, Lwl(between, base, offset + 3, rt));
    after == memory && Delivers(p, two, rt, Unaligned(memory.ram, Physical(Address(p.regs, base, offset))))
  }

  lemma LeftRightRuns(p: Pipe, memory: Memory, base: Register, offset: S16, rt: Register)
    requires Settled(p) && rt != 0 && Reaches(p, base, offset)
    ensures var at, second := Address(p.regs, base, offset), Address(BaseBank(p, base, rt), base, offset);
      at + 3 < 0x1_0000_0000 && Physical(at) + 3 < 0x20_0000 &&
      (LeftRightDelivers(p, memory, base, offset, rt) <==>
        LoadRight(memory, second, LoadLeft(memory, at + 3, Landed(p)[rt])) == Unaligned(memory.ram, Physical(at)))
  {
    hide LoadLeft, LoadRight, Unaligned, Physical, Executed, Landed, Step, Lwl, Lwr, BaseBank;
    var at, second := Address(p.regs, base, offset), Address(BaseBank(p, base, rt), base, offset);
    FarAddress(p, base, offset);
    var left := LoadLeft(memory, at + 3, Landed(p)[rt]);
    LwlStep(p, memory, base, offset + 3, rt);
    TwoLoads(p, base, rt, left, LoadRight(memory, second, left));
    LwrStep(Executed(p, Loads(rt, left)), memory, base, offset, rt);
  }

  lemma RightLeftRuns(p: Pipe, memory: Memory, base: Register, offset: S16, rt: Register)
    requires Settled(p) && rt != 0 && Reaches(p, base, offset)
    ensures var at, second := Address(p.regs, base, offset), Address(BaseBank(p, base, rt), base, offset + 3);
      Physical(at) + 3 < 0x20_0000 &&
      (RightLeftDelivers(p, memory, base, offset, rt) <==>
        LoadLeft(memory, second, LoadRight(memory, at, Landed(p)[rt])) == Unaligned(memory.ram, Physical(at)))
  {
    hide LoadLeft, LoadRight, Unaligned, Physical, Executed, Landed, Step, Lwl, Lwr, BaseBank;
    var at, second := Address(p.regs, base, offset), Address(BaseBank(p, base, rt), base, offset + 3);
    FarAddress(p, base, offset);
    var right := LoadRight(memory, at, Landed(p)[rt]);
    LwrStep(p, memory, base, offset, rt);
    TwoLoads(p, base, rt, right, LoadLeft(memory, second, right));
    LwlStep(Executed(p, Loads(rt, right)), memory, base, offset + 3, rt);
  }

  /** Only the physical address matters to either half. */
  lemma SamePlace(memory: Memory, at: U32, other: U32, held: U32)
    requires InRam(at) && Physical(other) == Physical(at)
    ensures LoadLeft(memory, other, held) == LoadLeft(memory, at, held)
    ensures LoadRight(memory, other, held) == LoadRight(memory, at, held)
  {
    WindowsKeepWords(at);
    WindowsKeepWords(other);
    hide Physical, Aligned4, UpperJoined, LowerJoined, ReadWord;
  }

  /** Three bytes on, two addresses name one place exactly when they did before. */
  lemma ThreeOn(at: U32, other: U32, far: U32)
    requires Physical(at) + 3 < 0x20_0000 && far == (other + 3) % 0x1_0000_0000
    ensures Physical(far) == Physical(at) + 3 <==> Physical(other) == Physical(at)
  {
    hide Physical;
    NamesOf(other, Physical(at));
    NamesOf(far, Physical(at) + 3);
  }

  /** The three addresses of a byte of main memory. */
  lemma NamesOf(address: U32, i: nat)
    requires i < 0x20_0000
    ensures Physical(address) == i <==> address == i || address == i + 0x8000_0000 || address == i + 0xA000_0000
  {
  }

  /** Memory with a single byte that is not zero. */
  function Lone(i: nat): Memory
    requires i < 0x20_0000
  {
    Memory(seq(0x20_0000, j => if j == i then 1 else 0), false, _ => 0, [])
  }

  lemma LoneByte(i: nat, at: U32)
    requires i < 0x20_0000
    ensures Byte(LoadWord(Lone(i), Aligned4(at)), at % 4) == if Physical(at) == i then 1 else 0
  {
    if InRam(at) {
      LoadedByte(Lone(i), at, at % 4);
    } else {
      WordsStayOut(at);
    }
  }

  /** What the second half takes from its own address: its lowest byte, or its highest. */
  lemma LoneHalves(i: nat, at: U32, held: U32)
    requires i < 0x20_0000
    ensures Byte(LoadRight(Lone(i), at, held), 0) == if Physical(at) == i then 1 else 0
    ensures Byte(LoadLeft(Lone(i), at, held), 3) == if Physical(at) == i then 1 else 0
  {
    hide Byte, Physical, LoadWord, Aligned4, Lone, UpperJoined, LowerJoined;
    LoneByte(i, at);
    var word := LoadWord(Lone(i), Aligned4(at));
    LowerBytes(held, word, at % 4, 0);
    UpperBytes(held, word, 3 - at % 4, 3);
  }

  /**
    LWL a+3 then LWR a deliver the unaligned word to rt, out of any memory, exactly
    when rt is the base or the base, with any pending load landed, still names the
    place it did.
   */
  lemma LeftThenRight(p: Pipe, base: Register, offset: S16, rt: Register)
    requires Settled(p) && rt != 0 && Reaches(p, base, offset)
    ensures (forall memory :: LeftRightDelivers(p, memory, base, offset, rt)) <==>
      base == rt || Physical(Address(Landed(p), base, offset)) == Physical(Address(p.regs, base, offset))
  {
    hide LoadLeft, LoadRight, Unaligned, Physical, Address, Reaches, Landed, LeftRightDelivers, Byte, InRam, Lone;
    var at, second := Address(p.regs, base, offset), Address(BaseBank(p, base, rt), base, offset);
    var held := Landed(p)[rt];
    FarAddress(p, base, offset);
    if Physical(second) == Physical(at) {
      forall memory
        ensures LeftRightDelivers(p, memory, base, offset, rt)
      {
        LeftRightRuns(p, memory, base, offset, rt);
        SamePlace(memory, at, second, LoadLeft(memory, at + 3, held));
        HalvesMakeWord(memory, at, at + 3, held);
      }
    } else {
      var memory := LoneAt(at);
      LeftRightRuns(p, memory, base, offset, rt);
      LoneHalves(Physical(at), second, LoadLeft(memory, at + 3, held));
      LoneWord(at);
      assert !LeftRightDelivers(p, memory, base, offset, rt);
    }
  }

  /** The other order, and the same condition. */
  lemma RightThenLeft(p: Pipe, base: Register, offset: S16, rt: Register)
    requires Settled(p) && rt != 0 && Reaches(p, base, offset)
    ensures (forall memory :: RightLeftDelivers(p, memory, base, offset, rt)) <==>
      base == rt || Physical(Address(Landed(p), base, offset)) == Physical(Address(p.regs, base, offset))
  {
    hide LoadLeft, LoadRight, Unaligned, Physical, Address, Landed, RightLeftDelivers, Byte, Lone;
    FarAddress(p, base, offset);
    var at, second := Address(p.regs, base, offset), Address(BaseBank(p, base, rt), base, offset + 3);
    var held := Landed(p)[rt];
    FarOf(BaseBank(p, base, rt), base, offset);
    ThreeOn(at, Address(BaseBank(p, base, rt), base, offset), second);
    if Physical(second) == Physical(at) + 3 {
      forall memory
        ensures RightLeftDelivers(p, memory, base, offset, rt)
      {
        RightLeftRuns(p, memory, base, offset, rt);
        SamePlace(memory, at + 3, second, LoadRight(memory, at, held));
        HalvesMakeWord(memory, at, at + 3, held);
      }
    } else {
      var memory := LoneAt(at + 3);
      RightLeftRuns(p, memory, base, offset, rt);
      LoneHalves(Physical(at) + 3, second, LoadRight(memory, at, held));
      LoneWord(at);
      assert !RightLeftDelivers(p, memory, base, offset, rt);
    }
  }

  function LoneAt(at: U32): Memory
    requires InRam(at)
  {
    Lone(Physical(at))
  }

  lemma LoneWord(at: U32)
    requires Physical(at) + 3 < 0x20_0000
    ensures Byte(Unaligned(Lone(Physical(at)).ram, Physical(at)), 0) == 1
    ensures Byte(Unaligned(Lone(Physical(at) + 3).ram, Physical(at)), 3) == 1
  {
    hide Unaligned, Physical, Byte;
    UnalignedBytes(Lone(Physical(at)).ram, Physical(at), 0);
    UnalignedBytes(Lone(Physical(at) + 3).ram, Physical(at), 3);
  }

  lemma FarOf(bank: Bank, base: Register, offset: S16)
    requires offset + 3 < 0x8000
    ensures Address(bank, base, offset + 3) == (Address(bank, base, offset) + 3) % 0x1_0000_0000
  {
    var sum: int := bank[base] + offset;
    WrapTurns(sum % 0x1_0000_0000 + 3, sum / 0x1_0000_0000);
    assert sum + 3 == sum % 0x1_0000_0000 + 3 + sum / 0x1_0000_0000 * 0x1_0000_0000;
  }

  /** An instance: with a load of 4 pending for the base the second half reads from 4, not from the word at 0. */
  lemma BaseMustHold(memory: Memory)
    requires memory.ram[0] != memory.ram[4]
    ensures var p := Pipe(Cleared().regs, Cleared().regs, 1, 4);
      Settled(p) && Reaches(p, 1, 0) && !LeftRightDelivers(p, memory, 1, 0, 2)
  {
    hide LoadLeft, LoadRight, Unaligned, Byte;
    var p := Pipe(Cleared().regs, Cleared().regs, 1, 4);
    LeftRightRuns(p, memory, 1, 0, 2);
    RightByte(memory, 4, LoadLeft(memory, 3, Landed(p)[2]), 0);
    UnalignedBytes(memory.ram, 0, 0);
  }

  // ---- what a pair of stores writes ----

  function Stored(memory: Memory, i: int, value: U32): Memory
    requires 0 <= i && i + 3 < 0x20_0000
  {
    if memory.cacheIsolated then memory else memory.(ram := Replaced(memory.ram, i, value))
  }

  /** Two addresses three apart, whose four bytes are all main memory. */
  predicate Spans(at: U32, far: U32) { far == at + 3 && Physical(at) + 3 < 0x20_0000 && Physical(far) == Physical(at) + 3 }

  /** A byte after both halves: the second one's where it reached, the first one's where only that did. */
  lemma AfterLeftRight(memory: Memory, far: U32, first: U32, second: U32, value: U32, j: int)
    requires InRam(far) && InRam(second) && !memory.cacheIsolated && 0 <= j < 0x20_0000
    ensures var after := StoreRight(StoreLeft(memory, far, first), second, value);
      && after == memory.(ram := after.ram)
      && after.ram[j] == if Physical(second) <= j < Physical(second) - second % 4 + 4 then Byte(value, j - Physical(second))
                         else if Physical(far) - far % 4 <= j <= Physical(far) then Byte(first, j - Physical(far) + 3)
                         else memory.ram[j]
  {
    hide StoreLeft, StoreRight, Byte, Physical;
    StoredLeft(memory, far, first, j);
    StoredRight(StoreLeft(memory, far, first), second, value, j);
  }

  lemma AfterRightLeft(memory: Memory, at: U32, first: U32, second: U32, value: U32, j: int)
    requires InRam(at) && InRam(second) && !memory.cacheIsolated && 0 <= j < 0x20_0000
    ensures var after := StoreLeft(StoreRight(memory, at, first), second, value);
      && after == memory.(ram := after.ram)
      && after.ram[j] == if Physical(second) - second % 4 <= j <= Physical(second) then Byte(value, j - Physical(second) + 3)
                         else if Physical(at) <= j < Physical(at) - at % 4 + 4 then Byte(first, j - Physical(at))
                         else memory.ram[j]
  {
    hide StoreLeft, StoreRight, Byte, Physical;
    StoredRight(memory, at, first, j);
    StoredLeft(StoreRight(memory, at, first), second, value, j);
  }

  /**
    SWR of `value` at `second` completes what SWL of `first` at a+3 began: it writes no byte
    but the four, all of them that are missing, and on any it writes it agrees with `first`.
    Only where SWL has written the whole word is there any choice of place.
   */
  predicate RightCompletes(at: U32, first: U32, second: U32, value: U32) {
    && InRam(second) && var s := Physical(second) - Physical(at);
    && 0 <= s <= second % 4 && (at % 4 != 0 ==> s == 0)
    && forall i :: 0 <= i < 4 - second % 4 ==> Byte(value, i) == Byte(first, i + s)
  }

  /** The same of SWL at `second`, after SWR at a has left the bytes up to a+3 to be written. */
  predicate LeftCompletes(far: U32, first: U32, second: U32, value: U32) {
    && InRam(second) && var s := Physical(far) - Physical(second);
    && 0 <= s <= 3 - second % 4 && (far % 4 != 3 ==> s == 0)
    && forall i :: 3 - second % 4 <= i < 4 ==> Byte(value, i) == Byte(first, i - s)
  }

  lemma CompletedRight(memory: Memory, at: U32, far: U32, first: U32, second: U32, value: U32)
    requires Spans(at, far) && !memory.cacheIsolated && RightCompletes(at, first, second, value)
    ensures StoreRight(StoreLeft(memory, far, first), second, value) == Stored(memory, Physical(at), first)
  {
    hide StoreLeft, StoreRight, Replaced, Byte, Physical;
    FarOffset(at);
    WindowsKeepWords(at);
    WindowsKeepWords(second);
    AfterLeftRight(memory, far, first, second, value, 0);
    var after, whole := StoreRight(StoreLeft(memory, far, first), second, value), Replaced(memory.ram, Physical(at), first);
    forall j | 0 <= j < 0x20_0000
      ensures after.ram[j] == whole[j]
    {
      AfterLeftRight(memory, far, first, second, value, j);
      ReplacedByte(memory.ram, Physical(at), first, j);
    }
    assert after.ram == whole;
  }

  lemma CompletedLeft(memory: Memory, at: U32, far: U32, first: U32, second: U32, value: U32)
    requires Spans(at, far) && !memory.cacheIsolated && LeftCompletes(far, first, second, value)
    ensures StoreLeft(StoreRight(memory, at, first), second, value) == Stored(memory, Physical(at), first)
  {
    hide StoreLeft, StoreRight, Replaced, Byte, Physical;
    FarOffset(at);
    WindowsKeepWords(at);
    WindowsKeepWords(second);
    AfterRightLeft(memory, at, first, second, value, 0);
    var after, whole := StoreLeft(StoreRight(memory, at, first), second, value), Replaced(memory.ram, Physical(at), first);
    forall j | 0 <= j < 0x20_0000
      ensures after.ram[j] == whole[j]
    {
      AfterRightLeft(memory, at, first, second, value, j);
      ReplacedByte(memory.ram, Physical(at), first, j);
    }
    assert after.ram == whole;
  }

  /** Memory that holds one byte all through. */
  function Filled(byte: U8): Memory { Memory(seq(0x20_0000, _ => byte), false, _ => 0, []) }

  function Unlike(a: U8, b: U8): (c: U8)
    ensures c != a && c != b
  {
    if a != 0 && b != 0 then 0 else if a != 1 && b != 1 then 1 else 2
  }

  lemma StoredOutside(memory: Memory, at: U32, value: U32)
    requires !InRam(at) && !memory.cacheIsolated
    ensures |StoreLeft(memory, at, value).sent| == |StoreRight(memory, at, value).sent| == |memory.sent| + 1
  {
    WordsStayOut(at);
  }

  /** What it takes for the pair to leave the four bytes, seen at the bytes that decide it. */
  lemma RightDecided(memory: Memory, at: U32, far: U32, first: U32, second: U32, value: U32)
    requires Spans(at, far) && InRam(second) && !memory.cacheIsolated
    requires memory.ram[Physical(at)] != Byte(first, 0) && memory.ram[Physical(second)] != Byte(value, 0)
    requires StoreRight(StoreLeft(memory, far, first), second, value) == Stored(memory, Physical(at), first)
    ensures RightCompletes(at, first, second, value)
  {
    hide StoreLeft, StoreRight, Replaced, Byte, Physical;
    FarOffset(at);
    WindowsKeepWords(at);
    WindowsKeepWords(second);
    var s := Physical(second) - Physical(at);
    DecidedRight(memory, at, far, first, second, value, Physical(second));
    DecidedRight(memory, at, far, first, second, value, Physical(at));
    forall i | 0 <= i < 4 - second % 4
      ensures Byte(value, i) == Byte(first, i + s)
    {
      DecidedRight(memory, at, far, first, second, value, Physical(second) + i);
    }
  }

  lemma DecidedRight(memory: Memory, at: U32, far: U32, first: U32, second: U32, value: U32, j: int)
    requires Spans(at, far) && InRam(second) && !memory.cacheIsolated && 0 <= j < 0x20_0000
    requires StoreRight(StoreLeft(memory, far, first), second, value) == Stored(memory, Physical(at), first)
    ensures (if Physical(at) <= j < Physical(at) + 4 then Byte(first, j - Physical(at)) else memory.ram[j]) ==
      if Physical(second) <= j < Physical(second) - second % 4 + 4 then Byte(value, j - Physical(second))
      else if Physical(far) - far % 4 <= j <= Physical(far) then Byte(first, j - Physical(far) + 3)
      else memory.ram[j]
  {
    hide StoreLeft, StoreRight, Replaced, Byte, Physical;
    AfterLeftRight(memory, far, first, second, value, j);
    ReplacedByte(memory.ram, Physical(at), first, j);
  }

  lemma LeftDecided(memory: Memory, at: U32, far: U32, first: U32, second: U32, value: U32)
    requires Spans(at, far) && InRam(second) && !memory.cacheIsolated
    requires memory.ram[Physical(far)] != Byte(first, 3) && memory.ram[Physical(second)] != Byte(value, 3)
    requires StoreLeft(StoreRight(memory, at, first), second, value) == Stored(memory, Physical(at), first)
    ensures LeftCompletes(far, first, second, value)
  {
    hide StoreLeft, StoreRight, Replaced, Byte, Physical;
    FarOffset(at);
    WindowsKeepWords(at);
    WindowsKeepWords(second);
    var s := Physical(far) - Physical(second);
    DecidedLeft(memory, at, far, first, second, value, Physical(second));
    DecidedLeft(memory, at, far, first, second, value, Physical(far));
    forall i | 3 - second % 4 <= i < 4
      ensures Byte(value, i) == Byte(first, i - s)
    {
      DecidedLeft(memory, at, far, first, second, value, Physical(second) - 3 + i);
    }
  }

  lemma DecidedLeft(memory: Memory, at: U32, far: U32, first: U32, second: U32, value: U32, j: int)
    requires Spans(at, far) && InRam(second) && !memory.cacheIsolated && 0 <= j < 0x20_0000
    requires StoreLeft(StoreRight(memory, at, first), second, value) == Stored(memory, Physical(at), first)
    ensures (if Physical(at) <= j < Physical(at) + 4 then Byte(first, j - Physical(at)) else memory.ram[j]) ==
      if Physical(second) - second % 4 <= j <= Physical(second) then Byte(value, j - Physical(second) + 3)
      else if Physical(at) <= j < Physical(at) - at % 4 + 4 then Byte(first, j - Physical(at))
      else memory.ram[j]
  {
    hide StoreLeft, StoreRight, Replaced, Byte, Physical;
    AfterRightLeft(memory, at, first, second, value, j);
    ReplacedByte(memory.ram, Physical(at), first, j);
  }

  /** Where the second half does not complete the first there is a memory that shows it. */
  lemma SpoiltRight(at: U32, far: U32, first: U32, second: U32, value: U32)
    requires Spans(at, far) && !RightCompletes(at, first, second, value)
    ensures var memory := Filled(Unlike(Byte(first, 0), Byte(value, 0)));
      StoreRight(StoreLeft(memory, far, first), second, value) != Stored(memory, Physical(at), first)
  {
    var memory := Filled(Unlike(Byte(first, 0), Byte(value, 0)));
    hide StoreLeft, StoreRight, Replaced, Byte, Physical, RightCompletes;
    if !InRam(second) {
      StoredLeft(memory, far, first, 0);
      StoredOutside(StoreLeft(memory, far, first), second, value);
    } else if StoreRight(StoreLeft(memory, far, first), second, value) == Stored(memory, Physical(at), first) {
      RightDecided(memory, at, far, first, second, value);
    }
  }

  lemma SpoiltLeft(at: U32, far: U32, first: U32, second: U32, value: U32)
    requires Spans(at, far) && !LeftCompletes(far, first, second, value)
    ensures var memory := Filled(Unlike(Byte(first, 3), Byte(value, 3)));
      StoreLeft(StoreRight(memory, at, first), second, value) != Stored(memory, Physical(at), first)
  {
    var memory := Filled(Unlike(Byte(first, 3), Byte(value, 3)));
    hide StoreLeft, StoreRight, Replaced, Byte, Physical, LeftCompletes;
    if !InRam(second) {
      StoredRight(memory, at, first, 0);
      StoredOutside(StoreRight(memory, at, first), second, value);
    } else if StoreLeft(StoreRight(memory, at, first), second, value) == Stored(memory, Physical(at), first) {
      LeftDecided(memory, at, far, first, second, value);
    }
  }

  // ---- the pair of stores, run through the pipeline ----

  lemma StoreSteps(p: Pipe, memory: Memory, base: Register, offset: S16, rt: Register)
    ensures Step(p, Swl(memory, base, offset, rt)) ==
            (Executed(p, Nothing), StoreLeft(memory, Address(p.regs, base, offset), p.regs[rt]))
    ensures Step(p, Swr(memory, base, offset, rt)) ==
            (Executed(p, Nothing), StoreRight(memory, Address(p.regs, base, offset), p.regs[rt]))
  {
  }

  /** After one of two stores any pending load has landed, and the other changes no register. */
  lemma TwoNothings(p: Pipe)
    ensures Executed(p, Nothing).regs == Landed(p)
    ensures Executed(Executed(p, Nothing), Nothing) == Pipe(Landed(p), Landed(p), 0, 0)
  {
    assert Landed(Executed(p, Nothing)) == Landed(p);
  }

  /** SWL a+3 then SWR a write the register to bytes a to a+3, or nothing with the cache isolated, and nothing else. */
  ghost predicate LeftRightStores(p: Pipe, memory: Memory, base: Register, offset: S16, rt: Register)
    requires Reaches(p, base, offset)
  {
    var (one, between) := Step(p, Swl(memory, base, offset + 3, rt));
    Step(one, Swr(between, base, offset, rt)) ==
      (Pipe(Landed(p), Landed(p), 0, 0), Stored(memory, Physical(Address(p.regs, base, offset)), p.regs[rt]))
  }

  ghost predicate RightLeftStores(p: Pipe, memory: Memory, base: Register, offset: S16, rt: Register)
    requires Reaches(p, base, offset)
  {
    var (one, between) := Step(p, Swr(memory, base, offset, rt));
    Step(one, Swl(between, base, offset + 3, rt)) ==
      (Pipe(Landed(p), Landed(p), 0, 0), Stored(memory, Physical(Address(p.regs, base, offset)), p.regs[rt]))
  }

  lemma StoresRun(p: Pipe, memory: Memory, base: Register, offset: S16, rt: Register)
    requires Reaches(p, base, offset)
    ensures var at, first, value := Address(p.regs, base, offset), p.regs[rt], Landed(p)[rt];
      && Spans(at, at + 3)
      && (LeftRightStores(p, memory, base, offset, rt) <==>
           StoreRight(StoreLeft(memory, at + 3, first), Address(Landed(p), base, offset), value) == Stored(memory, Physical(at), first))
      && (RightLeftStores(p, memory, base, offset, rt) <==>
           StoreLeft(StoreRight(memory, at, first), Address(Landed(p), base, offset + 3), value) == Stored(memory, Physical(at), first))
  {
    hide StoreLeft, StoreRight, Stored, Physical, Executed, Landed, Step, Swl, Swr, Address;
    var at, first := Address(p.regs, base, offset), p.regs[rt];
    FarAddress(p, base, offset);
    TwoNothings(p);
    StoreSteps(p, memory, base, offset, rt);
    StoreSteps(p, memory, base, offset + 3, rt);
    StoreSteps(Executed(p, Nothing), StoreLeft(memory, at + 3, first), base, offset, rt);
    StoreSteps(Executed(p, Nothing), StoreRight(memory, at, first), base, offset + 3, rt);
  }

  lemma IsolatedStores(memory: Memory, at: U32, value: U32)
    requires memory.cacheIsolated
    ensures StoreLeft(memory, at, value) == memory && StoreRight(memory, at, value) == memory
  {
  }

  /** Either order of stores is right in every memory exactly when the second half completes the first. */
  lemma PairStores(p: Pipe, base: Register, offset: S16, rt: Register)
    requires Reaches(p, base, offset)
    ensures offset + 3 < 0x8000
    ensures (forall memory :: LeftRightStores(p, memory, base, offset, rt)) <==>
      RightCompletes(Address(p.regs, base, offset), p.regs[rt], Address(Landed(p), base, offset), Landed(p)[rt])
    ensures (forall memory :: RightLeftStores(p, memory, base, offset, rt)) <==>
      LeftCompletes(Address(p.regs, base, offset + 3), p.regs[rt], Address(Landed(p), base, offset + 3), Landed(p)[rt])
  {
    hide StoreLeft, StoreRight, Physical, Landed, Address, LeftRightStores, RightLeftStores, RightCompletes, LeftCompletes, Byte, Spans, Filled;
    var at, first, value := Address(p.regs, base, offset), p.regs[rt], Landed(p)[rt];
    FarAddress(p, base, offset);
    var second, third := Address(Landed(p), base, offset), Address(Landed(p), base, offset + 3);
    forall memory: Memory
      ensures RightCompletes(at, first, second, value) ==> LeftRightStores(p, memory, base, offset, rt)
      ensures LeftCompletes(at + 3, first, third, value) ==> RightLeftStores(p, memory, base, offset, rt)
    {
      StoresRun(p, memory, base, offset, rt);
      EitherOrder(memory, at, first, second, third, value);
    }
    StoresRun(p, Filled(Unlike(Byte(first, 0), Byte(value, 0))), base, offset, rt);
    StoresRun(p, Filled(Unlike(Byte(first, 3), Byte(value, 3))), base, offset, rt);
    if !RightCompletes(at, first, second, value) { SpoiltRight(at, at + 3, first, second, value); }
    if !LeftCompletes(at + 3, first, third, value) { SpoiltLeft(at, at + 3, first, third, value); }
  }

  lemma EitherOrder(memory: Memory, at: U32, first: U32, second: U32, third: U32, value: U32)
    requires at + 3 < 0x1_0000_0000 && Spans(at, at + 3)
    ensures RightCompletes(at, first, second, value) ==>
      StoreRight(StoreLeft(memory, at + 3, first), second, value) == Stored(memory, Physical(at), first)
    ensures LeftCompletes(at + 3, first, third, value) ==>
      StoreLeft(StoreRight(memory, at, first), third, value) == Stored(memory, Physical(at), first)
  {
    hide StoreLeft, StoreRight, Physical, RightCompletes, LeftCompletes, Replaced;
    if memory.cacheIsolated {
      IsolatedStores(memory, at, first);
      IsolatedStores(memory, at + 3, first);
      IsolatedStores(memory, second, value);
      IsolatedStores(memory, third, value);
    } else {
      if RightCompletes(at, first, second, value) { CompletedRight(memory, at, at + 3, first, second, value); }
      if LeftCompletes(at + 3, first, third, value) { CompletedLeft(memory, at, at + 3, first, third, value); }
    }
  }

  /** With nothing pending for the base or rt the condition is met. */
  lemma NothingPending(p: Pipe, base: Register, offset: S16, rt: Register)
    requires Reaches(p, base, offset) && Landed(p)[base] == p.regs[base] && Landed(p)[rt] == p.regs[rt]
    ensures RightCompletes(Address(p.regs, base, offset), p.regs[rt], Address(Landed(p), base, offset), Landed(p)[rt])
    ensures offset + 3 < 0x8000 &&
      LeftCompletes(Address(p.regs, base, offset + 3), p.regs[rt], Address(Landed(p), base, offset + 3), Landed(p)[rt])
  {
    hide Physical, Byte;
    FarAddress(p, base, offset);
  }

  /** An instance of its failing: with a load of 1 pending for rt the two halves store different registers. */
  lemma ValueMustHold(memory: Memory)
    requires !memory.cacheIsolated
    ensures var p := Pipe(Cleared().regs, Cleared().regs, 2, 1);
      Settled(p) && Reaches(p, 1, 0) && !LeftRightStores(p, memory, 1, 0, 2) && !RightLeftStores(p, memory, 1, 0, 2)
  {
    hide StoreLeft, StoreRight, Replaced;
    var p := Pipe(Cleared().regs, Cleared().regs, 2, 1);
    StoresRun(p, memory, 1, 0, 2);
    hide LeftRightStores, RightLeftStores;
    AfterLeftRight(memory, 3, 0, 0, 1, 0);
    AfterRightLeft(memory, 0, 0, 3, 1, 0);
    ReplacedByte(memory.ram, 0, 0, 0);
  }

  /** Four instructions in a row: where the first two store the register, and the base keeps its place, the last two load it. */
  lemma StoreThenLoad(p: Pipe, memory: Memory, base: Register, offset: S16, rt: Register, rd: Register)
    requires Settled(p) && Reaches(p, base, offset) && !memory.cacheIsolated && rd != 0
    requires Physical(Address(Landed(p), base, offset)) == Physical(Address(p.regs, base, offset))
    requires LeftRightStores(p, memory, base, offset, rt)
    ensures offset + 3 < 0x8000
    ensures var (p1, m1) := Step(p, Swl(memory, base, offset + 3, rt));
      var (p2, m2) := Step(p1, Swr(m1, base, offset, rt));
      var (p3, m3) := Step(p2, Lwl(m2, base, offset + 3, rd));
      var (p4, m4) := Step(p3, Lwr(m3, base, offset, rd));
      m4 == m2 && Delivers(p2, p4, rd, p.regs[rt])
  {
    var at := Address(p.regs, base, offset);
    var q := Pipe(Landed(p), Landed(p), 0, 0);
    assert Settled(q) && Landed(q) == q.regs && Reaches(q, base, offset);
    var stored := Stored(memory, Physical(at), p.regs[rt]);
    LeftThenRight(q, base, offset, rd);
    assert LeftRightDelivers(q, stored, base, offset, rd);
    hide Unaligned, Physical, Address, Executed, Landed, Swl, Swr, Lwl, Lwr, Delivers;
    ReplaceRoundTrip(memory.ram, Physical(at), p.regs[rt]);
  }
}
