/** LWL, LWR, SWL and SWR: which bytes each of them moves, and the two halves of one word. */
module CpuUnaligned {
  import opened Words
  import opened Ram
  import opened Cpu

  /** What the CPU reaches: main memory, and outside it whatever answers a load, and the words stored there. */
  datatype Memory = Memory(ram: Image, cacheIsolated: bool, elsewhere: U32 -> U32, sent: seq<(U32, U32)>)

  /** KUSEG, KSEG0 and KSEG1 are windows onto the same memory; KSEG2 is not. */
  function Physical(address: U32): U32 {
    var region := address / 0x2000_0000;
    if region == 4 then address % 0x8000_0000 else if region == 5 then address % 0x2000_0000 else address
  }

  predicate InRam(address: U32) { Physical(address) < 0x20_0000 }

  function Aligned4(address: U32): (at: U32)
    ensures at % 4 == 0
  {
    address - address % 4
  }

  function LoadWord(memory: Memory, address: U32): U32
    requires address % 4 == 0
  {
    if InRam(address) then ReadWord(memory.ram, Physical(address)) else memory.elsewhere(address)
  }

  function StoreWord(memory: Memory, address: U32, value: U32): Memory
    requires address % 4 == 0
  {
    if InRam(address) then memory.(ram := WriteWord(memory.ram, Physical(address), value))
    else memory.(sent := memory.sent + [(address, value)])
  }

  // ---- shifts and masks by whole bytes ----

  function Scale(bytes: int): int
    requires 0 <= bytes <= 4
    ensures Scale(bytes) > 0
  {
    match bytes
    case 0 => 1
    case 1 => 0x100
    case 2 => 0x1_0000
    case 3 => 0x100_0000
    case _ => 0x1_0000_0000
  }

  function ShiftedUp(word: U32, bytes: int): U32 requires 0 <= bytes <= 4 { Times(word, Scale(bytes)) % 0x1_0000_0000 }

  function ShiftedDown(word: U32, bytes: int): U32 requires 0 <= bytes <= 4 { Times(word / Scale(bytes), 1) }

  function LowKept(word: U32, bytes: int): U32 requires 0 <= bytes <= 4 { Times(word % Scale(bytes), 1) }

  function HighKept(word: U32, bytes: int): U32 requires 0 <= bytes <= 4 { Times(word / Scale(4 - bytes), Scale(4 - bytes)) }

  /** `kept & ~(ALL_ONES << 8n) | word << 8n`; the two sides never overlap, so the bits add. */
  function UpperJoined(kept: U32, word: U32, bytes: int): U32
    requires 0 <= bytes < 4
  {
    UpperFits(kept, word, bytes);
    Times(LowKept(kept, bytes), 1) + ShiftedUp(word, bytes)
  }

  /** `kept & ~(ALL_ONES >> 8n) | word >> 8n`. */
  function LowerJoined(kept: U32, word: U32, bytes: int): U32
    requires 0 <= bytes < 4
  {
    LowerFits(kept, word, bytes);
    Times(HighKept(kept, bytes), 1) + ShiftedDown(word, bytes)
  }

  /** What a cut between two bytes leaves on each side. */
  lemma Cut(word: U32)
    ensures var a, b, c, d := Byte(word, 0), Byte(word, 1), Byte(word, 2), Byte(word, 3);
      && word % 0x100 == a && word / 0x100 == FromBytes(b, c, d, 0)
      && word % 0x1_0000 == FromBytes(a, b, 0, 0) && word / 0x1_0000 == FromBytes(c, d, 0, 0)
      && word % 0x100_0000 == FromBytes(a, b, c, 0) && word / 0x100_0000 == d
  {
    var a, b, c, d := Byte(word, 0), Byte(word, 1), Byte(word, 2), Byte(word, 3);
    BytesMakeWord(word);
    hide Byte;
    UniqueRemainder(word, 0x100, FromBytes(b, c, d, 0), a);
    UniqueRemainder(word, 0x1_0000, FromBytes(c, d, 0, 0), FromBytes(a, b, 0, 0));
    UniqueRemainder(word, 0x100_0000, d, FromBytes(a, b, c, 0));
  }

  /** What falls off the top is a whole number of turns. */
  lemma UpBytes(word: U32, bytes: int)
    requires 0 <= bytes < 4
    ensures var a, b, c, d := Byte(word, 0), Byte(word, 1), Byte(word, 2), Byte(word, 3);
      ShiftedUp(word, bytes) ==
        match bytes
        case 0 => word
        case 1 => FromBytes(0, a, b, c)
        case 2 => FromBytes(0, 0, a, b)
        case _ => FromBytes(0, 0, 0, a)
  {
    var a, b, c, d := Byte(word, 0), Byte(word, 1), Byte(word, 2), Byte(word, 3);
    BytesMakeWord(word);
    hide Byte;
    match bytes
    case 0 => UniqueRemainder(word, 0x1_0000_0000, 0, word);
    case 1 => UniqueRemainder(word * 0x100, 0x1_0000_0000, d, FromBytes(0, a, b, c));
    case 2 => UniqueRemainder(word * 0x1_0000, 0x1_0000_0000, FromBytes(c, d, 0, 0), FromBytes(0, 0, a, b));
    case _ => UniqueRemainder(word * 0x100_0000, 0x1_0000_0000, FromBytes(b, c, d, 0), FromBytes(0, 0, 0, a));
  }

  lemma UpperFits(kept: U32, word: U32, bytes: int)
    requires 0 <= bytes < 4
    ensures var a, b, c := Byte(kept, 0), Byte(kept, 1), Byte(kept, 2);
      LowKept(kept, bytes) + ShiftedUp(word, bytes) ==
        match bytes
        case 0 => word
        case 1 => FromBytes(a, Byte(word, 0), Byte(word, 1), Byte(word, 2))
        case 2 => FromBytes(a, b, Byte(word, 0), Byte(word, 1))
        case _ => FromBytes(a, b, c, Byte(word, 0))
  {
    Cut(kept);
    UpBytes(word, bytes);
    hide Byte, ShiftedUp;
  }

  lemma LowerFits(kept: U32, word: U32, bytes: int)
    requires 0 <= bytes < 4
    ensures var b, c, d := Byte(kept, 1), Byte(kept, 2), Byte(kept, 3);
      HighKept(kept, bytes) + ShiftedDown(word, bytes) ==
        match bytes
        case 0 => word
        case 1 => FromBytes(Byte(word, 1), Byte(word, 2), Byte(word, 3), d)
        case 2 => FromBytes(Byte(word, 2), Byte(word, 3), c, d)
        case _ => FromBytes(Byte(word, 3), b, c, d)
  {
    Cut(kept);
    Cut(word);
    hide Byte;
    assert bytes == 0 ==> kept / 0x1_0000_0000 == 0;
  }

  /** The shift and masks, byte by byte. */
  lemma UpperBytes(kept: U32, word: U32, n: int, i: int)
    requires 0 <= n < 4 && 0 <= i < 4
    ensures Byte(UpperJoined(kept, word, n), i) == if i < n then Byte(kept, i) else Byte(word, i - n)
  {
    hide LowKept, ShiftedUp, Byte, FromBytes;
    UpperFits(kept, word, n);
    var k0, k1, k2 := Byte(kept, 0), Byte(kept, 1), Byte(kept, 2);
    var w0, w1, w2 := Byte(word, 0), Byte(word, 1), Byte(word, 2);
    MakeBytes(k0, w0, w1, w2);
    MakeBytes(k0, k1, w0, w1);
    MakeBytes(k0, k1, k2, w0);
  }

  lemma LowerBytes(kept: U32, word: U32, n: int, i: int)
    requires 0 <= n < 4 && 0 <= i < 4
    ensures Byte(LowerJoined(kept, word, n), i) == if i < 4 - n then Byte(word, i + n) else Byte(kept, i)
  {
    hide HighKept, ShiftedDown, Byte, FromBytes;
    LowerFits(kept, word, n);
    var k1, k2, k3 := Byte(kept, 1), Byte(kept, 2), Byte(kept, 3);
    var w1, w2, w3 := Byte(word, 1), Byte(word, 2), Byte(word, 3);
    MakeBytes(w1, w2, w3, k3);
    MakeBytes(w2, w3, k2, k3);
    MakeBytes(w3, k1, k2, k3);
  }

  // ---- the four instructions ----

  function Address(bank: Bank, base: Register, offset: S16): U32 { ToU32(bank[base] + offset) }

  function LoadLeft(memory: Memory, at: U32, held: U32): U32 {
    UpperJoined(held, LoadWord(memory, Aligned4(at)), 3 - at % 4)
  }

  function LoadRight(memory: Memory, at: U32, held: U32): U32 {
    LowerJoined(held, LoadWord(memory, Aligned4(at)), at % 4)
  }

  function StoreLeft(memory: Memory, at: U32, value: U32): Memory {
    if memory.cacheIsolated then memory
    else StoreWord(memory, Aligned4(at), LowerJoined(LoadWord(memory, Aligned4(at)), value, 3 - at % 4))
  }

  function StoreRight(memory: Memory, at: U32, value: U32): Memory {
    if memory.cacheIsolated then memory
    else StoreWord(memory, Aligned4(at), UpperJoined(LoadWord(memory, Aligned4(at)), value, at % 4))
  }

  function Lwl(memory: Memory, base: Register, offset: S16, rt: Register): Turn<Memory> {
    Merging(rt, (bank: Bank, held: U32) => (LoadLeft(memory, Address(bank, base, offset), held), memory))
  }

  function Lwr(memory: Memory, base: Register, offset: S16, rt: Register): Turn<Memory> {
    Merging(rt, (bank: Bank, held: U32) => (LoadRight(memory, Address(bank, base, offset), held), memory))
  }

  function Swl(memory: Memory, base: Register, offset: S16, rt: Register): Turn<Memory> {
    Ordinary((bank: Bank) => (Nothing, StoreLeft(memory, Address(bank, base, offset), bank[rt])))
  }

  function Swr(memory: Memory, base: Register, offset: S16, rt: Register): Turn<Memory> {
    Ordinary((bank: Bank) => (Nothing, StoreRight(memory, Address(bank, base, offset), bank[rt])))
  }

  // ---- bytes in memory ----

  /** The word the four bytes from `i` on spell, wherever it starts. */
  function Unaligned(ram: Image, i: int): U32
    requires 0 <= i && i + 3 < 0x20_0000
  {
    FromBytes(ram[i], ram[i + 1], ram[i + 2], ram[i + 3])
  }

  function Replaced(ram: Image, i: int, value: U32): Image
    requires 0 <= i && i + 3 < 0x20_0000
  {
    ram[i := Byte(value, 0)][i + 1 := Byte(value, 1)][i + 2 := Byte(value, 2)][i + 3 := Byte(value, 3)]
  }

  lemma SameBytes(a: U32, b: U32)
    requires forall i :: 0 <= i < 4 ==> Byte(a, i) == Byte(b, i)
    ensures a == b
  {
    BytesMakeWord(a);
    BytesMakeWord(b);
    assert Byte(a, 0) == Byte(b, 0) && Byte(a, 1) == Byte(b, 1) && Byte(a, 2) == Byte(b, 2) && Byte(a, 3) == Byte(b, 3);
  }

  lemma UnalignedBytes(ram: Image, i: int, n: int)
    requires 0 <= i && i + 3 < 0x20_0000 && 0 <= n < 4
    ensures Byte(Unaligned(ram, i), n) == ram[i + n]
  {
    MakeBytes(ram[i], ram[i + 1], ram[i + 2], ram[i + 3]);
  }

  /** No window splits an aligned word, and RAM never reaches the end of one. */
  lemma WindowsKeepWords(at: U32)
    requires InRam(at)
    ensures InRam(Aligned4(at)) && Physical(Aligned4(at)) == Physical(at) - at % 4
    ensures Physical(at) % 4 == at % 4
    ensures Physical(at) + 3 < 0x20_0000 ==> at + 3 < 0x1_0000_0000 && Physical(at + 3) == Physical(at) + 3
  {
  }

  lemma WordsStayOut(at: U32)
    requires !InRam(at)
    ensures !InRam(Aligned4(at))
  {
  }

  function ByteAt(ram: Image, i: int): U8 { if 0 <= i < 0x20_0000 then ram[i] else 0 }

  lemma LoadedByte(memory: Memory, at: U32, n: int)
    requires InRam(at) && 0 <= n < 4
    ensures Byte(LoadWord(memory, Aligned4(at)), n) == ByteAt(memory.ram, Physical(at) - at % 4 + n)
  {
    WindowsKeepWords(at);
    UnalignedBytes(memory.ram, Physical(Aligned4(at)), n);
  }

  // ---- loading ----

  /** Either half, byte by byte: the left one takes bytes up to its address, the right one from it. */
  lemma LeftByte(memory: Memory, at: U32, held: U32, i: int)
    requires InRam(at) && 0 <= i < 4
    ensures Byte(LoadLeft(memory, at, held), i) == if i < 3 - at % 4 then Byte(held, i) else ByteAt(memory.ram, Physical(at) - 3 + i)
  {
    hide UpperJoined, Byte, LoadWord, Physical, Aligned4;
    var k := at % 4;
    WindowsKeepWords(at);
    var word := LoadWord(memory, Aligned4(at));
    assert LoadLeft(memory, at, held) == UpperJoined(held, word, 3 - k);
    hide LoadLeft;
    UpperBytes(held, word, 3 - k, i);
    if i >= 3 - k { LoadedByte(memory, at, i - 3 + k); }
  }

  lemma RightByte(memory: Memory, at: U32, held: U32, i: int)
    requires InRam(at) && 0 <= i < 4
    ensures Byte(LoadRight(memory, at, held), i) == if i < 4 - at % 4 then ByteAt(memory.ram, Physical(at) + i) else Byte(held, i)
  {
    hide LowerJoined, Byte, LoadWord, Physical, Aligned4;
    var k := at % 4;
    WindowsKeepWords(at);
    var word := LoadWord(memory, Aligned4(at));
    assert LoadRight(memory, at, held) == LowerJoined(held, word, k);
    hide LoadRight;
    LowerBytes(held, word, k, i);
    if i < 4 - k { LoadedByte(memory, at, i + k); }
  }

  lemma FarOffset(at: int)
    ensures (at + 3) % 4 == if at % 4 == 0 then 3 else at % 4 - 1
  {
  }

  lemma WholeByte(memory: Memory, at: U32, far: U32, held: U32, i: int)
    requires InRam(at) && InRam(far) && far == at + 3 && Physical(far) == Physical(at) + 3 && 0 <= i < 4
    ensures Byte(LoadRight(memory, at, LoadLeft(memory, far, held)), i) == memory.ram[Physical(at) + i]
    ensures Byte(LoadLeft(memory, far, LoadRight(memory, at, held)), i) == memory.ram[Physical(at) + i]
  {
    hide LoadLeft, LoadRight, Byte, Physical;
    FarOffset(at);
    LeftByte(memory, far, held, i);
    RightByte(memory, at, held, i);
    RightByte(memory, at, LoadLeft(memory, far, held), i);
    LeftByte(memory, far, LoadRight(memory, at, held), i);
  }

  /** In either order the two halves make the whole word, whatever was held before. */
  lemma HalvesMakeWord(memory: Memory, at: U32, far: U32, held: U32)
    requires InRam(at) && InRam(far) && far == at + 3 && Physical(far) == Physical(at) + 3
    ensures LoadRight(memory, at, LoadLeft(memory, far, held)) == Unaligned(memory.ram, Physical(at))
    ensures LoadLeft(memory, far, LoadRight(memory, at, held)) == Unaligned(memory.ram, Physical(at))
  {
    hide LoadLeft, LoadRight, Unaligned, Byte, Physical;
    var one, other := LoadRight(memory, at, LoadLeft(memory, far, held)), LoadLeft(memory, far, LoadRight(memory, at, held));
    var whole := Unaligned(memory.ram, Physical(at));
    forall i | 0 <= i < 4 ensures Byte(one, i) == Byte(whole, i) && Byte(other, i) == Byte(whole, i) {
      WholeByte(memory, at, far, held, i);
      UnalignedBytes(memory.ram, Physical(at), i);
    }
    SameBytes(one, whole);
    SameBytes(other, whole);
  }

  // ---- storing ----

  lemma WrittenByte(ram: Image, at: int, value: U32, j: int)
    requires Ram.Aligned(at) && 0 <= j < 0x20_0000
    ensures WriteWord(ram, at, value)[j] == if at <= j < at + 4 then Byte(value, j - at) else ram[j]
  {
    hide Byte;
  }

  /** Byte by byte: SWL writes from its word's first byte to the one addressed, SWR from there to the last. */
  lemma StoredLeft(memory: Memory, at: U32, value: U32, j: int)
    requires InRam(at) && !memory.cacheIsolated && 0 <= j < 0x20_0000
    ensures var after := StoreLeft(memory, at, value);
      && after == memory.(ram := after.ram)
      && after.ram[j] == if Physical(at) - at % 4 <= j <= Physical(at) then Byte(value, j - Physical(at) + 3) else memory.ram[j]
  {
    hide LowerJoined, Byte, LoadWord, Physical, Aligned4, WriteWord;
    var k := at % 4;
    WindowsKeepWords(at);
    var start, kept := Physical(Aligned4(at)), LoadWord(memory, Aligned4(at));
    WrittenByte(memory.ram, start, LowerJoined(kept, value, 3 - k), j);
    if start <= j < start + 4 {
      LowerBytes(kept, value, 3 - k, j - start);
      LoadedByte(memory, at, j - start);
    }
  }

  lemma StoredRight(memory: Memory, at: U32, value: U32, j: int)
    requires InRam(at) && !memory.cacheIsolated && 0 <= j < 0x20_0000
    ensures var after := StoreRight(memory, at, value);
      && after == memory.(ram := after.ram)
      && after.ram[j] == if Physical(at) <= j < Physical(at) - at % 4 + 4 then Byte(value, j - Physical(at)) else memory.ram[j]
  {
    hide UpperJoined, Byte, LoadWord, Physical, Aligned4, WriteWord;
    var k := at % 4;
    WindowsKeepWords(at);
    var start, kept := Physical(Aligned4(at)), LoadWord(memory, Aligned4(at));
    WrittenByte(memory.ram, start, UpperJoined(kept, value, k), j);
    if start <= j < start + 4 {
      UpperBytes(kept, value, k, j - start);
      LoadedByte(memory, at, j - start);
    }
  }

  lemma ReplacedByte(ram: Image, i: int, value: U32, j: int)
    requires 0 <= i && i + 3 < 0x20_0000 && 0 <= j < 0x20_0000
    ensures Replaced(ram, i, value)[j] == if i <= j < i + 4 then Byte(value, j - i) else ram[j]
  {
    hide Byte;
  }

  /** What a word stored this way reads back as, and what storing a word already there does. */
  lemma ReplaceRoundTrip(ram: Image, i: int, value: U32)
    requires 0 <= i && i + 3 < 0x20_0000
    ensures Unaligned(Replaced(ram, i, value), i) == value
    ensures Replaced(ram, i, Unaligned(ram, i)) == ram
  {
    BytesMakeWord(value);
    MakeBytes(ram[i], ram[i + 1], ram[i + 2], ram[i + 3]);
    hide Byte;
  }

  // ---- the windows ----

  /** The three windows' addresses of one place: the user's own, cached and uncached. */
  predicate SamePlace(at: U32, address: U32) { at < 0x2000_0000 && (address == at || address == 0x8000_0000 + at || address == 0xA000_0000 + at) }

  /** All three reach the same place, and no address outside them is moved. */
  lemma WindowsMeet(at: U32, address: U32)
    ensures SamePlace(at, address) ==> Physical(address) == at && address % 4 == at % 4
    ensures address >= 0x2000_0000 && !(0x8000_0000 <= address < 0xC000_0000) ==> Physical(address) == address
  {
  }

  /** So a word stored in main memory through any window is read back through any, and no other word of it has changed. */
  lemma StoredThroughWindows(memory: Memory, at: U32, store: U32, load: U32, value: U32, other: U32, look: U32)
    requires at % 4 == 0 && at < 0x20_0000 && SamePlace(at, store) && SamePlace(at, load)
    requires other % 4 == 0 && other < 0x20_0000 && other != at && SamePlace(other, look)
    ensures store % 4 == 0 && load % 4 == 0 && look % 4 == 0
    ensures LoadWord(StoreWord(memory, store, value), load) == value
    ensures LoadWord(StoreWord(memory, store, value), look) == LoadWord(memory, look)
  {
    WindowsMeet(at, store);
    WindowsMeet(at, load);
    WindowsMeet(other, look);
    WriteThenRead(memory.ram, at, value, at);
    WriteThenRead(memory.ram, at, value, other);
    hide SamePlace, Physical, ReadWord, WriteWord;
  }
}
