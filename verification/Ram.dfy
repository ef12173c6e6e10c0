/** Main memory: two megabytes of bytes, read and written as little-endian words. */
module Ram {
  import opened Words

  /** A RAM image. */
  type Image = s: seq<U8> | |s| == 0x20_0000 witness seq(0x20_0000, _ => 0)

  /** What RAM_ADDRESS_MASK keeps: inside two megabytes, and word-aligned. */
  function Masked(address: int): (at: U32)
    ensures at % 4 == 0 && at < 0x20_0000
  {
    address / 4 % 0x8_0000 * 4
  }

  /** The mask is a reduction: whole words may be added before it or after. */
  lemma MaskedAdd(a: int, words: int)
    ensures Masked(Masked(a) + 4 * words) == Masked(a + 4 * words)
  {
    assert (a + 4 * words) / 4 == a / 4 + words;
    assert (Masked(a) + 4 * words) / 4 == a / 4 % 0x8_0000 + words;
  }

  predicate Aligned(at: int) { 0 <= at < 0x20_0000 && at % 4 == 0 }

  function ReadWord(ram: Image, at: int): U32
    requires Aligned(at)
  {
    FromBytes(ram[at], ram[at + 1], ram[at + 2], ram[at + 3])
  }

  function WriteWord(ram: Image, at: int, value: U32): Image
    requires Aligned(at)
  {
    ram[at := Byte(value, 0)][at + 1 := Byte(value, 1)][at + 2 := Byte(value, 2)][at + 3 := Byte(value, 3)]
  }

  lemma WriteThenRead(ram: Image, at: int, value: U32, other: int)
    requires Aligned(at) && Aligned(other)
    ensures ReadWord(WriteWord(ram, at, value), other) == if other == at then value else ReadWord(ram, other)
  {
    BytesMakeWord(value);
    hide FromBytes, Byte;
    var after := WriteWord(ram, at, value);
    if other != at {
      assert after[other] == ram[other] && after[other + 1] == ram[other + 1] && after[other + 2] == ram[other + 2] && after[other + 3] == ram[other + 3];
    }
  }
}
