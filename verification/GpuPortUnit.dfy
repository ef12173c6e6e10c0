/** The port as the GPU keeps it: VRAM in place, a transfer counted down, a command collected word by word. */
module GpuPortUnit {
  import opened Words
  import opened GpuPort

  class Gpu {
    const vram: array<U16>
    var mode: Mode
    var transfer: Transfer
    var maskSetting: nat
    var gpureadLatch: U32
    const command: array<U32>
    var commandWords: nat

    ghost predicate Shaped()
      reads this
    {
      vram.Length == 0x8_0000 && command.Length == 16 && commandWords <= 16
    }

    ghost function Port(): Port
      requires Shaped()
      reads this, command
    {
      GpuPort.Port(mode, transfer, maskSetting, gpureadLatch, command[..commandWords])
    }

    ghost predicate Valid()
      reads this, command
    {
      Shaped() && GpuPort.Valid(Port())
    }

    constructor ()
      ensures Valid() && fresh(vram) && fresh(command)
      ensures Port() == GpuPort.Port(Command, Transfer(0, 0, 0, 0, 0), 0, 0, []) && forall i :: 0 <= i < vram.Length ==> vram[i] == 0
    {
      vram := new U16[0x8_0000](_ => 0);
      mode := Command;
      transfer := Transfer(0, 0, 0, 0, 0);
      maskSetting, gpureadLatch := 0, 0;
      command := new U32[16](_ => 0);
      commandWords := 0;
    }

    /** One halfword of an upload; one more than the rectangle holds is dropped. */
    method StorePixel(pixel: U16)
      requires Shaped() && Sized(transfer)
      modifies vram, this`transfer
      ensures (vram[..], transfer) == Stored(old(vram[..]), old(transfer), maskSetting, pixel)
    {
      hide At, Count;
      if transfer.done >= Count(transfer) { return; }
      var at := At(transfer, transfer.done);
      transfer := transfer.(done := transfer.done + 1);
      var protect := maskSetting / 2 % 2 == 1;
      if protect && vram[at] >= 0x8000 {
        assert vram[..] == old(vram[..])[at := old(vram[at])];
        return;
      }
      if maskSetting % 2 == 1 && pixel < 0x8000 {
        vram[at] := pixel + 0x8000;
      } else {
        vram[at] := pixel;
      }
    }

    method LoadPixel() returns (pixel: U16)
      requires Shaped() && Sized(transfer)
      modifies this`transfer
      ensures (pixel, transfer) == Loaded(vram[..], old(transfer))
    {
      hide At, Count;
      if transfer.done >= Count(transfer) { return 0; }
      pixel := vram[At(transfer, transfer.done)];
      transfer := transfer.(done := transfer.done + 1);
    }

    /** A word stored to GP0; what it completes is handed back to be drawn. */
    method WriteGp0(word: U32) returns (handed: Handed)
      requires Valid()
      modifies this, vram, command
      ensures Valid() && (Port(), vram[..], handed) == Written(old(Port()), old(vram[..]), word)
    {
      hide Stored, Count;
      match mode {
        case ImageLoad =>
          ghost var start := transfer;
          StorePixel(Low(word));
          StorePixel(High(word));
          assert (vram[..], transfer) == StoredWord(old(vram[..]), start, maskSetting, word);
          if transfer.done >= Count(transfer) { mode := Command; }
          handed := Nothing;
        case PolyLine =>
          if EndsPolyline(word) {
            mode := Command;
            handed := Nothing;
          } else {
            handed := More(word);
          }
        case _ =>
          handed := Collect(word);
      }
    }

    method Collect(word: U32) returns (handed: Handed)
      requires Valid() && (mode == Command || mode == ImageStore)
      modifies this, command
      ensures Valid() && (Port(), vram[..], handed) == Written(old(Port()), old(vram[..]), word)
    {
      hide Length, Count;
      command[commandWords] := word;
      commandWords := commandWords + 1;
      assert command[..commandWords] == old(Port()).command + [word];
      if commandWords < Length(command[0]) { return Nothing; }
      handed := ExecuteGp0();
    }

    /** A whole command: a transfer begun, a mask setting kept, or something to draw. */
    method ExecuteGp0() returns (handed: Handed)
      requires Shaped() && commandWords > 0 && commandWords == Length(command[0]) && GpuPort.Valid(Port().(command := []))
      modifies this
      ensures Valid() && (Port(), handed) == Executed(old(Port()), old(Port()).command)
    {
      hide Count;
      var words := command[..commandWords];
      assert words == Port().command && words[0] == command[0];
      var op := Opcode(command[0]);
      commandWords := 0;
      assert command[..0] == [];
      if op == 0xE6 {
        maskSetting := command[0] % 4;
        handed := Nothing;
      } else if 0xA0 <= op < 0xE0 {
        assert words[1] == command[1] && words[2] == command[2];
        BeginTransfer();
        Worth(transfer);
        mode := if op < 0xC0 then ImageLoad else ImageStore;
        handed := Nothing;
      } else {
        if 0x40 <= op < 0x60 && HasBit(op, 8) { mode := PolyLine; }
        handed := Whole(words);
      }
    }

    method BeginTransfer()
      requires Shaped()
      modifies this`transfer
      ensures transfer == Begun(command[1], command[2])
    {
      transfer := Transfer(command[1] % 1024, command[1] / 0x1_0000 % 512,
                           Extent(command[2] % 0x1_0000, 1024), Extent(command[2] / 0x1_0000, 512), 0);
    }

    /** A read of GPUREAD: two pixels of a transfer out, or what was last latched. */
    method Read() returns (word: U32)
      requires Valid()
      modifies this`transfer, this`mode
      ensures Valid() && (word, Port()) == GpuPort.Read(old(Port()), vram[..])
    {
      hide Loaded, Count;
      if mode != ImageStore { return gpureadLatch; }
      ghost var start := transfer;
      var low := LoadPixel();
      var high := LoadPixel();
      assert (Joined(low, high), transfer) == LoadedWord(vram[..], start);
      if transfer.done >= Count(transfer) { mode := Command; }
      word := Joined(low, high);
    }
  }
}
