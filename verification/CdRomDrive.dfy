/** The drive as the emulator keeps it, field by field, proved to take the steps of module CdRom. */
module CdRomDrive {
  import opened Words
  import opened CdRom

  predicate LineActive(port: Port) {
    (HasBit(port.flag, 1) && HasBit(port.enable, 1)) || (HasBit(port.flag, 2) && HasBit(port.enable, 2))
    || (HasBit(port.flag, 4) && HasBit(port.enable, 4)) || (HasBit(port.flag, 8) && HasBit(port.enable, 8))
    || (HasBit(port.flag, 16) && HasBit(port.enable, 16))
  }

  predicate Asks(command: Command) {
    command.GetParam? || command.GetLocP? || command.GetLocL? || command.TestVersion? || command.Unknown?
  }

  predicate Consults(command: Command) { command.ReadToc? || command.GetTrack? || command.GetId? }

  predicate Moves(command: Command) { command.Init? || command.Stop? || command.Pause? || command.Read? || command.Seek? }

  class Controller {
    var status: Status
    var mode: U8
    var seekLba: U32
    var head: Head
    var buffer: Buffer
    const queue: array<Answer>
    var queued: nat
    var port: Port
    var lid: Lid

    /** What the fields come to, in the terms the steps are specified in, and the books kept beside them. */
    ghost var drive: Drive

    ghost predicate Tied()
      reads this, queue
    {
      && queue.Length == 2 && |drive.queue| == queued <= 2
      && (forall i :: 0 <= i < queued ==> queue[i] == drive.queue[i])
      && drive.status == status && drive.mode == mode && drive.seekLba == seekLba && drive.head == head
      && drive.buffer == buffer && drive.port == port && drive.lid == lid
    }

    /** Between calls: what every run of the drive keeps holds of what the fields come to. */
    ghost predicate Valid()
      reads this, queue
    {
      Tied() && Sound(drive)
    }

    constructor (open: bool)
      ensures Valid() && fresh(queue) && drive == AtReset(open)
    {
      status := Status(!open, false, open, false, false);
      mode, seekLba, head := 0, 0, Head(0, false, false, false, 0);
      buffer := Empty;
      queue := new Answer[2](_ => Answer(Note(0, []), 0));
      queued := 0;
      port := Port(0, 0, false, []);
      lid := Lid(open, false, 0);
      drive := AtReset(open);
      new;
      assert drive == Run(AtReset(open), []);
      RunSound(open, []);
    }

    /** Joins one answer to the back of the array, unless all of it is taken. */
    method Reply(interrupt: U8, bytes: seq<U8>, delay: nat)
      requires Tied()
      modifies this`queued, this`drive, queue
      ensures Tied() && drive == Answered(old(drive), interrupt, bytes, delay)
    {
      if queued >= 2 { return; }
      queue[queued] := Answer(Note(interrupt, bytes), delay);
      queued := queued + 1;
      drive := Answered(drive, interrupt, bytes, delay);
    }

    /** The first answer of nearly every command: heard, and here is the status. */
    method Confirm()
      requires Tied()
      modifies this`queued, this`drive, queue
      ensures Tied() && drive == Acknowledged(old(drive))
    {
      hide Answered, StatusByte;
      Reply(3, [StatusByte(status)], ACKNOWLEDGE_CYCLES);
    }

    /** Puts the first answer on the port, and shifts every other down by one. */
    method Deliver()
      requires Tied() && queued > 0
      modifies this, queue
      ensures Tied() && drive == Delivered(old(drive))
    {
      var first := queue[0].note;
      port := Port(first.interrupt, port.enable, false, first.bytes);
      for i := 1 to queued
        modifies queue
        invariant forall k :: 0 <= k < i - 1 ==> queue[k] == old(queue[k + 1])
        invariant forall k :: i - 1 <= k < 2 ==> queue[k] == old(queue[k])
      {
        queue[i - 1] := queue[i];
      }
      queued := queued - 1;
      drive := Delivered(drive);
    }

    method LosePosition()
      requires Tied()
      modifies this`head, this`status, this`drive
      ensures Tied() && drive == LostPosition(old(drive))
    {
      head := head.(reading := false, seeking := false, located := false);
      status := Status(false, true, status.shellOpen, false, false);
      drive := LostPosition(drive);
    }

    /** A tick's share of the read: at most one sector, however late it is, and none into a full array. */
    method AdvanceRead(cycles: nat, disc: Disc)
      requires Tied()
      modifies this, queue
      ensures Tied() && drive == ReadAdvanced(old(drive), cycles, disc)
    {
      hide StatusByte, IsAudio, Answered, LostPosition, SectorCycles;
      if !head.reading { return; }
      if head.remaining > cycles {
        head := head.(remaining := head.remaining - cycles);
        drive := ReadAdvanced(drive, cycles, disc);
        return;
      }
      var overshoot := cycles - head.remaining;
      if queued >= 2 {
        head := head.(remaining := 0);
        drive := ReadAdvanced(drive, cycles, disc);
        return;
      }
      var found := disc.submode(head.lba);
      if found.None? {
        LosePosition();
        Reply(5, [StatusByte(status), 0x04], 0);
        return;
      }
      var lba := head.lba;
      MoveOn(overshoot, cycles);
      if IsAudio(mode, found.value) { return; }
      buffer := Sector(lba);
      drive := Holding(drive, lba);
      Reply(1, [StatusByte(status)], 0);
    }

    /** A sector under the head: the seek is over, and the next one is counted down to. */
    method MoveOn(overshoot: nat, cycles: nat)
      requires Tied()
      modifies this`head, this`status, this`drive
      ensures Tied() && drive == MovedOn(old(drive), overshoot, cycles)
    {
      head := head.(seeking := false, located := true);
      status := status.(seeking := false, reading := true);
      head := head.(lba := ToU32(head.lba + 1), remaining := SectorCycles(mode));
      head := head.(remaining := head.remaining - Min(overshoot, head.remaining));
      drive := MovedOn(drive, overshoot, cycles);
    }

    /** One tick in its four stages. Whatever it delivers is the oldest answer not yet delivered. */
    method Tick(cycles: nat, disc: Disc) returns (line: bool)
      requires Valid()
      modifies this, queue
      ensures Valid() && drive == Ticked(old(drive), cycles, disc)
      ensures line <==> |drive.books.delivered| > |old(drive).books.delivered| && LineActive(port)
      ensures drive.books.delivered == old(drive).books.delivered || HandsOverNext(old(drive), drive)
    {
      hide Sound, ReadAdvanced, HeadAdvanced, SpunDown, ShellReported, LineActive;
      TickedSound(drive, cycles, disc);
      HandedOver(drive, CdRom.Tick(cycles), disc);
      ReadKeepsHandshake(ShellReported(SpunDown(drive, cycles)), cycles, disc);
      SpinDown(cycles);
      ReportShell();
      AdvanceRead(cycles, disc);
      line := Advance(cycles);
    }

    /** The disc under an opened lid, still turning until its time is up. */
    method SpinDown(cycles: nat)
      requires Tied()
      modifies this`lid, this`status, this`drive
      ensures Tied() && drive == SpunDown(old(drive), cycles)
    {
      if lid.spinDown > 0 {
        if lid.spinDown <= cycles {
          lid := lid.(spinDown := 0);
          status := status.(motor := false);
        } else {
          lid := lid.(spinDown := lid.spinDown - cycles);
        }
      }
      drive := SpunDown(drive, cycles);
    }

    /** The answer an opened lid owes, once there is room for it. */
    method ReportShell()
      requires Tied()
      modifies this`lid, this`queued, this`drive, queue
      ensures Tied() && drive == ShellReported(old(drive))
    {
      hide Answered;
      if lid.report && queued < 2 {
        lid := lid.(report := false);
        drive := drive.(lid := lid);
        Reply(5, [0x01, 0x08], 0);
      }
    }

    /** The queue's own part of a tick. */
    method Advance(cycles: nat) returns (line: bool)
      requires Tied()
      modifies this, queue
      ensures Tied() && drive == HeadAdvanced(old(drive), cycles)
      ensures line <==> |drive.books.delivered| > |old(drive).books.delivered| && LineActive(port)
    {
      hide LineActive;
      if queued == 0 { return false; }
      if queue[0].remaining > cycles {
        queue[0] := Answer(queue[0].note, queue[0].remaining - cycles);
        drive := drive.(queue := [queue[0]] + drive.queue[1..]);
        return false;
      }
      queue[0] := Answer(queue[0].note, 0);
      drive := drive.(queue := [queue[0]] + drive.queue[1..]);
      if port.flag != 0 { return false; }
      Deliver();
      line := LineActive(port);
    }

    /** A command, as the store that writes it runs it. */
    method Execute(command: Command, disc: Disc)
      requires Tied()
      modifies this, queue
      ensures Tied() && drive == Executed(old(drive), command, disc)
    {
      hide StatusByte, Answered, Acknowledged, Licensed, NoDisc, Version, Parameters, SectorCycles, LostPosition, Halted, Begun, Arrived, Afresh, Remoded;
      if Asks(command) {
        Inform(command, disc);
      } else if Consults(command) {
        Consult(command, disc);
      } else if Moves(command) {
        Move(command, disc);
      } else {
        match command {
          case GetStat =>
            Confirm();
            if !lid.open {
              status := status.(shellOpen := false);
              drive := drive.(status := status);
            }
          case Quiet => Confirm();
          case SetLoc(target) =>
            if target.Some? {
              seekLba := target.value;
              drive := drive.(seekLba := seekLba);
            }
            Confirm();
          case SetMode(written) =>
            Remode(written);
            Confirm();
        }
      }
    }

    /** The commands that move the mechanism. */
    method Move(command: Command, disc: Disc)
      requires Tied() && Moves(command)
      modifies this, queue
      ensures Tied() && drive == Executed(old(drive), command, disc)
    {
      hide StatusByte, Answered, Acknowledged, LostPosition, Halted, Begun, Arrived, Afresh;
      match command {
        case Init =>
          StartAfresh();
          Confirm();
          Reply(2, [StatusByte(status)], INIT_CYCLES);
        case Stop =>
          Confirm();
          Halt(false);
          Reply(2, [StatusByte(status)], PAUSE_CYCLES);
        case Pause =>
          Confirm();
          Halt(status.motor);
          Reply(2, [StatusByte(status)], PAUSE_CYCLES);
        case Read => ReadOn(disc);
        case Seek => SeekTo(disc);
      }
    }

    /** A read, or the refusal an empty drive gives it. */
    method ReadOn(disc: Disc)
      requires Tied()
      modifies this, queue
      ensures Tied() && drive == Executed(old(drive), Read, disc)
    {
      hide StatusByte, Answered, Acknowledged, LostPosition, Halted, Begun, Arrived, Afresh;
      if disc.loaded && !lid.open {
        BeginRead();
        Confirm();
      } else {
        Confirm();
        Reply(5, [StatusByte(status) + 1, 0x04], SECOND_ANSWER_CYCLES);
      }
    }

    /** A seek, or the refusal an empty drive or a place off the disc gives it. */
    method SeekTo(disc: Disc)
      requires Tied()
      modifies this, queue
      ensures Tied() && drive == Executed(old(drive), Seek, disc)
    {
      hide StatusByte, Answered, Acknowledged, LostPosition, Halted, Begun, Arrived, Afresh;
      if !disc.loaded || lid.open || seekLba > SEEK_LIMIT_LBA {
        Confirm();
        LosePosition();
        Reply(5, [StatusByte(status), 0x04], SECOND_ANSWER_CYCLES);
      } else {
        SeekThere();
        Confirm();
        Reply(2, [StatusByte(status)], SEEK_CYCLES);
      }
    }

    /** The commands that only ask. */
    method Inform(command: Command, disc: Disc)
      requires Tied() && Asks(command)
      modifies this`queued, this`drive, queue
      ensures Tied() && drive == Executed(old(drive), command, disc)
    {
      hide StatusByte, Answered, Acknowledged, Licensed, NoDisc, Version, Parameters, SectorCycles, Halted, Begun, Arrived, Afresh, Remoded, LostPosition;
      var failed: U8 := StatusByte(status) + 1;
      var ready := disc.loaded && !lid.open;
      match command {
        case GetParam => Reply(3, Parameters(StatusByte(status), mode), ACKNOWLEDGE_CYCLES);
        case GetLocP(report) =>
          if status.seekError {
            Reply(5, [StatusByte(status), 0x04], ACKNOWLEDGE_CYCLES);
          } else {
            Reply(3, report, ACKNOWLEDGE_CYCLES);
          }
        case GetLocL(report) =>
          if !ready || !head.located {
            Reply(5, [StatusByte(status), 0x80], ACKNOWLEDGE_CYCLES);
          } else {
            Reply(3, report, ACKNOWLEDGE_CYCLES);
          }
        case TestVersion => Reply(3, Version(), ACKNOWLEDGE_CYCLES);
        case Unknown => Reply(5, [failed, 0x40], ACKNOWLEDGE_CYCLES);
      }
    }

    /** The commands answered from the disc, or refused without one. */
    method Consult(command: Command, disc: Disc)
      requires Tied() && Consults(command)
      modifies this`queued, this`drive, queue
      ensures Tied() && drive == Executed(old(drive), command, disc)
    {
      hide StatusByte, Answered, Acknowledged, Licensed, NoDisc;
      var failed: U8 := StatusByte(status) + 1;
      var ready := disc.loaded && !lid.open;
      match command {
        case ReadToc =>
          Confirm();
          if ready {
            Reply(2, [StatusByte(status)], INIT_CYCLES);
          } else {
            Reply(5, [failed, 0x04], SECOND_ANSWER_CYCLES);
          }
        case GetTrack(report) =>
          if ready {
            Reply(3, report, ACKNOWLEDGE_CYCLES);
          } else {
            Reply(5, [failed, 0x04], ACKNOWLEDGE_CYCLES);
          }
        case GetId =>
          Confirm();
          if ready {
            Reply(2, Licensed(StatusByte(status)), SECOND_ANSWER_CYCLES);
          } else {
            Reply(5, NoDisc(StatusByte(status)), SECOND_ANSWER_CYCLES);
          }
      }
    }

    method Remode(written: U8)
      requires Tied()
      modifies this`mode, this`drive
      ensures Tied() && drive == Remoded(old(drive), written)
    {
      mode := written;
      drive := Remoded(drive, written);
    }

    method StartAfresh()
      requires Tied()
      modifies this`mode, this`head, this`status, this`drive
      ensures Tied() && drive == Afresh(old(drive))
    {
      mode := 0;
      head := head.(reading := false, seeking := false);
      status := Status(true, false, status.shellOpen, false, false);
      drive := Afresh(drive);
    }

    method Halt(motor: bool)
      requires Tied()
      modifies this`head, this`status, this`drive
      ensures Tied() && drive == Halted(old(drive), motor)
    {
      head := head.(reading := false, seeking := false);
      status := status.(reading := false, seeking := false, motor := motor);
      drive := Halted(drive, motor);
    }

    method BeginRead()
      requires Tied()
      modifies this`head, this`status, this`drive
      ensures Tied() && drive == Begun(old(drive))
    {
      head := head.(lba := seekLba, reading := true, seeking := true);
      status := status.(reading := false, seeking := true);
      head := head.(remaining := SEEK_CYCLES + SectorCycles(mode));
      drive := Begun(drive);
    }

    method SeekThere()
      requires Tied()
      modifies this`head, this`status, this`buffer, this`drive
      ensures Tied() && drive == Arrived(old(drive))
    {
      head := head.(reading := false, seeking := false, lba := seekLba);
      status := status.(reading := false, seeking := false);
      buffer := Header(head.lba);
      head := head.(located := true);
      drive := Arrived(drive);
    }

    /** A command carried out at once, with the port left busy whatever the command was. */
    method WriteCommand(command: Command, disc: Disc)
      requires Valid()
      modifies this, queue
      ensures Valid() && drive == Step(old(drive), Send(command), disc)
    {
      hide Sound;
      StepSound(drive, Send(command), disc);
      hide Executed;
      port := port.(busy := true);
      drive := drive.(port := port);
      Execute(command, disc);
    }

    method EnableInterrupts(value: U8)
      requires Valid()
      modifies this`port, this`drive
      ensures Valid() && drive == old(drive).(port := old(drive).port.(enable := value % 0x20))
    {
      hide Sound;
      StepSound(drive, Enable(value), Disc(false, _ => None));
      port := port.(enable := value % 0x20);
      drive := drive.(port := port);
    }

    method OpenShell()
      requires Valid()
      modifies this`head, this`status, this`lid, this`drive
      ensures Valid() && drive == Opened(old(drive))
    {
      hide Sound;
      StepSound(drive, Open, Disc(false, _ => None));
      if lid.open { return; }
      head := head.(reading := false, seeking := false, located := false);
      status := Status(true, false, true, false, false);
      lid := Lid(true, true, SPIN_DOWN_CYCLES);
      drive := Opened(drive);
    }

    method CloseShell()
      requires Valid()
      modifies this`status, this`lid, this`drive
      ensures Valid() && drive == Closed(old(drive))
    {
      hide Sound;
      StepSound(drive, Close, Disc(false, _ => None));
      lid := lid.(open := false, spinDown := 0);
      status := Status(false, false, true, false, false);
      drive := Closed(drive);
    }

    /** The store to the flag register that takes an answer. */
    method Acknowledge(value: U8)
      requires Valid()
      modifies this`port, this`drive
      ensures Valid() && drive == Cleared(old(drive), value)
    {
      hide Sound;
      StepSound(drive, Clear(value), Disc(false, _ => None));
      drive := Cleared(drive, value);
      port := port.(flag := ToU8(BitLeft(port.flag, value, 1) + BitLeft(port.flag, value, 2) + BitLeft(port.flag, value, 4)
                                 + BitLeft(port.flag, value, 8) + BitLeft(port.flag, value, 16)));
    }
  }
}
