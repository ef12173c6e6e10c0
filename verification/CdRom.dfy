/**
  The CD-ROM drive as a protocol: answers wait in a queue two deep until software
  acknowledges the last, and sectors arrive on a motor's schedule.
 */
module CdRom {
  import opened Words

  /** The bits the drive keeps in its status byte. */
  datatype Status = Status(motor: bool, seekError: bool, shellOpen: bool, reading: bool, seeking: bool)

  function Bit(on: bool, weight: U8): U8 { if on then weight else 0 }

  function StatusByte(s: Status): (b: U8)
    ensures b <= 0x7E && b % 2 == 0
  {
    Times(Bit(s.motor, 2), 1) + Bit(s.seekError, 4) + Bit(s.shellOpen, 16) + Bit(s.reading, 32) + Bit(s.seeking, 64)
  }

  /** An answer: interrupt 1 a sector is ready, 2 complete, 3 acknowledged, 5 refused; and one with how long the drive still needs to give it. */
  datatype Note = Note(interrupt: U8, bytes: seq<U8>)
  datatype Answer = Answer(note: Note, remaining: nat)

  /** The disc: whether one is in, and the submode of each sector that can be read. */
  datatype Disc = Disc(loaded: bool, submode: U32 -> Option<U8>)

  datatype Buffer = Empty | Sector(lba: U32) | Header(lba: U32)

  /** What has happened so far; the drive never reads it. */
  datatype Books = Books(
    accepted: seq<Note>, delivered: seq<Note>, sectors: seq<U32>,
    from: U32, elapsed: nat, passed: nat, late: bool)

  /** Where the head is and what it is doing there. */
  datatype Head = Head(lba: U32, reading: bool, seeking: bool, located: bool, remaining: nat)

  /** What software sees of the controller: the interrupt, the answer it came with, and whether a command is still unanswered. */
  datatype Port = Port(flag: U8, enable: U8, busy: bool, response: seq<U8>)

  /** Whether the lid is up, whether software has yet to be told of it, and what is left of the disc's spin. */
  datatype Lid = Lid(open: bool, report: bool, spinDown: nat)

  datatype Drive = Drive(
    status: Status, mode: U8, seekLba: U32, head: Head, buffer: Buffer, queue: seq<Answer>, port: Port, lid: Lid, books: Books)

  // ---- constants: cycles of a 33868800 Hz clock ----

  /** Cycles to a sector: the top bit of the mode halves them. */
  function SectorCycles(mode: U8): nat { if mode >= 0x80 then 225792 else 451584 }

  const SEEK_CYCLES: nat := 9031680
  const ACKNOWLEDGE_CYCLES: nat := 0xC4E1
  const INIT_CYCLES: nat := 0x13CCE
  const SECOND_ANSWER_CYCLES: nat := 0x4A00
  const PAUSE_CYCLES: nat := 0xFA000
  const SPIN_DOWN_CYCLES: nat := 33868800
  const SEEK_LIMIT_LBA: U32 := 332850

  function AtReset(shellOpen: bool): Drive {
    Drive(Status(!shellOpen, false, shellOpen, false, false), 0, 0, Head(0, false, false, false, 0), Empty, [],
          Port(0, 0, false, []), Lid(shellOpen, false, 0), Books([], [], [], 0, 0, 0, false))
  }

  // ---- answers ----

  /** The same drive as far as its reading and its interrupts go. */
  predicate Alike(d: Drive, next: Drive) {
    && next.status == d.status && next.mode == d.mode && next.port.flag == d.port.flag && next.head.reading == d.head.reading
    && next.head.seeking == d.head.seeking && next.head.remaining == d.head.remaining && next.head.lba == d.head.lba
    && next.books.delivered == d.books.delivered && next.books.late == d.books.late
    && next.buffer == d.buffer && next.books.sectors == d.books.sectors
  }

  /** Accepts an answer if there is room, and discards it if not. */
  function Answered(d: Drive, interrupt: U8, bytes: seq<U8>, delay: nat): (next: Drive)
    ensures Alike(d, next) && d.queue <= next.queue
  {
    if |d.queue| >= 2 then d
    else
      var note := Note(interrupt, bytes);
      d.(queue := d.queue + [Answer(note, delay)], books := d.books.(accepted := d.books.accepted + [note]))
  }

  function Delivered(d: Drive): Drive
    requires d.queue != []
  {
    var head := d.queue[0].note;
    d.(port := Port(head.interrupt, d.port.enable, false, head.bytes), queue := d.queue[1..],
       books := d.books.(delivered := d.books.delivered + [head]))
  }

  // ---- time ----

  /** Compressed sound on a drive told to play it never reaches software. */
  predicate IsAudio(mode: U8, submode: U8) {
    mode / 0x40 % 2 == 1 && submode / 4 % 2 == 1 && submode / 0x20 % 2 == 1 && submode / 0x40 % 2 == 1
  }

  function LostPosition(d: Drive): (next: Drive)
    ensures next.port.flag == d.port.flag && next.books.delivered == d.books.delivered && next.queue == d.queue
    ensures !next.head.reading && !next.status.reading && !next.status.seeking && next.buffer == d.buffer && next.books == d.books
  {
    d.(head := d.head.(reading := false, seeking := false, located := false), status := Status(false, true, d.status.shellOpen, false, false))
  }

  /** A sector has come under the head: the seek is over, and the next is a whole sector away, less how late this one was seen. */
  function MovedOn(d: Drive, overshoot: nat, cycles: nat): Drive {
    d.(status := d.status.(seeking := false, reading := true),
       head := d.head.(seeking := false, located := true, lba := ToU32(d.head.lba + 1),
                       remaining := SectorCycles(d.mode) - Min(overshoot, SectorCycles(d.mode))),
       books := d.books.(elapsed := d.books.elapsed + cycles, passed := d.books.passed + 1,
                         late := d.books.late || overshoot >= SectorCycles(d.mode)))
  }

  function Holding(d: Drive, lba: U32): Drive {
    d.(buffer := Sector(lba), books := d.books.(sectors := d.books.sectors + [lba]))
  }

  /** Sound goes to the sound hardware; anything else to the buffer, and an INT1 with it. */
  function Passed(d: Drive, overshoot: nat, cycles: nat, submode: U8): (next: Drive)
    ensures next.port.flag == d.port.flag && next.books.delivered == d.books.delivered && d.queue <= next.queue
    ensures next.books.late == (d.books.late || overshoot >= SectorCycles(d.mode))
    ensures next.head.reading == d.head.reading && !next.head.seeking && next.status == d.status.(seeking := false, reading := true)
  {
    var next := MovedOn(d, overshoot, cycles);
    if IsAudio(d.mode, submode) then next
    else Answered(Holding(next, d.head.lba), 1, [StatusByte(next.status)], 0)
  }

  function ReadAdvanced(d: Drive, cycles: nat, disc: Disc): Drive {
    if !d.head.reading then d
    else if d.head.remaining > cycles then
      d.(head := d.head.(remaining := d.head.remaining - cycles), books := d.books.(elapsed := d.books.elapsed + cycles))
    else if |d.queue| >= 2 then
      d.(head := d.head.(remaining := 0), books := d.books.(elapsed := d.books.elapsed + cycles, late := true))
    else match disc.submode(d.head.lba)
      case None => var lost := LostPosition(d); Answered(lost, 5, [StatusByte(lost.status), 0x04], 0)
      case Some(submode) => Passed(d, cycles - d.head.remaining, cycles, submode)
  }

  function SpunDown(d: Drive, cycles: nat): (next: Drive)
    ensures Alike(d.(status := next.status), next) && next.status == d.status.(motor := next.status.motor)
    ensures next.queue == d.queue && next.lid.report == d.lid.report
  {
    if d.lid.spinDown == 0 then d
    else if d.lid.spinDown <= cycles then d.(lid := d.lid.(spinDown := 0), status := d.status.(motor := false))
    else d.(lid := d.lid.(spinDown := d.lid.spinDown - cycles))
  }

  function ShellReported(d: Drive): (next: Drive)
    ensures Alike(d, next)
    ensures d.queue <= next.queue && (|next.queue| >= 2 <==> |d.queue| >= 2 || (|d.queue| == 1 && d.lid.report))
  {
    if d.lid.report && |d.queue| < 2 then Answered(d.(lid := d.lid.(report := false)), 5, [0x01, 0x08], 0) else d
  }

  /** Time taken off the first answer alone; a finished one goes out unless the port still shows an earlier one. */
  function HeadAdvanced(d: Drive, cycles: nat): Drive {
    if d.queue == [] then d
    else
      var left := Max(0, d.queue[0].remaining - cycles);
      var counted := d.(queue := [Answer(d.queue[0].note, left)] + d.queue[1..]);
      if left > 0 || d.port.flag != 0 then counted else Delivered(counted)
  }

  function Ticked(d: Drive, cycles: nat, disc: Disc): Drive {
    HeadAdvanced(ReadAdvanced(ShellReported(SpunDown(d, cycles)), cycles, disc), cycles)
  }

  // ---- software and the lid ----

  /** The commands, with the bytes a report is made of standing for what the disc's tables say. */
  datatype Command =
    | GetStat
    | Quiet                              // Mute, Demute, Setfilter
    | SetLoc(target: Option<U32>)        // none when fewer than three parameters were written
    | SetMode(mode: U8)
    | GetParam
    | GetLocP(report: seq<U8>)
    | GetLocL(report: seq<U8>)
    | Init
    | Stop
    | Pause
    | Read                               // ReadN and ReadS
    | Seek                               // SeekL and SeekP
    | ReadToc
    | GetTrack(report: seq<U8>)          // GetTN and GetTD
    | TestVersion
    | GetId
    | Unknown

  predicate HasDisc(d: Drive, disc: Disc) { disc.loaded && !d.lid.open }

  function Acknowledged(d: Drive): (next: Drive)
    ensures Alike(d, next)
  {
    Answered(d, 3, [StatusByte(d.status)], ACKNOWLEDGE_CYCLES)
  }

  /** GetID: a licensed disc of this region, or the reason there is none. */
  function Licensed(status: U8): seq<U8> { [status, 0, 0x20, 0, 0x53, 0x43, 0x45, 0x41] }

  function NoDisc(status: U8): seq<U8> { [ToU8(status + 8), 0x40, 0, 0, 0, 0, 0, 0] }

  function Version(): seq<U8> { [0x94, 0x09, 0x19, 0xC0] }

  function Parameters(status: U8, mode: U8): seq<U8> { [status, mode, 0, 0, 0] }

  function Failed(d: Drive): U8 { StatusByte(d.status) + 1 }

  function Begun(d: Drive): Drive {
    d.(status := d.status.(reading := false, seeking := true),
       head := d.head.(lba := d.seekLba, reading := true, seeking := true, remaining := SEEK_CYCLES + SectorCycles(d.mode)),
       books := d.books.(from := d.seekLba, elapsed := 0, passed := 0, late := false))
  }

  function Halted(d: Drive, motor: bool): (next: Drive)
    ensures next.port.flag == d.port.flag && next.books == d.books && next.buffer == d.buffer
    ensures !next.head.reading && !next.status.reading && !next.status.seeking
  {
    d.(head := d.head.(reading := false, seeking := false), status := d.status.(reading := false, seeking := false, motor := motor))
  }

  function Arrived(d: Drive): Drive {
    Halted(d, d.status.motor).(head := d.head.(lba := d.seekLba, reading := false, seeking := false, located := true), buffer := Header(d.seekLba))
  }

  function Afresh(d: Drive): Drive {
    d.(mode := 0, head := d.head.(reading := false, seeking := false), status := Status(true, false, d.status.shellOpen, false, false))
  }

  function Remoded(d: Drive, mode: U8): Drive {
    d.(mode := mode, books := d.books.(late := d.books.late || SectorCycles(mode) != SectorCycles(d.mode)))
  }

  function Executed(d: Drive, command: Command, disc: Disc): Drive {
    match command
    case GetStat =>
      var told := Acknowledged(d);
      if d.lid.open then told else told.(status := d.status.(shellOpen := false))
    case Quiet => Acknowledged(d)
    case SetLoc(target) => Acknowledged(if target.Some? then d.(seekLba := target.value) else d)
    case SetMode(mode) => Acknowledged(Remoded(d, mode))
    case GetParam => Answered(d, 3, Parameters(StatusByte(d.status), d.mode), ACKNOWLEDGE_CYCLES)
    case GetLocP(report) =>
      if d.status.seekError then Answered(d, 5, [StatusByte(d.status), 0x04], ACKNOWLEDGE_CYCLES)
      else Answered(d, 3, report, ACKNOWLEDGE_CYCLES)
    case GetLocL(report) =>
      if !HasDisc(d, disc) || !d.head.located then Answered(d, 5, [StatusByte(d.status), 0x80], ACKNOWLEDGE_CYCLES)
      else Answered(d, 3, report, ACKNOWLEDGE_CYCLES)
    case Init =>
      var afresh := Afresh(d);
      Answered(Acknowledged(afresh), 2, [StatusByte(afresh.status)], INIT_CYCLES)
    case Stop =>
      var halted := Halted(Acknowledged(d), false);
      Answered(halted, 2, [StatusByte(halted.status)], PAUSE_CYCLES)
    case Pause =>
      var halted := Halted(Acknowledged(d), d.status.motor);
      Answered(halted, 2, [StatusByte(halted.status)], PAUSE_CYCLES)
    case Read =>
      if HasDisc(d, disc) then Acknowledged(Begun(d))
      else Answered(Acknowledged(d), 5, [Failed(d), 0x04], SECOND_ANSWER_CYCLES)
    case Seek =>
      if !HasDisc(d, disc) || d.seekLba > SEEK_LIMIT_LBA then
        var lost := LostPosition(Acknowledged(d));
        Answered(lost, 5, [StatusByte(lost.status), 0x04], SECOND_ANSWER_CYCLES)
      else
        var there := Arrived(d);
        Answered(Acknowledged(there), 2, [StatusByte(there.status)], SEEK_CYCLES)
    case ReadToc =>
      if HasDisc(d, disc) then Answered(Acknowledged(d), 2, [StatusByte(d.status)], INIT_CYCLES)
      else Answered(Acknowledged(d), 5, [Failed(d), 0x04], SECOND_ANSWER_CYCLES)
    case GetTrack(report) =>
      if HasDisc(d, disc) then Answered(d, 3, report, ACKNOWLEDGE_CYCLES)
      else Answered(d, 5, [Failed(d), 0x04], ACKNOWLEDGE_CYCLES)
    case TestVersion => Answered(d, 3, Version(), ACKNOWLEDGE_CYCLES)
    case GetId =>
      if HasDisc(d, disc) then
        Answered(Acknowledged(d), 2, Licensed(StatusByte(d.status)), SECOND_ANSWER_CYCLES)
      else
        Answered(Acknowledged(d), 5, NoDisc(StatusByte(d.status)), SECOND_ANSWER_CYCLES)
    case Unknown => Answered(d, 5, [Failed(d), 0x40], ACKNOWLEDGE_CYCLES)
  }

  function BitLeft(flag: U8, value: U8, weight: U8): U8
    requires weight > 0
  {
    Bit(HasBit(flag, weight) && !HasBit(value, weight), weight)
  }

  /** `flag & ~(value & 1Fh)`, for a flag of five bits: writing a one to a bit clears it. */
  function Cleared(d: Drive, value: U8): Drive {
    d.(port := d.port.(flag := ToU8(BitLeft(d.port.flag, value, 1) + BitLeft(d.port.flag, value, 2) + BitLeft(d.port.flag, value, 4)
                    + BitLeft(d.port.flag, value, 8) + BitLeft(d.port.flag, value, 16))))
  }

  function ToU8(x: int): U8 { x % 0x100 }

  function Opened(d: Drive): Drive {
    if d.lid.open then d
    else d.(lid := Lid(true, true, SPIN_DOWN_CYCLES), head := d.head.(reading := false, seeking := false, located := false),
            status := Status(true, false, true, false, false))
  }

  function Closed(d: Drive): Drive {
    d.(lid := Lid(false, d.lid.report, 0), status := Status(false, false, true, false, false))
  }

  datatype Event = Tick(cycles: nat) | Send(command: Command) | Clear(value: U8) | Enable(value: U8) | Open | Close

  function Step(d: Drive, event: Event, disc: Disc): Drive {
    match event
    case Tick(cycles) => Ticked(d, cycles, disc)
    case Send(command) => Executed(d.(port := d.port.(busy := true)), command, disc)
    case Clear(value) => Cleared(d, value)
    case Enable(value) => d.(port := d.port.(enable := value % 0x20))
    case Open => Opened(d)
    case Close => Closed(d)
  }

  /** What happens next, and what is in the drive as it does: a disc may be changed under an open lid. */
  datatype Moment = Moment(event: Event, disc: Disc)

  function Run(d: Drive, moments: seq<Moment>): Drive {
    if moments == [] then d
    else
      var last := moments[|moments| - 1];
      Step(Run(d, moments[..|moments| - 1]), last.event, last.disc)
  }

  // ---- what every run keeps ----

  function Notes(queue: seq<Answer>): (notes: seq<Note>)
    ensures |notes| == |queue|
  {
    seq(|queue|, i requires 0 <= i < |queue| => queue[i].note)
  }

  predicate Numbered(note: Note) { note.interrupt == 1 || note.interrupt == 2 || note.interrupt == 3 || note.interrupt == 5 }

  /** Nothing accepted is lost, repeated or reordered. */
  predicate InOrder(d: Drive) {
    && |d.queue| <= 2
    && d.books.accepted == d.books.delivered + Notes(d.queue)
    && forall i :: 0 <= i < |d.queue| ==> Numbered(d.queue[i].note)
  }

  function SectorNotes(notes: seq<Note>): nat {
    if notes == [] then 0
    else SectorNotes(notes[..|notes| - 1]) + if notes[|notes| - 1].interrupt == 1 then 1 else 0
  }

  /** Each data sector that passed is one accepted INT1. */
  predicate Announced(d: Drive) { SectorNotes(d.books.accepted) == |d.books.sectors| }

  /** The reading and seeking bits are never up together, and neither without the head to back it. */
  predicate Exclusive(d: Drive) {
    && !(d.status.reading && d.status.seeking)
    && (d.status.reading ==> d.head.reading)
    && (d.status.seeking ==> d.head.reading && d.head.seeking)
  }

  /** A read that was never late is exactly on the motor's schedule, at the sector it should be. */
  predicate Punctual(d: Drive) {
    d.head.reading ==>
      && d.head.lba == ToU32(d.books.from + d.books.passed)
      && (!d.books.late ==>
            && d.books.elapsed + d.head.remaining == SEEK_CYCLES + Times(d.books.passed + 1, SectorCycles(d.mode))
            && 0 < d.head.remaining <= SectorCycles(d.mode) + if d.books.passed == 0 then SEEK_CYCLES else 0)
  }

  predicate Sound(d: Drive) { InOrder(d) && Announced(d) && Exclusive(d) && Punctual(d) }

  lemma CountMore(notes: seq<Note>, note: Note)
    ensures SectorNotes(notes + [note]) == SectorNotes(notes) + if note.interrupt == 1 then 1 else 0
  {
    assert (notes + [note])[..|notes|] == notes;
  }

  lemma NotesMore(queue: seq<Answer>, a: Answer)
    ensures Notes(queue + [a]) == Notes(queue) + [a.note]
  {
  }

  lemma AnsweredKeeps(d: Drive, interrupt: U8, bytes: seq<U8>, delay: nat)
    requires InOrder(d) && Numbered(Note(interrupt, bytes))
    ensures var next := Answered(d, interrupt, bytes, delay);
      && InOrder(next)
      && SectorNotes(next.books.accepted) ==
         SectorNotes(d.books.accepted) + if |d.queue| < 2 && interrupt == 1 then 1 else 0
  {
    hide SectorNotes, Notes;
    var note := Note(interrupt, bytes);
    CountMore(d.books.accepted, note);
    NotesMore(d.queue, Answer(note, delay));
  }

  lemma AnsweredSound(d: Drive, interrupt: U8, bytes: seq<U8>, delay: nat)
    requires Sound(d) && (interrupt == 2 || interrupt == 3 || interrupt == 5)
    ensures Sound(Answered(d, interrupt, bytes, delay))
  {
    hide SectorNotes, InOrder, Times;
    AnsweredKeeps(d, interrupt, bytes, delay);
  }

  lemma LostPositionSound(d: Drive)
    requires Sound(d)
    ensures Sound(LostPosition(d))
  {
    hide SectorNotes, Notes, Times;
  }

  lemma HaltedSound(d: Drive, motor: bool)
    requires Sound(d)
    ensures Sound(Halted(d, motor))
  {
    hide SectorNotes, Notes, Times;
  }

  lemma MovedOnSound(d: Drive, overshoot: nat, cycles: nat)
    requires Sound(d) && d.head.reading && cycles == d.head.remaining + overshoot
    ensures Sound(MovedOn(d, overshoot, cycles))
  {
    hide SectorNotes, Notes;
    OneMore(d.books.from + d.books.passed, 0x1_0000_0000);
    var cps := SectorCycles(d.mode);
    assert Times(d.books.passed + 2, cps) == Times(d.books.passed + 1, cps) + cps;
    hide Times;
  }

  lemma PassedSound(d: Drive, overshoot: nat, cycles: nat, submode: U8)
    requires Sound(d) && d.head.reading && |d.queue| < 2 && cycles == d.head.remaining + overshoot
    ensures Sound(Passed(d, overshoot, cycles, submode))
  {
    MovedOnSound(d, overshoot, cycles);
    var next := MovedOn(d, overshoot, cycles);
    var held := Holding(next, d.head.lba);
    hide SectorNotes, Notes, StatusByte, IsAudio, Times, MovedOn;
    AnsweredKeeps(held, 1, [StatusByte(next.status)], 0);
  }

  lemma ReadAdvancedSound(d: Drive, cycles: nat, disc: Disc)
    requires Sound(d)
    ensures Sound(ReadAdvanced(d, cycles, disc))
  {
    hide SectorNotes, Notes, Times, StatusByte, Passed, LostPosition, Answered;
    if d.head.reading && d.head.remaining <= cycles && |d.queue| < 2 {
      match disc.submode(d.head.lba)
      case None =>
        LostPositionSound(d);
        var lost := LostPosition(d);
        AnsweredSound(lost, 5, [StatusByte(lost.status), 0x04], 0);
      case Some(submode) =>
        PassedSound(d, cycles - d.head.remaining, cycles, submode);
    }
  }

  lemma SpunDownSound(d: Drive, cycles: nat)
    requires Sound(d)
    ensures Sound(SpunDown(d, cycles))
  {
    hide SectorNotes, Notes, Times, SectorCycles, Numbered, ToU32;
    var next := SpunDown(d, cycles);
    assert next == d.(lid := next.lid, status := next.status);
  }

  lemma ShellReportedSound(d: Drive)
    requires Sound(d)
    ensures Sound(ShellReported(d))
  {
    hide SectorNotes, Notes, Times, Answered;
    AnsweredSound(d.(lid := d.lid.(report := false)), 5, [0x01, 0x08], 0);
  }

  lemma NotesHead(queue: seq<Answer>, left: nat)
    requires queue != []
    ensures Notes([Answer(queue[0].note, left)] + queue[1..]) == Notes(queue)
    ensures Notes(queue) == [queue[0].note] + Notes(queue[1..])
  {
  }

  lemma CountedSound(d: Drive, left: nat)
    requires Sound(d) && d.queue != []
    ensures Sound(d.(queue := [Answer(d.queue[0].note, left)] + d.queue[1..]))
  {
    hide SectorNotes, Notes, Times, SectorCycles, ToU32;
    NotesHead(d.queue, left);
  }

  lemma DeliveredSound(d: Drive)
    requires Sound(d) && d.queue != []
    ensures Sound(Delivered(d))
  {
    hide SectorNotes, Notes, Times, SectorCycles, ToU32;
    var head := d.queue[0].note;
    NotesHead(d.queue, 0);
    assert d.books.delivered + ([head] + Notes(d.queue[1..])) == d.books.delivered + [head] + Notes(d.queue[1..]);
  }

  lemma HeadAdvancedSound(d: Drive, cycles: nat)
    requires Sound(d)
    ensures Sound(HeadAdvanced(d, cycles))
  {
    hide Sound, Delivered;
    if d.queue != [] {
      var left := Max(0, d.queue[0].remaining - cycles);
      CountedSound(d, left);
      DeliveredSound(d.(queue := [Answer(d.queue[0].note, left)] + d.queue[1..]));
    }
  }

  lemma TickedSound(d: Drive, cycles: nat, disc: Disc)
    requires Sound(d)
    ensures Sound(Ticked(d, cycles, disc))
  {
    hide Sound, SpunDown, ShellReported, ReadAdvanced, HeadAdvanced;
    SpunDownSound(d, cycles);
    ShellReportedSound(SpunDown(d, cycles));
    ReadAdvancedSound(ShellReported(SpunDown(d, cycles)), cycles, disc);
    HeadAdvancedSound(ReadAdvanced(ShellReported(SpunDown(d, cycles)), cycles, disc), cycles);
  }

  lemma AcknowledgedSound(d: Drive)
    requires Sound(d)
    ensures Sound(Acknowledged(d))
  {
    hide Sound;
    AnsweredSound(d, 3, [StatusByte(d.status)], ACKNOWLEDGE_CYCLES);
  }

  lemma BegunSound(d: Drive)
    requires Sound(d)
    ensures Sound(Begun(d))
  {
    hide SectorNotes, Notes;
    assert Times(1, SectorCycles(d.mode)) == SectorCycles(d.mode);
  }

  lemma SeekSound(d: Drive, disc: Disc)
    requires Sound(d)
    ensures Sound(Executed(d, Seek, disc))
  {
    if !HasDisc(d, disc) || d.seekLba > SEEK_LIMIT_LBA {
      hide Sound, Answered, Acknowledged, LostPosition, StatusByte;
      AcknowledgedSound(d);
      LostPositionSound(Acknowledged(d));
      var lost := LostPosition(Acknowledged(d));
      AnsweredSound(lost, 5, [StatusByte(lost.status), 0x04], SECOND_ANSWER_CYCLES);
    } else {
      hide SectorNotes, Notes, Answered, Acknowledged, StatusByte, Times;
      HaltedSound(d, d.status.motor);
      var there := Arrived(d);
      AcknowledgedSound(there);
      AnsweredSound(Acknowledged(there), 2, [StatusByte(there.status)], SEEK_CYCLES);
    }
  }

  /** A field neither the queue, the books nor the read depends on. */
  lemma PlainFieldsSound(d: Drive, lba: U32, mode: U8, shellOpen: bool)
    requires Sound(d)
    ensures Sound(d.(seekLba := lba)) && Sound(d.(status := d.status.(shellOpen := shellOpen))) && Sound(d.(port := d.port.(busy := true)))
    ensures Sound(Remoded(d, mode)) && Sound(Afresh(d))
  {
    hide SectorNotes, Notes, Times;
  }

  lemma ExecutedSound(d: Drive, command: Command, disc: Disc)
    requires Sound(d)
    ensures Sound(Executed(d, command, disc))
  {
    hide Sound, Answered, Acknowledged, Halted, Begun, Remoded, Afresh, StatusByte, Failed, SectorCycles;
    AcknowledgedSound(d);
    var told := Acknowledged(d);
    match command
    case GetStat => PlainFieldsSound(told, 0, 0, false);
    case Quiet =>
    case SetLoc(target) =>
      if target.Some? {
        PlainFieldsSound(d, target.value, 0, false);
        AcknowledgedSound(d.(seekLba := target.value));
      }
    case SetMode(mode) =>
      PlainFieldsSound(d, 0, mode, false);
      AcknowledgedSound(Remoded(d, mode));
    case GetParam => AnsweredSound(d, 3, Parameters(StatusByte(d.status), d.mode), ACKNOWLEDGE_CYCLES);
    case GetLocP(report) =>
      AnsweredSound(d, 5, [StatusByte(d.status), 0x04], ACKNOWLEDGE_CYCLES);
      AnsweredSound(d, 3, report, ACKNOWLEDGE_CYCLES);
    case GetLocL(report) =>
      AnsweredSound(d, 5, [StatusByte(d.status), 0x80], ACKNOWLEDGE_CYCLES);
      AnsweredSound(d, 3, report, ACKNOWLEDGE_CYCLES);
    case Init =>
      PlainFieldsSound(d, 0, 0, false);
      var afresh := Afresh(d);
      AcknowledgedSound(afresh);
      AnsweredSound(Acknowledged(afresh), 2, [StatusByte(afresh.status)], INIT_CYCLES);
    case Stop =>
      HaltedSound(told, false);
      var halted := Halted(told, false);
      AnsweredSound(halted, 2, [StatusByte(halted.status)], PAUSE_CYCLES);
    case Pause =>
      HaltedSound(told, d.status.motor);
      var halted := Halted(told, d.status.motor);
      AnsweredSound(halted, 2, [StatusByte(halted.status)], PAUSE_CYCLES);
    case Read =>
      BegunSound(d);
      AcknowledgedSound(Begun(d));
      AnsweredSound(told, 5, [Failed(d), 0x04], SECOND_ANSWER_CYCLES);
    case Seek => SeekSound(d, disc);
    case ReadToc =>
      AnsweredSound(told, 2, [StatusByte(d.status)], INIT_CYCLES);
      AnsweredSound(told, 5, [Failed(d), 0x04], SECOND_ANSWER_CYCLES);
    case GetTrack(report) =>
      AnsweredSound(d, 3, report, ACKNOWLEDGE_CYCLES);
      AnsweredSound(d, 5, [Failed(d), 0x04], ACKNOWLEDGE_CYCLES);
    case TestVersion => AnsweredSound(d, 3, Version(), ACKNOWLEDGE_CYCLES);
    case GetId =>
      AnsweredSound(told, 2, Licensed(StatusByte(d.status)), SECOND_ANSWER_CYCLES);
      AnsweredSound(told, 5, NoDisc(StatusByte(d.status)), SECOND_ANSWER_CYCLES);
    case Unknown => AnsweredSound(d, 5, [Failed(d), 0x40], ACKNOWLEDGE_CYCLES);
  }

  lemma StepSound(d: Drive, event: Event, disc: Disc)
    requires Sound(d)
    ensures Sound(Step(d, event, disc))
  {
    hide SectorNotes, Notes, Times, Executed, Ticked;
    match event
    case Tick(cycles) => TickedSound(d, cycles, disc);
    case Send(command) =>
      PlainFieldsSound(d, 0, 0, false);
      ExecutedSound(d.(port := d.port.(busy := true)), command, disc);
    case Clear(value) =>
    case Enable(value) =>
    case Open =>
    case Close =>
  }

  /**
    Every run from reset: what was accepted is what was handed over and then what
    waits, at most two of those; data sectors and accepted INT1s are equally many;
    READING and SEEKING are never both up.
   */
  lemma {:induction false} RunSound(shellOpen: bool, moments: seq<Moment>)
    ensures Sound(Run(AtReset(shellOpen), moments))
  {
    if moments != [] {
      var last := moments[|moments| - 1];
      RunSound(shellOpen, moments[..|moments| - 1]);
      StepSound(Run(AtReset(shellOpen), moments[..|moments| - 1]), last.event, last.disc);
    }
  }

  // ---- the handshake ----

  predicate SameHandshake(d: Drive, next: Drive) { next.port.flag == d.port.flag && next.books.delivered == d.books.delivered }

  /** With no interrupt standing, the next answer accepted becomes the interrupt and the response. */
  predicate HandsOverNext(d: Drive, next: Drive) {
    && d.port.flag == 0 && |d.books.delivered| < |next.books.accepted|
    && var note := next.books.accepted[|d.books.delivered|];
    && next.books.delivered == d.books.delivered + [note]
    && next.port.flag == note.interrupt != 0 && next.port.response == note.bytes
  }

  lemma ReadKeepsHandshake(d: Drive, cycles: nat, disc: Disc)
    ensures SameHandshake(d, ReadAdvanced(d, cycles, disc))
  {
    hide StatusByte, Passed, LostPosition, Answered;
  }

  lemma ReadyKeepsHandshake(d: Drive, cycles: nat, disc: Disc)
    ensures SameHandshake(d, ReadAdvanced(ShellReported(SpunDown(d, cycles)), cycles, disc))
  {
    ReadKeepsHandshake(ShellReported(SpunDown(d, cycles)), cycles, disc);
    hide SpunDown, ShellReported, ReadAdvanced;
  }

  lemma ExecutedKeepsHandshake(d: Drive, command: Command, disc: Disc)
    ensures SameHandshake(d, Executed(d, command, disc))
  {
    hide StatusByte, Failed, SectorCycles, Answered, Acknowledged, Halted, LostPosition, HasDisc;
  }

  /**
    An answer is handed over only by a tick, only when no interrupt stands
    unacknowledged, and it is the next one in the order they were accepted.
   */
  lemma HandedOver(d: Drive, event: Event, disc: Disc)
    requires Sound(d)
    ensures var next := Step(d, event, disc);
      next.books.delivered == d.books.delivered || (event.Tick? && HandsOverNext(d, next))
  {
    if event.Tick? {
      var read := ReadAdvanced(ShellReported(SpunDown(d, event.cycles)), event.cycles, disc);
      ReadyKeepsHandshake(d, event.cycles, disc);
      assert Sound(read) by {
        SpunDownSound(d, event.cycles);
        ShellReportedSound(SpunDown(d, event.cycles));
        ReadAdvancedSound(ShellReported(SpunDown(d, event.cycles)), event.cycles, disc);
      }
      hide Sound;
      HeadHandedOver(read, event.cycles);
      hide ReadAdvanced, ShellReported, SpunDown, HeadAdvanced;
    } else if event.Send? {
      ExecutedKeepsHandshake(d.(port := d.port.(busy := true)), event.command, disc);
      hide Executed, Sound;
    }
  }

  lemma HeadHandedOver(d: Drive, cycles: nat)
    requires Sound(d)
    ensures var next := HeadAdvanced(d, cycles);
      SameHandshake(d, next) || HandsOverNext(d, next)
  {
    hide Announced, Exclusive, Punctual, Notes;
    if d.queue != [] { NotesHead(d.queue, 0); }
  }

  /** Until software acknowledges, nothing more is handed over and the interrupt stays what it was. */
  lemma {:induction false} NothingOverAnInterrupt(d: Drive, moments: seq<Moment>)
    requires Sound(d) && d.port.flag != 0
    requires forall i :: 0 <= i < |moments| ==> !moments[i].event.Clear?
    ensures Sound(Run(d, moments))
    ensures Run(d, moments).port.flag == d.port.flag && Run(d, moments).books.delivered == d.books.delivered
  {
    if moments != [] {
      var last := moments[|moments| - 1];
      var before := Run(d, moments[..|moments| - 1]);
      NothingOverAnInterrupt(d, moments[..|moments| - 1]);
      StepSound(before, last.event, last.disc);
      FlagHeld(before, last.event, last.disc);
    }
  }

  lemma FlagHeld(d: Drive, event: Event, disc: Disc)
    requires d.port.flag != 0 && !event.Clear?
    ensures Step(d, event, disc).port.flag == d.port.flag && Step(d, event, disc).books.delivered == d.books.delivered
  {
    if event.Tick? {
      ReadyKeepsHandshake(d, event.cycles, disc);
      hide ReadAdvanced, ShellReported, SpunDown;
    } else if event.Send? {
      ExecutedKeepsHandshake(d.(port := d.port.(busy := true)), event.command, disc);
      hide Executed;
    }
  }
}
