/** The drive's side of the handshake as software meets it: acknowledging, the next answer, and what each command says. */
module CdRomHandshake {
  import opened Words
  import opened CdRom
  import opened CdRomReading
  import opened CdRomDrive

  // ---- the status byte ----

  /** Each bit of the status byte is its own flag, and the error and play bits are never up in it. */
  lemma StatusBits(s: Status)
    ensures var b := StatusByte(s);
      && (b / 2 % 2 == 1 <==> s.motor) && (b / 4 % 2 == 1 <==> s.seekError) && (b / 0x10 % 2 == 1 <==> s.shellOpen)
      && (b / 0x20 % 2 == 1 <==> s.reading) && (b / 0x40 % 2 == 1 <==> s.seeking)
      && b % 2 == 0 && b / 8 % 2 == 0 && b < 0x80
  {
    var m, e, o, r, k := Bit(s.motor, 1), Bit(s.seekError, 1), Bit(s.shellOpen, 1), Bit(s.reading, 1), Bit(s.seeking, 1);
    assert StatusByte(s) == 2 * m + 4 * e + 16 * o + 32 * r + 64 * k;
    hide StatusByte;
    FiveBitsApart(m, e, o, r, k);
  }

  lemma FiveBitsApart(m: nat, e: nat, o: nat, r: nat, k: nat)
    requires m < 2 && e < 2 && o < 2 && r < 2 && k < 2
    ensures var b := 2 * m + 4 * e + 16 * o + 32 * r + 64 * k;
      && b / 2 % 2 == m && b / 4 % 2 == e && b / 0x10 % 2 == o && b / 0x20 % 2 == r && b / 0x40 % 2 == k
      && b % 2 == 0 && b / 8 % 2 == 0 && b < 0x80
  {
    var b := 2 * m + 4 * e + 16 * o + 32 * r + 64 * k;
    assert b / 2 == m + 2 * (e + 4 * o + 8 * r + 16 * k);
    assert b / 4 == e + 2 * (2 * o + 4 * r + 8 * k);
    assert b / 8 == 2 * (o + 2 * r + 4 * k);
    assert b / 16 == o + 2 * (r + 2 * k);
    assert b / 32 == r + 2 * k;
    assert b / 64 == k;
  }

  /** A refusal is the same byte with the error bit up. */
  lemma FailedBits(d: Drive)
    ensures Failed(d) % 2 == 1 && Failed(d) / 2 == StatusByte(d.status) / 2
  {
  }

  /** Seventy-five sectors to a second of the machine's clock, and twice that with the top bit of the mode. */
  lemma SectorRate(mode: U8)
    ensures SectorCycles(mode) * (if mode >= 0x80 then 150 else 75) == 33868800
  {
  }

  /** A sector of compressed sound says so in three bits of its submode, and is kept from software only while the mode has the drive play them. */
  lemma UsualSectors()
    ensures IsAudio(0x40, 0x64) && IsAudio(0xC8, 0xE4)
    ensures !IsAudio(0x80, 0x64) && !IsAudio(0x40, 0x08) && !IsAudio(0x40, 0x60) && !IsAudio(0x40, 0x44) && !IsAudio(0x40, 0x24)
  {
  }

  // ---- acknowledging ----

  /** A one clears its bit and a zero leaves it: so 7 clears any interrupt and 0 none. */
  lemma ClearedBits(d: Drive, value: U8)
    requires d.port.flag < 8
    ensures var was, flag := d.port.flag, Cleared(d, value).port.flag;
      && flag % 2 == (if value % 2 == 1 then 0 else was % 2)
      && flag / 2 % 2 == (if value / 2 % 2 == 1 then 0 else was / 2 % 2)
      && flag / 4 == (if value / 4 % 2 == 1 then 0 else was / 4)
      && (value % 8 == 7 ==> flag == 0) && (value % 8 == 0 ==> flag == was)
    ensures Cleared(d, value) == d.(port := d.port.(flag := Cleared(d, value).port.flag))
  {
    var was := d.port.flag;
    var a := if value % 2 == 1 then 0 else was % 2;
    var b := if value / 2 % 2 == 1 then 0 else was / 2 % 2;
    var c := if value / 4 % 2 == 1 then 0 else was / 4;
    ThreeBits(was);
    assert Cleared(d, value).port.flag == ToU8(a + 2 * b + 4 * c) by {
      assert BitLeft(was, value, 1) == a && BitLeft(was, value, 2) == 2 * b && BitLeft(was, value, 4) == 4 * c;
      assert BitLeft(was, value, 8) == 0 && BitLeft(was, value, 16) == 0;
    }
    ThreeBitsApart(a, b, c);
    LowBits(value);
  }

  lemma ThreeBits(flag: nat)
    requires flag < 8
    ensures flag == flag % 2 + 2 * (flag / 2 % 2) + 4 * (flag / 4) && flag / 4 % 2 == flag / 4 < 2 && flag / 8 == 0 && flag / 16 == 0
  {
  }

  lemma ThreeBitsApart(a: nat, b: nat, c: nat)
    requires a < 2 && b < 2 && c < 2
    ensures var flag := a + 2 * b + 4 * c; ToU8(flag) == flag && flag % 2 == a && flag / 2 % 2 == b && flag / 4 == c
  {
  }

  lemma LowBits(value: nat)
    ensures value % 8 == 7 ==> value % 2 == 1 && value / 2 % 2 == 1 && value / 4 % 2 == 1
    ensures value % 8 == 0 ==> value % 2 == 0 && value / 2 % 2 == 0 && value / 4 % 2 == 0
  {
    var q, r := value / 8, value % 8;
    assert value == 8 * q + r;
    if r == 7 {
      UniqueRemainder(value, 2, 4 * q + 3, 1);
      UniqueRemainder(4 * q + 3, 2, 2 * q + 1, 1);
      UniqueRemainder(value, 4, 2 * q + 1, 3);
    } else if r == 0 {
      UniqueRemainder(value, 2, 4 * q, 0);
      UniqueRemainder(4 * q, 2, 2 * q, 0);
      UniqueRemainder(value, 4, 2 * q, 0);
    }
  }

  /** The line follows the flag through the enables: all of them on, it is up exactly while an interrupt stands. */
  lemma LineFollows(port: Port)
    requires port.flag < 0x20
    ensures port.enable == 0x1F ==> (LineActive(port) <==> port.flag != 0)
    ensures port.enable == 0 ==> !LineActive(port)
    ensures port.enable < 0x20 && LineActive(port) ==> port.flag != 0 && port.enable != 0
  {
    if port.flag != 0 { SomeBit(port.flag); }
  }

  lemma SomeBit(flag: nat)
    requires 0 < flag < 0x20
    ensures HasBit(flag, 1) || HasBit(flag, 2) || HasBit(flag, 4) || HasBit(flag, 8) || HasBit(flag, 16)
  {
  }

  // ---- on every run ----

  lemma HeadFlag(d: Drive, cycles: nat)
    requires InOrder(d) && d.port.flag < 8
    ensures HeadAdvanced(d, cycles).port.flag < 8
  {
    hide Notes;
  }

  lemma StepFlag(d: Drive, event: Event, disc: Disc)
    requires Sound(d) && d.port.flag < 8
    ensures Step(d, event, disc).port.flag < 8
  {
    hide Announced, Exclusive, Punctual, Executed, HeadAdvanced, ReadAdvanced, ShellReported, SpunDown, Notes, Cleared;
    match event
    case Tick(cycles) =>
      var spun := SpunDown(d, cycles);
      SpunDownSound(d, cycles);
      ShellReportedSound(spun);
      ReadAdvancedSound(ShellReported(spun), cycles, disc);
      ReadyKeepsHandshake(d, cycles, disc);
      HeadFlag(ReadAdvanced(ShellReported(spun), cycles, disc), cycles);
    case Send(command) => ExecutedKeepsHandshake(d.(port := d.port.(busy := true)), command, disc);
    case Clear(value) => ClearedBits(d, value);
    case _ =>
  }

  /** The interrupt number never needs more than its three bits, whatever has been accepted, delivered or half cleared. */
  lemma {:induction false} FlagFitsThreeBits(open: bool, moments: seq<Moment>)
    ensures Run(AtReset(open), moments).port.flag < 8
  {
    hide Step, Sound;
    if moments != [] {
      var n := |moments| - 1;
      FlagFitsThreeBits(open, moments[..n]);
      RunSound(open, moments[..n]);
      StepFlag(Run(AtReset(open), moments[..n]), moments[n].event, moments[n].disc);
    }
  }

  lemma {:induction false} StaysSound(d: Drive, moments: seq<Moment>)
    requires Sound(d)
    ensures Sound(Run(d, moments))
  {
    hide Step, Sound;
    if moments != [] {
      var n := |moments| - 1;
      StaysSound(d, moments[..n]);
      StepSound(Run(d, moments[..n]), moments[n].event, moments[n].disc);
    }
  }

  lemma NextAccepted(d: Drive)
    requires Sound(d) && d.queue != []
    ensures |d.books.delivered| < |d.books.accepted| && d.books.accepted[|d.books.delivered|] == d.queue[0].note
  {
    hide Announced, Exclusive, Punctual, Numbered;
    NotesHead(d.queue, 0);
    var notes := Notes(d.queue);
    assert d.books.accepted == d.books.delivered + notes && notes[0] == d.queue[0].note;
    assert (d.books.delivered + notes)[|d.books.delivered|] == notes[0];
  }

  lemma TickedBy(d: Drive, cycles: nat, disc: Disc)
    requires Sound(d)
    ensures var next := Ticked(d, cycles, disc); next.books.delivered == d.books.delivered || HandsOverNext(d, next)
  {
    HandedOver(d, Tick(cycles), disc);
    hide Sound, Ticked;
  }

  lemma ClearedOf(d: Drive, value: U8, disc: Disc)
    requires d.port.flag < 8 && value % 8 == 7
    ensures Step(d, Clear(value), disc) == d.(port := d.port.(flag := 0))
  {
    ClearedBits(d, value);
    hide Cleared;
  }

  /**
    The whole handshake. At any moment of any run with an answer waiting, software writes its ones to
    the flag register and time passes. The next answer accepted is the next delivered, by the first
    tick that completes its delay and not before, as the interrupt and as the response.
   */
  lemma AcknowledgedIsAnswered(open: bool, past: seq<Moment>, value: U8, disc: Disc, cycles: nat, ticks: seq<Moment>)
    requires Run(AtReset(open), past).queue != [] && value % 8 == 7
    requires ticks != [] && AllTicks(ticks, cycles)
    requires var wait := Run(AtReset(open), past).queue[0].remaining;
      (|ticks| == 1 || Times(|ticks| - 1, cycles) < wait) && wait <= Times(|ticks|, cycles)
    ensures var d := Run(AtReset(open), past);
      var cleared := Step(d, Clear(value), disc);
      var next := Run(cleared, ticks);
      && |d.books.delivered| < |d.books.accepted|
      && var note := d.books.accepted[|d.books.delivered|];
      && Run(cleared, ticks[..|ticks| - 1]).books.delivered == d.books.delivered
      && next.books.delivered == d.books.delivered + [note]
      && next.port.flag == note.interrupt != 0 && next.port.response == note.bytes
  {
    hide Sound, Times, AllTicks, Ticked, Step, Run;
    var d, n := Run(AtReset(open), past), |ticks| - 1;
    RunSound(open, past);
    FlagFitsThreeBits(open, past);
    NextAccepted(d);
    ClearedOf(d, value, disc);
    StepSound(d, Clear(value), disc);
    var cleared := Step(d, Clear(value), disc);
    ComesDue(cleared, cycles, ticks);
    StaysSound(cleared, ticks[..n]);
    LastTick(cleared, cycles, ticks);
    TickedBy(Run(cleared, ticks[..n]), cycles, ticks[n].disc);
    SameLast(d.books.delivered, d.queue[0].note, Run(cleared, ticks));
  }

  lemma SameLast(before: seq<Note>, note: Note, next: Drive)
    requires next.books.delivered == before + [note]
    ensures next.books.delivered[|before|] == note && forall other: Note :: next.books.delivered == before + [other] ==> other == note
  {
    forall other: Note | next.books.delivered == before + [other] ensures other == note {
      assert (before + [other])[|before|] == other;
    }
  }

  // ---- what each command says, and does ----

  /** The commands with a second answer once the first has been taken. */
  predicate AnswersTwice(d: Drive, command: Command, disc: Disc) {
    command.Init? || command.Stop? || command.Pause? || command.Seek? || command.ReadToc? || command.GetId? || (command.Read? && !HasDisc(d, disc))
  }

  /** The ones refused outright. */
  predicate Refuses(d: Drive, command: Command, disc: Disc) {
    || command.Unknown?
    || (command.GetLocP? && d.status.seekError)
    || (command.GetLocL? && !(HasDisc(d, disc) && d.head.located))
    || (command.GetTrack? && !HasDisc(d, disc))
  }

  /** The ones that are heard and then turn out not to be possible. */
  predicate FailsLater(d: Drive, command: Command, disc: Disc) {
    || ((command.Read? || command.ReadToc? || command.GetId?) && !HasDisc(d, disc))
    || (command.Seek? && (!HasDisc(d, disc) || d.seekLba > SEEK_LIMIT_LBA))
  }

  /** Heard (3) or refused (5) a fixed time on, and for the slow ones done (2) or not possible (5) after that. */
  predicate AnswersAsTold(d: Drive, command: Command, disc: Disc) {
    var queue := Executed(d, command, disc).queue;
    && |queue| == (if AnswersTwice(d, command, disc) then 2 else 1)
    && queue[0].note.interrupt == (if Refuses(d, command, disc) then 5 else 3)
    && queue[0].remaining == 0xC4E1
    && (|queue| == 2 ==> queue[1].note.interrupt == if FailsLater(d, command, disc) then 5 else 2)
  }

  /** No command goes unanswered when the queue is empty. */
  lemma EveryCommandAnswers(d: Drive, command: Command, disc: Disc)
    requires d.queue == []
    ensures AnswersAsTold(d, command, disc)
  {
    if command.Seek? {
      SeekAnswers(d, disc);
      hide AnswersAsTold, Executed;
    } else if command.Init? || command.Stop? || command.Pause? {
      HaltAnswers(d, command, disc);
      hide AnswersAsTold, Executed;
    } else if command.Read? || command.ReadToc? || command.GetId? {
      DiscAnswers(d, command, disc);
      hide AnswersAsTold, Executed;
    } else {
      AnswersOnce(d, command, disc);
      hide AnswersAsTold, Executed;
    }
  }

  lemma AnswersOnce(d: Drive, command: Command, disc: Disc)
    requires d.queue == [] && !(command.Seek? || command.Init? || command.Stop? || command.Pause? || command.Read? || command.ReadToc? || command.GetId?)
    ensures AnswersAsTold(d, command, disc)
  {
    hide StatusByte, SectorCycles, Answered, Acknowledged, LostPosition, Halted, HasDisc, Afresh, Begun, Arrived;
    FirstAnswer(d, 3, Version());
    FirstAcknowledged(d);
    match command
    case SetLoc(target) => FirstAcknowledged(if target.Some? then d.(seekLba := target.value) else d);
    case SetMode(mode) => FirstAcknowledged(Remoded(d, mode));
    case GetParam => FirstAnswer(d, 3, Parameters(StatusByte(d.status), d.mode));
    case GetLocP(report) => FirstAnswer(d, 5, [StatusByte(d.status), 0x04]); FirstAnswer(d, 3, report);
    case GetLocL(report) => FirstAnswer(d, 5, [StatusByte(d.status), 0x80]); FirstAnswer(d, 3, report);
    case GetTrack(report) => FirstAnswer(d, 3, report); FirstAnswer(d, 5, [Failed(d), 0x04]);
    case Unknown => FirstAnswer(d, 5, [Failed(d), 0x40]);
    case _ =>
  }

  lemma HaltAnswers(d: Drive, command: Command, disc: Disc)
    requires d.queue == [] && (command.Init? || command.Stop? || command.Pause?)
    ensures AnswersAsTold(d, command, disc)
  {
    hide StatusByte, SectorCycles, Answered, Acknowledged, LostPosition, Halted, HasDisc, Begun, Arrived;
    FirstAcknowledged(d);
    if command.Init? {
      FirstAcknowledged(Afresh(d));
      SecondAnswer(Acknowledged(Afresh(d)), 2, [StatusByte(Afresh(d).status)], INIT_CYCLES);
    } else {
      var motor := command.Pause? && d.status.motor;
      var halted := Halted(Acknowledged(d), motor);
      HaltedKeepsQueue(Acknowledged(d), motor);
      SecondAnswer(halted, 2, [StatusByte(halted.status)], PAUSE_CYCLES);
    }
  }

  lemma DiscAnswers(d: Drive, command: Command, disc: Disc)
    requires d.queue == [] && (command.Read? || command.ReadToc? || command.GetId?)
    ensures AnswersAsTold(d, command, disc)
  {
    hide StatusByte, SectorCycles, Answered, Acknowledged, LostPosition, Halted, HasDisc, Afresh, Arrived;
    FirstAcknowledged(Begun(d));
    FirstAcknowledged(d);
    var told := Acknowledged(d);
    SecondAnswer(told, 5, [Failed(d), 0x04], SECOND_ANSWER_CYCLES);
    SecondAnswer(told, 2, [StatusByte(d.status)], INIT_CYCLES);
    SecondAnswer(told, 2, Licensed(StatusByte(d.status)), SECOND_ANSWER_CYCLES);
    SecondAnswer(told, 5, NoDisc(StatusByte(d.status)), SECOND_ANSWER_CYCLES);
  }

  lemma SeekAnswers(d: Drive, disc: Disc)
    requires d.queue == []
    ensures AnswersAsTold(d, Seek, disc)
  {
    hide StatusByte, Answered, Acknowledged, HasDisc;
    FirstAcknowledged(d);
    var lost := LostPosition(Acknowledged(d));
    SecondAnswer(lost, 5, [StatusByte(lost.status), 0x04], SECOND_ANSWER_CYCLES);
    var there := Arrived(d);
    FirstAcknowledged(there);
    SecondAnswer(Acknowledged(there), 2, [StatusByte(there.status)], SEEK_CYCLES);
  }

  lemma FirstAnswer(d: Drive, interrupt: U8, bytes: seq<U8>)
    requires d.queue == []
    ensures Answered(d, interrupt, bytes, ACKNOWLEDGE_CYCLES).queue == [Answer(Note(interrupt, bytes), 0xC4E1)]
  {
    assert ACKNOWLEDGE_CYCLES == 0xC4E1;
    assert d.queue + [Answer(Note(interrupt, bytes), 0xC4E1)] == [Answer(Note(interrupt, bytes), 0xC4E1)];
  }

  lemma FirstAcknowledged(d: Drive)
    requires d.queue == []
    ensures Acknowledged(d).queue == [Answer(Note(3, [StatusByte(d.status)]), 0xC4E1)]
  {
    hide StatusByte, Answered;
    FirstAnswer(d, 3, [StatusByte(d.status)]);
  }

  lemma SecondAnswer(d: Drive, interrupt: U8, bytes: seq<U8>, delay: nat)
    requires |d.queue| == 1
    ensures Answered(d, interrupt, bytes, delay).queue == [d.queue[0], Answer(Note(interrupt, bytes), delay)]
  {
    assert d.queue == [d.queue[0]];
  }

  lemma HaltedKeepsQueue(d: Drive, motor: bool)
    ensures Halted(d, motor).queue == d.queue
  {
  }

  /** An answer is nothing but an answer: the drive is otherwise as it was. */
  lemma OnlyAnswers(d: Drive, interrupt: U8, bytes: seq<U8>, delay: nat)
    ensures var next := Answered(d, interrupt, bytes, delay);
      next.head == d.head && next.lid == d.lid && next.seekLba == d.seekLba && next.port == d.port && next.status == d.status && next.mode == d.mode
  {
  }

  lemma OnlyAcknowledges(d: Drive)
    ensures var next := Acknowledged(d);
      next.head == d.head && next.lid == d.lid && next.seekLba == d.seekLba && next.port == d.port && next.status == d.status && next.mode == d.mode
  {
    OnlyAnswers(d, 3, [StatusByte(d.status)], ACKNOWLEDGE_CYCLES);
    hide Answered, StatusByte;
  }

  /** A read that can be made is under way: a seek to the place asked for, then a sector. */
  lemma ReadTakesEffect(d: Drive, disc: Disc)
    requires HasDisc(d, disc)
    ensures var next := Executed(d, Read, disc);
      && next.head.reading && next.head.seeking && next.head.lba == d.seekLba && next.status == d.status.(reading := false, seeking := true)
      && next.head.remaining == 9031680 + SectorCycles(d.mode)
  {
    OnlyAcknowledges(Begun(d));
    hide Answered, Acknowledged, SectorCycles, HasDisc;
    assert SEEK_CYCLES == 9031680;
  }

  /** A seek that can be made leaves the head at rest over the place asked for; one that cannot stops the drive, its position lost. */
  lemma SeekTakesEffect(d: Drive, disc: Disc)
    ensures var next := Executed(d, Seek, disc);
      && !next.head.reading && !next.status.reading && !next.status.seeking
      && if FailsLater(d, Seek, disc) then next.status.seekError && !next.status.motor && !next.head.located
         else next.status.motor == d.status.motor && next.head.lba == d.seekLba && next.head.located && next.buffer == Header(d.seekLba)
  {
    hide Answered, Acknowledged, HasDisc, StatusByte;
    var lost := LostPosition(Acknowledged(d));
    OnlyAnswers(lost, 5, [StatusByte(lost.status), 0x04], SECOND_ANSWER_CYCLES);
    var there := Arrived(d);
    OnlyAcknowledges(there);
    OnlyAnswers(Acknowledged(there), 2, [StatusByte(there.status)], SEEK_CYCLES);
  }

  /** The three that end a read: a stop takes the motor down, a pause leaves it, a reset brings it up and forgets the mode. */
  lemma HaltsTakeEffect(d: Drive, command: Command, disc: Disc)
    requires command.Stop? || command.Pause? || command.Init?
    ensures var next := Executed(d, command, disc);
      && !next.head.reading && !next.status.reading && !next.status.seeking
      && next.status.motor == (command.Init? || (command.Pause? && d.status.motor))
      && next.mode == (if command.Init? then 0 else d.mode)
      && (command.Init? ==> !next.status.seekError)
  {
    hide Answered, Acknowledged, StatusByte;
  }

  /** The settings a command leaves are the ones it was given, and only a shut lid's bit goes down when it is read. */
  lemma SettingsTakeEffect(d: Drive, command: Command, disc: Disc)
    ensures var next := Executed(d, command, disc);
      && (command.SetMode? ==> next.mode == command.mode)
      && next.seekLba == (if command.SetLoc? && command.target.Some? then command.target.value else d.seekLba)
      && next.lid == d.lid && next.status.shellOpen == (d.status.shellOpen && (d.lid.open || !command.GetStat?))
  {
    EveryAnswerOnlyAnswers();
    hide StatusByte, SectorCycles, HasDisc, Version, Licensed, NoDisc, Parameters, Failed, Answered;
    if command.Seek? || command.Init? || command.Stop? || command.Pause? {
      MovesLeaveSettings(d, command, disc);
      hide Executed;
    }
  }

  lemma EveryAnswerOnlyAnswers()
    ensures forall d: Drive, interrupt: U8, bytes: seq<U8>, delay: nat ::
      var next := Answered(d, interrupt, bytes, delay); next.lid == d.lid && next.seekLba == d.seekLba
  {
  }

  lemma MovesLeaveSettings(d: Drive, command: Command, disc: Disc)
    requires command.Seek? || command.Init? || command.Stop? || command.Pause?
    ensures var next := Executed(d, command, disc); next.seekLba == d.seekLba && next.lid == d.lid && next.status.shellOpen == d.status.shellOpen
  {
    EveryAnswerOnlyAnswers();
    hide StatusByte, SectorCycles, HasDisc, Answered;
  }

  /** The lid: lifting it stops everything and owes an answer, shutting it leaves the bit up for software to see. */
  lemma LidTakesEffect(d: Drive, disc: Disc)
    ensures var open := Step(d, Open, disc); open.lid.open && (!d.lid.open ==> open.lid.report && !open.head.reading && open.status.shellOpen && !open.head.located)
    ensures var shut := Step(d, Close, disc); !shut.lid.open && shut.status.shellOpen && shut.lid.report == d.lid.report && !shut.status.motor
  {
  }
}
