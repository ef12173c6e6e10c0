/** Sectors, their announcements and the motor's schedule: what software can count on while a read runs. */
module CdRomReading {
  import opened Words
  import opened CdRom

  // ---- the schedule ----

  /**
    A read that was never late has passed exactly as many sectors as the motor
    has turned up since the seek: the tick's coarse grain never accumulates.
   */
  lemma SectorsByTheClock(shellOpen: bool, moments: seq<Moment>)
    ensures var d := Run(AtReset(shellOpen), moments);
      d.head.reading && !d.books.late ==>
        d.books.passed == if d.books.elapsed < SEEK_CYCLES then 0 else (d.books.elapsed - SEEK_CYCLES) / SectorCycles(d.mode)
  {
    RunSound(shellOpen, moments);
    var d := Run(AtReset(shellOpen), moments);
    hide Run, InOrder, Announced, Exclusive, Times;
    if d.head.reading && !d.books.late {
      WholeSectors(d.books.elapsed - SEEK_CYCLES, d.head.remaining, d.books.passed, SectorCycles(d.mode));
    }
  }

  lemma WholeSectors(turned: int, remaining: nat, passed: nat, sector: nat)
    requires sector > 0 && turned + remaining == Times(passed + 1, sector)
    requires remaining > 0 && (passed > 0 ==> remaining <= sector)
    ensures passed == if turned < 0 then 0 else turned / sector
  {
    assert Times(passed + 1, sector) == Times(passed, sector) + sector;
    assert Times(0, sector) == 0;
    if turned >= 0 {
      UniqueRemainder(turned, sector, passed, sector - remaining);
    } else if passed > 0 {
      MulMono(1, passed, sector);
    }
  }

  /** What makes a read late: the queue full when a sector is due, a change of speed, or a tick longer than a sector. */
  predicate MakesLate(d: Drive, event: Event) {
    match event
    case Tick(cycles) =>
      d.head.remaining <= cycles
      && (|d.queue| >= 2 || (|d.queue| == 1 && d.lid.report) || cycles - d.head.remaining >= SectorCycles(d.mode))
    case Send(command) => command.SetMode? && SectorCycles(command.mode) != SectorCycles(d.mode)
    case _ => false
  }

  lemma LateExactly(d: Drive, event: Event, disc: Disc)
    requires d.head.reading && !d.books.late && !(event.Send? && event.command.Read?)
    ensures var next := Step(d, event, disc); next.head.reading ==> (next.books.late <==> MakesLate(d, event))
  {
    hide StatusByte, Failed, SectorCycles, Sound, Ticked, Executed;
    match event
    case Tick(cycles) => TickLate(d, cycles, disc);
    case Send(command) => SendLate(d.(port := d.port.(busy := true)), command, disc);
    case _ =>
  }

  lemma TickLate(d: Drive, cycles: nat, disc: Disc)
    requires d.head.reading && !d.books.late
    ensures var next := Ticked(d, cycles, disc); next.head.reading ==> (next.books.late <==> MakesLate(d, Tick(cycles)))
  {
    hide SectorCycles, SpunDown, ShellReported, ReadAdvanced;
    ReadLate(ShellReported(SpunDown(d, cycles)), cycles, disc);
  }

  lemma SendLate(d: Drive, command: Command, disc: Disc)
    requires d.head.reading && !d.books.late && !command.Read?
    ensures var next := Executed(d, command, disc); next.head.reading ==> (next.books.late <==> MakesLate(d, Send(command)))
  {
    hide StatusByte, Failed, SectorCycles, Answered, Acknowledged, HasDisc;
  }

  lemma ReadLate(d: Drive, cycles: nat, disc: Disc)
    requires d.head.reading && !d.books.late
    ensures var next := ReadAdvanced(d, cycles, disc);
      next.head.reading ==> (next.books.late <==>
        d.head.remaining <= cycles && (|d.queue| >= 2 || cycles - d.head.remaining >= SectorCycles(d.mode)))
  {
    hide StatusByte, Passed, LostPosition, Answered, SectorCycles;
  }

  // ---- the status byte ----

  /** Each of the two bits is up if and only if the head is in that state. */
  predicate Tells(d: Drive) { (d.status.reading <==> d.head.reading && !d.head.seeking) && (d.status.seeking <==> d.head.reading && d.head.seeking) }

  /** They do from one step to the next, except when a lid already shut is closed again under a running read. */
  lemma StatusTells(d: Drive, event: Event, disc: Disc)
    requires Sound(d) && Tells(d)
    ensures Tells(Step(d, event, disc)) <==> !(event.Close? && d.head.reading)
  {
    hide Exclusive, StatusByte, Failed, SectorCycles, Sound, Ticked, Executed;
    match event
    case Tick(cycles) => TickTells(d, cycles, disc);
    case Send(command) => SendTells(d.(port := d.port.(busy := true)), command, disc);
    case _ =>
  }

  /** On a run where that never happens they tell at every moment. */
  lemma {:induction false} RunTells(open: bool, moments: seq<Moment>)
    requires forall i :: 0 <= i < |moments| && moments[i].event.Close? ==> !Run(AtReset(open), moments[..i]).head.reading
    ensures Tells(Run(AtReset(open), moments))
  {
    if moments != [] {
      var n := |moments| - 1;
      forall i | 0 <= i < n && moments[..n][i].event.Close?
        ensures !Run(AtReset(open), moments[..n][..i]).head.reading
      {
        assert moments[..n][..i] == moments[..i];
      }
      hide Step, Tells, Sound;
      RunTells(open, moments[..n]);
      RunSound(open, moments[..n]);
      StatusTells(Run(AtReset(open), moments[..n]), moments[n].event, moments[n].disc);
    }
  }

  /** And on this one it does: the first command since power on is a read, and the lid, which is shut, is closed. */
  lemma TellsNoMore(disc: Disc)
    requires disc.loaded
    ensures var sent := [Moment(Send(Read), disc)];
      Tells(Run(AtReset(false), sent)) && !Tells(Run(AtReset(false), sent + [Moment(Close, disc)]))
  {
    var sent, shut := [Moment(Send(Read), disc)], [Moment(Send(Read), disc), Moment(Close, disc)];
    assert sent + [Moment(Close, disc)] == shut && shut[..1] == sent && sent[..0] == [];
    RunTells(false, sent);
    RunSound(false, sent);
    var d := Run(AtReset(false), sent);
    assert d.head.reading by { ReadBegins(disc); }
    hide Tells, Sound, Step;
    StatusTells(d, Close, disc);
  }

  lemma ReadBegins(disc: Disc)
    requires disc.loaded
    ensures Run(AtReset(false), [Moment(Send(Read), disc)]).head.reading
  {
    hide StatusByte, Acknowledged;
    assert [Moment(Send(Read), disc)][..0] == [];
  }

  lemma TickTells(d: Drive, cycles: nat, disc: Disc)
    requires Tells(d)
    ensures Tells(Ticked(d, cycles, disc))
  {
    hide SpunDown, ShellReported, ReadAdvanced;
    ReadTells(ShellReported(SpunDown(d, cycles)), cycles, disc);
  }

  lemma ReadTells(d: Drive, cycles: nat, disc: Disc)
    requires Tells(d)
    ensures Tells(ReadAdvanced(d, cycles, disc))
  {
    hide SectorCycles, StatusByte, Passed, Answered, LostPosition;
  }

  lemma SendTells(d: Drive, command: Command, disc: Disc)
    requires Tells(d)
    ensures Tells(Executed(d, command, disc))
  {
    hide StatusByte, Failed, SectorCycles, Answered, Acknowledged, HasDisc, Halted, LostPosition;
  }

  // ---- the buffer and its announcements ----

  /** A sector in the buffer is the last that passed. */
  predicate Buffered(d: Drive) {
    d.buffer.Sector? ==> |d.books.sectors| > 0 && d.buffer.lba == d.books.sectors[|d.books.sectors| - 1]
  }

  lemma PassedBuffered(d: Drive, overshoot: nat, cycles: nat, submode: U8)
    requires Buffered(d)
    ensures Buffered(Passed(d, overshoot, cycles, submode))
  {
    hide SectorCycles, StatusByte, IsAudio, Answered;
  }

  lemma ReadBuffered(d: Drive, cycles: nat, disc: Disc)
    requires Buffered(d)
    ensures Buffered(ReadAdvanced(d, cycles, disc))
  {
    hide SectorCycles, StatusByte, Passed, Answered;
    if d.head.remaining <= cycles && disc.submode(d.head.lba).Some? {
      PassedBuffered(d, cycles - d.head.remaining, cycles, disc.submode(d.head.lba).value);
    }
  }

  lemma SendBuffered(d: Drive, command: Command, disc: Disc)
    requires Buffered(d)
    ensures Buffered(Executed(d, command, disc))
  {
    hide StatusByte, Failed, SectorCycles, Answered, Acknowledged, HasDisc;
  }

  lemma StepBuffered(d: Drive, event: Event, disc: Disc)
    requires Buffered(d)
    ensures Buffered(Step(d, event, disc))
  {
    hide ReadAdvanced, SpunDown, ShellReported, Executed;
    match event
    case Tick(cycles) => ReadBuffered(ShellReported(SpunDown(d, cycles)), cycles, disc);
    case Send(command) => SendBuffered(d.(port := d.port.(busy := true)), command, disc);
    case _ =>
  }

  lemma {:induction false} RunBuffered(shellOpen: bool, moments: seq<Moment>)
    ensures Buffered(Run(AtReset(shellOpen), moments))
  {
    if moments != [] {
      var last := moments[|moments| - 1];
      RunBuffered(shellOpen, moments[..|moments| - 1]);
      StepBuffered(Run(AtReset(shellOpen), moments[..|moments| - 1]), last.event, last.disc);
    }
  }

  lemma {:induction false} CountJoined(a: seq<Note>, b: seq<Note>)
    ensures SectorNotes(a + b) == SectorNotes(a) + SectorNotes(b)
  {
    if b == [] {
      assert a + b == a;
    } else {
      CountJoined(a, b[..|b| - 1]);
      assert (a + b)[..|a + b| - 1] == a + b[..|b| - 1];
    }
  }

  /**
    The INT1 last handed over is about the sector in the buffer exactly when no
    other INT1 waits: one sector is announced per interrupt, but the buffer always
    holds the newest.
   */
  lemma BufferedIsAnnounced(shellOpen: bool, moments: seq<Moment>)
    ensures var d := Run(AtReset(shellOpen), moments);
      var told := SectorNotes(d.books.delivered);
      && told <= |d.books.sectors|
      && (d.buffer.Sector? && told > 0 ==>
            && d.buffer.lba == d.books.sectors[|d.books.sectors| - 1]
            && (told == |d.books.sectors| <==> forall i :: 0 <= i < |d.queue| ==> d.queue[i].note.interrupt != 1))
  {
    hide SectorNotes, Notes, Exclusive, Punctual, Run;
    RunSound(shellOpen, moments);
    RunBuffered(shellOpen, moments);
    var d := Run(AtReset(shellOpen), moments);
    CountJoined(d.books.delivered, Notes(d.queue));
    WaitingSectors(d.queue);
  }

  lemma WaitingSectors(queue: seq<Answer>)
    requires |queue| <= 2
    ensures SectorNotes(Notes(queue)) == 0 <==> forall i :: 0 <= i < |queue| ==> queue[i].note.interrupt != 1
  {
    if |queue| == 1 {
      assert Notes(queue) == [] + [queue[0].note];
      CountMore([], queue[0].note);
    } else if |queue| == 2 {
      assert Notes(queue) == [] + [queue[0].note] + [queue[1].note];
      CountMore([], queue[0].note);
      CountMore([queue[0].note], queue[1].note);
      assert [] + [queue[0].note] == [queue[0].note];
    }
  }

  // ---- an answer comes due ----

  predicate AllTicks(moments: seq<Moment>, cycles: nat) { forall i :: 0 <= i < |moments| ==> moments[i].event == Tick(cycles) }

  predicate SameHead(d: Drive, next: Drive)
    requires d.queue != []
  {
    next.queue != [] && next.queue[0] == d.queue[0] && next.port.flag == d.port.flag && next.books.delivered == d.books.delivered
  }

  lemma ReadKeepsHead(d: Drive, cycles: nat, disc: Disc)
    requires d.queue != []
    ensures SameHead(d, ReadAdvanced(d, cycles, disc))
  {
    hide SectorCycles, StatusByte, Passed, Answered, LostPosition;
  }

  lemma ReadyKeepsHead(d: Drive, cycles: nat)
    requires d.queue != []
    ensures SameHead(d, ShellReported(SpunDown(d, cycles)))
  {
    hide ShellReported, SpunDown;
  }

  lemma HeadCounts(d: Drive, cycles: nat, disc: Disc)
    requires d.queue != [] && d.port.flag == 0
    ensures var next, head := Ticked(d, cycles, disc), d.queue[0];
      if head.remaining <= cycles then next.books.delivered == d.books.delivered + [head.note]
      else next.queue != [] && next.queue[0] == Answer(head.note, head.remaining - cycles) && next.port.flag == 0
           && next.books.delivered == d.books.delivered
  {
    hide ReadAdvanced, ShellReported, SpunDown;
    var ready := ShellReported(SpunDown(d, cycles));
    ReadyKeepsHead(d, cycles);
    ReadKeepsHead(ready, cycles, disc);
  }

  lemma LastTick(d: Drive, cycles: nat, moments: seq<Moment>)
    requires moments != [] && AllTicks(moments, cycles)
    ensures var n := |moments| - 1;
      Run(d, moments) == Ticked(Run(d, moments[..n]), cycles, moments[n].disc) && AllTicks(moments[..n], cycles)
  {
  }

  /** The head of the queue, `left` cycles from being given, with nothing in its way. */
  predicate Waits(d: Drive, from: Drive, note: Note, left: int) {
    d.queue != [] && d.port.flag == 0 && d.queue[0].note == note && d.queue[0].remaining == left && d.books.delivered == from.books.delivered
  }

  lemma {:induction false} StillWaits(d: Drive, cycles: nat, moments: seq<Moment>)
    requires d.queue != [] && d.port.flag == 0 && AllTicks(moments, cycles)
    requires Times(|moments|, cycles) < d.queue[0].remaining || moments == []
    ensures Waits(Run(d, moments), d, d.queue[0].note, d.queue[0].remaining - Times(|moments|, cycles))
  {
    var n := |moments|;
    if n == 0 {
      assert Times(0, cycles) == 0;
    } else {
      assert Times(n, cycles) == Times(n - 1, cycles) + cycles;
      hide Run, Ticked, Times, AllTicks;
      LastTick(d, cycles, moments);
      StillWaits(d, cycles, moments[..n - 1]);
      HeadCounts(Run(d, moments[..n - 1]), cycles, moments[n - 1].disc);
    }
  }

  /**
    With no interrupt standing, the answer at the head of the queue is handed over
    by the first tick that completes its delay, whatever the read does meanwhile.
   */
  lemma ComesDue(d: Drive, cycles: nat, moments: seq<Moment>)
    requires d.queue != [] && d.port.flag == 0 && moments != [] && AllTicks(moments, cycles)
    requires |moments| == 1 || Times(|moments| - 1, cycles) < d.queue[0].remaining
    requires d.queue[0].remaining <= Times(|moments|, cycles)
    ensures Run(d, moments[..|moments| - 1]).books.delivered == d.books.delivered
    ensures Run(d, moments).books.delivered == d.books.delivered + [d.queue[0].note]
  {
    var n := |moments|;
    var rest := moments[..n - 1];
    assert Times(n, cycles) == Times(n - 1, cycles) + cycles;
    hide Run, Ticked, Times, AllTicks;
    LastTick(d, cycles, moments);
    StillWaits(d, cycles, rest);
    HeadCounts(Run(d, rest), cycles, moments[n - 1].disc);
  }
}
