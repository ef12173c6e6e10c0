/** A drive that gets ahead of software: when a sector replaces one that is still to be announced. */
module CdRomOverrun {
  import opened Words
  import opened CdRom
  import opened CdRomReading

  // ---- exactly when ----

  /** A sector comes due in this tick, there is room to announce it, and it is data. */
  predicate Replaces(d: Drive, cycles: nat, disc: Disc) {
    && d.head.reading && d.head.remaining <= cycles
    && |d.queue| + (if d.lid.report then 1 else 0) < 2
    && disc.submode(d.head.lba).Some? && !IsAudio(d.mode, disc.submode(d.head.lba).value)
  }

  predicate SectorWaits(d: Drive) { exists i :: 0 <= i < |d.queue| && d.queue[i].note.interrupt == 1 }

  lemma PassedReplaces(d: Drive, overshoot: nat, cycles: nat, submode: U8)
    ensures var next := Passed(d, overshoot, cycles, submode);
      if IsAudio(d.mode, submode) then next.books.sectors == d.books.sectors && next.buffer == d.buffer
      else next.books.sectors == d.books.sectors + [d.head.lba] && next.buffer == Sector(d.head.lba)
  {
    hide StatusByte, IsAudio, Answered, SectorCycles;
  }

  lemma ReadReplaces(d: Drive, cycles: nat, disc: Disc)
    ensures var next := ReadAdvanced(d, cycles, disc);
      if d.head.reading && d.head.remaining <= cycles && |d.queue| < 2
         && disc.submode(d.head.lba).Some? && !IsAudio(d.mode, disc.submode(d.head.lba).value)
      then next.books.sectors == d.books.sectors + [d.head.lba] && next.buffer == Sector(d.head.lba)
      else next.books.sectors == d.books.sectors && next.buffer == d.buffer
  {
    hide StatusByte, IsAudio, Answered, SectorCycles, Passed, LostPosition;
    if d.head.remaining <= cycles && disc.submode(d.head.lba).Some? {
      PassedReplaces(d, cycles - d.head.remaining, cycles, disc.submode(d.head.lba).value);
    }
  }

  /**
    A tick puts a new sector in the buffer exactly when one is due that software
    is meant to have and an answer can still be accepted. So with an INT1 still
    undelivered its sector is lost exactly when nothing else waits beside it.
   */
  lemma ReplacedExactly(d: Drive, cycles: nat, disc: Disc)
    requires Sound(d)
    ensures var next := Ticked(d, cycles, disc);
      && (next.books.sectors != d.books.sectors <==> Replaces(d, cycles, disc))
      && (Replaces(d, cycles, disc) ==> next.books.sectors == d.books.sectors + [d.head.lba] && next.buffer == Sector(d.head.lba))
      && (!Replaces(d, cycles, disc) ==> next.buffer == d.buffer)
      && (SectorWaits(d) && Replaces(d, cycles, disc) ==> |d.queue| == 1 && !d.lid.report)
  {
    hide Sound, SpunDown, ShellReported, ReadAdvanced, IsAudio;
    var ready := ShellReported(SpunDown(d, cycles));
    assert |ready.queue| >= 2 <==> |d.queue| >= 2 || (|d.queue| == 1 && d.lid.report);
    ReadReplaces(ready, cycles, disc);
  }

  // ---- a run in which it happens ----

  /** Reading data, with an interrupt nobody acknowledges and nothing else on its mind. */
  predicate Unattended(d: Drive) {
    d.head.reading && d.port.flag != 0 && d.lid.spinDown == 0 && !d.lid.report && d.mode / 0x40 % 2 == 0
  }

  predicate IsSectorNote(a: Answer) { a.note.interrupt == 1 && a.remaining == 0 }

  /** `turned` cycles after `start`, less than two sectors past the one then due. */
  predicate Overran(start: Drive, d: Drive, turned: nat) {
    var sector := SectorCycles(start.mode);
    && Unattended(d) && d.mode == start.mode && d.books.delivered == start.books.delivered
    && (forall i :: 0 <= i < |d.queue| ==> IsSectorNote(d.queue[i]))
    && (if turned < start.head.remaining then
          d.queue == [] && d.head.lba == start.head.lba && d.head.remaining == start.head.remaining - turned
        else if turned < start.head.remaining + sector then
          && |d.queue| == 1 && d.head.lba == ToU32(start.head.lba + 1) && d.buffer == Sector(start.head.lba)
          && d.head.remaining == start.head.remaining + sector - turned
        else
          && |d.queue| == 2 && d.buffer == Sector(ToU32(start.head.lba + 1))
          && d.head.remaining == start.head.remaining + 2 * sector - turned)
  }

  lemma HeadHeld(d: Drive, cycles: nat)
    requires d.port.flag != 0 && forall i :: 0 <= i < |d.queue| ==> IsSectorNote(d.queue[i])
    ensures HeadAdvanced(d, cycles) == d
  {
  }

  /** With nothing else going on, a tick is what it does to the read. */
  lemma UnattendedTick(d: Drive, cycles: nat, disc: Disc)
    requires Unattended(d)
    ensures Ticked(d, cycles, disc) == HeadAdvanced(ReadAdvanced(d, cycles, disc), cycles)
  {
    hide ReadAdvanced, HeadAdvanced;
  }

  lemma DataPassed(d: Drive, overshoot: nat, cycles: nat, submode: U8)
    requires Unattended(d) && |d.queue| < 2 && overshoot < SectorCycles(d.mode)
    ensures var next := Passed(d, overshoot, cycles, submode);
      && Unattended(next) && next.mode == d.mode && next.books.delivered == d.books.delivered
      && |next.queue| == |d.queue| + 1 && next.queue[..|d.queue|] == d.queue && IsSectorNote(next.queue[|d.queue|])
      && next.buffer == Sector(d.head.lba) && next.head.lba == ToU32(d.head.lba + 1)
      && next.head.remaining == SectorCycles(d.mode) - overshoot
  {
    hide StatusByte, ToU32;
  }

  lemma OverranOn(start: Drive, d: Drive, turned: nat, cycles: nat, disc: Disc)
    requires Overran(start, d, turned) && 0 < cycles < SectorCycles(start.mode)
    requires turned + cycles < start.head.remaining + 2 * SectorCycles(start.mode)
    requires disc.submode(start.head.lba).Some? && disc.submode(ToU32(start.head.lba + 1)).Some?
    ensures Overran(start, Ticked(d, cycles, disc), turned + cycles)
  {
    hide StatusByte, ToU32, Passed, SectorCycles, Ticked, HeadAdvanced;
    UnattendedTick(d, cycles, disc);
    if d.head.remaining <= cycles && |d.queue| < 2 {
      DataPassed(d, cycles - d.head.remaining, cycles, disc.submode(d.head.lba).value);
    }
    HeadHeld(ReadAdvanced(d, cycles, disc), cycles);
  }

  predicate Readable(moments: seq<Moment>, lba: U32) { forall i :: 0 <= i < |moments| ==> moments[i].disc.submode(lba).Some? }

  /** How an unattended read goes on, tick by tick. */
  lemma {:induction false} UnattendedRun(start: Drive, cycles: nat, moments: seq<Moment>)
    requires Unattended(start) && start.queue == [] && start.head.remaining > 0
    requires 0 < cycles < SectorCycles(start.mode) && AllTicks(moments, cycles)
    requires Readable(moments, start.head.lba) && Readable(moments, ToU32(start.head.lba + 1))
    requires Times(|moments|, cycles) < start.head.remaining + 2 * SectorCycles(start.mode)
    ensures Times(|moments|, cycles) >= 0 && Overran(start, Run(start, moments), Times(|moments|, cycles))
  {
    var n := |moments|;
    if n == 0 {
      assert Times(0, cycles) == 0;
    } else {
      assert Times(n, cycles) == Times(n - 1, cycles) + cycles;
      hide Run, Ticked, Times, AllTicks, SectorCycles, ToU32, Overran;
      LastTick(start, cycles, moments);
      UnattendedRun(start, cycles, moments[..n - 1]);
      OverranOn(start, Run(start, moments[..n - 1]), Times(n - 1, cycles), cycles, moments[n - 1].disc);
    }
  }

  /**
    What the comment beside the full-queue test promises, that a sector software
    has not collected is never overwritten, does not hold: with one answer still
    unacknowledged the next two sectors both pass, and both their INT1s wait while
    the buffer holds only the second.
   */
  lemma SectorOverwritten(start: Drive, cycles: nat, moments: seq<Moment>)
    requires Unattended(start) && start.queue == [] && start.head.remaining > 0
    requires 0 < cycles < SectorCycles(start.mode) && AllTicks(moments, cycles)
    requires Readable(moments, start.head.lba) && Readable(moments, ToU32(start.head.lba + 1))
    requires var due := start.head.remaining + SectorCycles(start.mode);
      due <= Times(|moments|, cycles) < due + SectorCycles(start.mode)
    ensures var d := Run(start, moments);
      && |d.queue| == 2 && d.queue[0].note.interrupt == 1 && d.queue[1].note.interrupt == 1
      && d.buffer == Sector(ToU32(start.head.lba + 1)) && d.books.delivered == start.books.delivered
  {
    hide Run, Times, SectorCycles, ToU32, AllTicks, Readable;
    UnattendedRun(start, cycles, moments);
  }

  /** Reading, with the command's own acknowledgement still to be given. */
  predicate Awaiting(d: Drive, lba: U32, answer: nat, sector: nat) {
    && d.head.reading && d.lid.spinDown == 0 && !d.lid.report && d.mode == 0 && d.port.flag == 0 && d.books.delivered == []
    && |d.queue| == 1 && d.queue[0].note.interrupt == 3 && d.queue[0].remaining == answer
    && d.head.lba == lba && d.head.remaining == sector
  }

  lemma AwaitingTick(d: Drive, lba: U32, answer: nat, sector: nat, cycles: nat, disc: Disc)
    requires Awaiting(d, lba, answer, sector) && cycles < sector
    ensures var next := Ticked(d, cycles, disc);
      if cycles < answer then Awaiting(next, lba, answer - cycles, sector - cycles)
      else Unattended(next) && next.mode == 0 && next.queue == [] && |next.books.delivered| == 1
           && next.head.lba == lba && next.head.remaining == sector - cycles
  {
    assert ShellReported(SpunDown(d, cycles)) == d;
  }

  function Ticks(n: nat, disc: Disc): (moments: seq<Moment>)
    ensures |moments| == n && AllTicks(moments, 2048)
  {
    seq(n, i requires 0 <= i < n => Moment(Tick(2048), disc))
  }

  lemma {:induction false} AwaitingTicks(d: Drive, lba: U32, answer: nat, sector: nat, n: nat, disc: Disc)
    requires Awaiting(d, lba, answer, sector) && n * 2048 < answer <= sector
    ensures Awaiting(Run(d, Ticks(n, disc)), lba, answer - n * 2048, sector - n * 2048)
  {
    if n > 0 {
      assert Ticks(n, disc)[..n - 1] == Ticks(n - 1, disc);
      hide Ticked, Awaiting;
      AwaitingTicks(d, lba, answer, sector, n - 1, disc);
      AwaitingTick(Run(d, Ticks(n - 1, disc)), lba, answer - (n - 1) * 2048, sector - (n - 1) * 2048, 2048, disc);
    }
  }

  lemma RunLast(d: Drive, moments: seq<Moment>)
    requires moments != []
    ensures var n := |moments| - 1; Run(d, moments) == Step(Run(d, moments[..n]), moments[n].event, moments[n].disc)
  {
    hide Step;
  }

  lemma LastOf(moments: seq<Moment>, more: seq<Moment>)
    requires more != []
    ensures var all, n, m := moments + more, |moments + more| - 1, |more| - 1;
      all[n] == more[m] && all[..n] == moments + more[..m]
  {
  }

  lemma {:induction false} RunJoins(d: Drive, moments: seq<Moment>, more: seq<Moment>)
    ensures Run(d, moments + more) == Run(Run(d, moments), more)
  {
    if more == [] {
      assert moments + more == moments && Run(Run(d, moments), more) == Run(d, moments);
    } else {
      hide Step, Run;
      LastOf(moments, more);
      RunLast(d, moments + more);
      RunLast(Run(d, moments), more);
      RunJoins(d, moments, more[..|more| - 1]);
    }
  }

  function ReadSent(disc: Disc): Drive { Step(AtReset(false), Send(Read), disc) }

  lemma ReadAwaits(disc: Disc)
    requires disc.loaded
    ensures Awaiting(ReadSent(disc), 0, 50401, 9483264)
  {
    hide StatusByte;
  }

  /** Twenty-five of the machine's ticks after a read is sent, its acknowledgement is the interrupt software has to take. */
  lemma ReadReaches(disc: Disc)
    requires disc.loaded
    ensures var d := Run(ReadSent(disc), Ticks(25, disc));
      && Unattended(d) && d.mode == 0 && d.queue == [] && |d.books.delivered| == 1 && d.head.lba == 0 && d.head.remaining == 9432064
  {
    ReadAwaits(disc);
    hide Awaiting, ReadSent, Ticked;
    AwaitingTicks(ReadSent(disc), 0, 50401, 9483264, 24, disc);
    assert Ticks(25, disc)[..24] == Ticks(24, disc);
    AwaitingTick(Run(ReadSent(disc), Ticks(24, disc)), 0, 1249, 9434112, 2048, disc);
  }

  /**
    From power on: a disc is read and software takes nothing. Between 4851 and
    5071 ticks on, the first sector's announcement has yet to be delivered and the
    buffer holds the second.
   */
  lemma LostFromReset(disc: Disc, n: nat)
    requires disc.loaded && disc.submode(0).Some? && disc.submode(1).Some? && 4851 <= n <= 5071
    ensures var d := Run(AtReset(false), [Moment(Send(Read), disc)] + Ticks(n, disc));
      && |d.books.delivered| == 1 && |d.queue| == 2
      && d.queue[0].note.interrupt == 1 && d.queue[1].note.interrupt == 1 && d.buffer == Sector(1)
  {
    hide Run, ReadSent, Unattended;
    FirstMoment(disc, Ticks(n, disc));
    TicksJoin(25, n - 25, disc);
    RunJoins(ReadSent(disc), Ticks(25, disc), Ticks(n - 25, disc));
    ReadReaches(disc);
    var start := Run(ReadSent(disc), Ticks(25, disc));
    assert Times(n - 25, 2048) == (n - 25) * 2048;
    assert SectorCycles(0) == 451584 && ToU32(1) == 1;
    SectorOverwritten(start, 2048, Ticks(n - 25, disc));
  }

  lemma FirstMoment(disc: Disc, more: seq<Moment>)
    ensures Run(AtReset(false), [Moment(Send(Read), disc)] + more) == Run(ReadSent(disc), more)
  {
    var sent := [Moment(Send(Read), disc)];
    RunJoins(AtReset(false), sent, more);
    RunLast(AtReset(false), sent);
    assert sent[..0] == [];
    hide Step;
  }

  lemma TicksJoin(m: nat, n: nat, disc: Disc)
    ensures Ticks(m + n, disc) == Ticks(m, disc) + Ticks(n, disc)
  {
  }
}
