/** The machine's clock: one pending event to a kind, dispatched in order, and the video signal it steps. */
module Console {
  import opened Words
  import Timers

  const SCANLINES := 263
  const VISIBLE := 240

  /** The kinds of event, in the order the scheduler scans them. */
  datatype Kind = Hblank | CdRom | Counters | Spu | Sio | Dma

  function KindAt(i: nat): Kind
    requires i < 6
  {
    match i case 0 => Hblank case 1 => CdRom case 2 => Counters case 3 => Spu case 4 => Sio case _ => Dma
  }

  function SlotOf(k: Kind): (i: nat)
    ensures i < 6 && KindAt(i) == k
  {
    match k case Hblank => 0 case CdRom => 1 case Counters => 2 case Spu => 3 case Sio => 4 case Dma => 5
  }

  /** The period of a repeating kind, in cycles. */
  function PeriodOf(k: Kind): nat {
    match k case Hblank => 2172 case CdRom => 2048 case Counters => 2172 case Spu => 768 case Sio => 0 case Dma => 0
  }

  datatype Deadline = Never | At(cycle: nat)

  datatype Due = Due(kind: Kind, deadline: nat)

  /** What an instruction may ask of the scheduler: the DMA controller now, or an acknowledge later. */
  datatype Request = ArmDma | Acknowledge(delay: nat)

  predicate DueBy(d: Deadline, now: nat) { d.At? && d.cycle <= now }

  /** How far behind the clock an event is; firing it always leaves less of this. */
  function Debt(d: Deadline, now: nat): nat { if DueBy(d, now) then now + 1 - d.cycle else 0 }

  function DebtFrom(deadlines: seq<Deadline>, now: nat, i: nat): nat
    requires i <= |deadlines|
    decreases |deadlines| - i
  {
    if i == |deadlines| then 0 else Debt(deadlines[i], now) + DebtFrom(deadlines, now, i + 1)
  }

  lemma {:induction false} DebtFalls(before: seq<Deadline>, after: seq<Deadline>, now: nat, i: nat, k: nat)
    requires i <= |before| == |after| && k < |before|
    requires forall j :: 0 <= j < |before| && j != k ==> before[j] == after[j]
    requires Debt(after[k], now) < Debt(before[k], now)
    ensures i <= k ==> DebtFrom(after, now, i) < DebtFrom(before, now, i)
    ensures i > k ==> DebtFrom(after, now, i) == DebtFrom(before, now, i)
    decreases |before| - i
  {
    if i < |before| {
      DebtFalls(before, after, now, i + 1, k);
    }
  }

  /** Nothing fired is later than anything that comes after it. */
  ghost predicate InOrder(fired: seq<Due>) { forall i, j :: 0 <= i < j < |fired| ==> fired[i].deadline <= fired[j].deadline }

  ghost predicate NoneBefore(fired: seq<Due>, deadlines: seq<Deadline>) {
    forall i, k :: 0 <= i < |fired| && 0 <= k < |deadlines| && deadlines[k].At? ==> fired[i].deadline <= deadlines[k].cycle
  }

  /** The earliest of the events due joins those fired, and what its kind is due for next is no earlier. */
  lemma StaysInOrder(fired: seq<Due>, deadlines: seq<Deadline>, due: Due, next: Deadline)
    requires InOrder(fired) && NoneBefore(fired, deadlines) && |deadlines| == 6 && deadlines[SlotOf(due.kind)] == At(due.deadline)
    requires forall k :: 0 <= k < 6 && deadlines[k].At? ==> due.deadline <= deadlines[k].cycle
    requires next.At? ==> due.deadline <= next.cycle
    ensures InOrder(fired + [due]) && NoneBefore(fired + [due], deadlines[SlotOf(due.kind) := next])
  {
  }

  /** Frames counted by the time a number of scanlines has gone by. */
  function FramesAfter(lines: nat): nat { (lines + 23) / 263 }

  lemma NextLine(lines: nat)
    ensures var next := lines % 263 + 1;
            && (lines + 1) % 263 == (if next >= 263 then 0 else next)
            && FramesAfter(lines + 1) == FramesAfter(lines) + (if next == 240 then 1 else 0)
            && (lines + 1) / 263 == lines / 263 + (if next >= 263 then 1 else 0)
  {
    var q, r := lines / 263, lines % 263;
    assert lines == q * 263 + r;
    assert FramesAfter(lines) == q + (if r + 23 >= 263 then 1 else 0);
    if r + 1 < 263 {
      assert FramesAfter(lines + 1) == q + (if r + 24 >= 263 then 1 else 0);
      UniqueRemainder(lines + 1, 263, q, r + 1);
    } else {
      assert lines + 1 == (q + 1) * 263;
      UniqueRemainder(lines + 1, 263, q + 1, 0);
    }
  }

  /** The field an interlaced picture is on, from the one it was on some lines ago: it changes with every frame begun. */
  predicate FieldAfter(was: bool, interlaced: bool, from: nat, lines: nat) {
    was != (interlaced && (lines / 263 - from / 263) % 2 == 1)
  }

  lemma NextField(was: bool, interlaced: bool, from: nat, lines: nat)
    ensures FieldAfter(was, interlaced, from, from) == was
    ensures FieldAfter(was, interlaced, from, lines + 1) == (FieldAfter(was, interlaced, from, lines) != (interlaced && lines % 263 == 262))
  {
    NextLine(lines);
    hide FramesAfter;
  }

  /** The periods are the rates: 44100 samples to a second of the clock, and a frame of 263 lines. */
  lemma PeriodsAreRates()
    ensures PeriodOf(Spu) * 44100 == 33868800 && PeriodOf(Hblank) * SCANLINES == 571236 == PeriodOf(Counters) * SCANLINES
  {
  }

  class Machine {
    var now: nat
    const deadlines: array<Deadline>
    var scanline: nat
    var frames: nat
    var interlaced: bool
    var oddField: bool
    ghost var fired: seq<Due>
    ghost var lines: nat

    /** What holds between any two events of any run. */
    ghost predicate Valid()
      reads this, deadlines
    {
      && deadlines.Length == 6
      && scanline == lines % 263 && frames == FramesAfter(lines)
      && lines * 2172 <= now && deadlines[0] == At((lines + 1) * 2172)
      && deadlines[1].At? && deadlines[2].At? && deadlines[3].At?
      && InOrder(fired) && NoneBefore(fired, deadlines[..])
      && (forall i :: 0 <= i < |fired| ==> fired[i].deadline <= now)
    }

    /** And between instructions nothing is left due. */
    ghost predicate Settled()
      reads this, deadlines
    {
      Valid() && forall k :: 0 <= k < 6 ==> !DueBy(deadlines[k], now)
    }

    constructor Reset()
      ensures Settled() && fresh(deadlines) && now == 0 && fired == [] && frames == 0 && scanline == 0
    {
      now, scanline, frames, interlaced, oddField := 0, 0, 0, false, false;
      fired, lines := [], 0;
      deadlines := new Deadline[6](_ => Never);
      new;
      ScheduleAt(Hblank, now + PeriodOf(Hblank));
      ScheduleAt(CdRom, now + PeriodOf(CdRom));
      ScheduleAt(Counters, now + PeriodOf(Counters));
      ScheduleAt(Spu, now + PeriodOf(Spu));
    }

    method ScheduleAt(kind: Kind, timestamp: nat)
      requires deadlines.Length == 6
      modifies deadlines
      ensures deadlines[..] == old(deadlines[..])[SlotOf(kind) := At(timestamp)]
    {
      deadlines[SlotOf(kind)] := At(timestamp);
    }

    /** Removes the earliest event now due, the first of them in scan order where two are level. */
    method NextDue() returns (event: Option<Due>)
      requires deadlines.Length == 6
      modifies deadlines
      ensures event.None? ==> deadlines[..] == old(deadlines[..]) && forall k :: 0 <= k < 6 ==> !DueBy(deadlines[k], now)
      ensures event.Some? ==>
                var due, slot := event.value, SlotOf(event.value.kind);
                && old(deadlines[slot]) == At(due.deadline) && due.deadline <= now
                && deadlines[..] == old(deadlines[..])[slot := Never]
                && (forall k :: 0 <= k < 6 && old(deadlines[k]).At? ==> due.deadline <= old(deadlines[k]).cycle)
                && (forall k :: 0 <= k < slot && old(deadlines[k]).At? ==> due.deadline < old(deadlines[k]).cycle)
    {
      var due := 6;
      for i := 0 to 6
        invariant due == 6 || due < i
        invariant due == 6 ==> forall k :: 0 <= k < i ==> !DueBy(deadlines[k], now)
        invariant due < 6 ==>
                    && DueBy(deadlines[due], now)
                    && (forall k :: 0 <= k < i && deadlines[k].At? ==> deadlines[due].cycle <= deadlines[k].cycle)
                    && (forall k :: 0 <= k < due && deadlines[k].At? ==> deadlines[due].cycle < deadlines[k].cycle)
        invariant deadlines[..] == old(deadlines[..])
      {
        if DueBy(deadlines[i], now) {
          if due == 6 || deadlines[i].cycle < deadlines[due].cycle {
            due := i;
          }
        }
      }
      if due == 6 {
        return None;
      }
      var deadline := deadlines[due].cycle;
      SlotRoundTrip(due);
      deadlines[due] := Never;
      event := Some(Due(KindAt(due), deadline));
    }

    /** Counts one scanline, starting over after the last, and reports the one that enters blanking. */
    method NextScanline() returns (began: bool)
      modifies this`scanline, this`oddField
      ensures began <==> old(scanline) + 1 == VISIBLE
      ensures scanline == if old(scanline) + 1 >= SCANLINES then 0 else old(scanline) + 1
      ensures oddField == (old(oddField) != (interlaced && old(scanline) + 1 >= SCANLINES))
    {
      scanline := scanline + 1;
      if scanline == VISIBLE {
        return true;
      }
      if scanline >= SCANLINES {
        scanline := 0;
        if interlaced {
          oddField := !oddField;
        }
      }
      return false;
    }

    /**
      One event handled. A repeating kind's new deadline is a whole period after the old one, so lateness
      never adds up; the DMA controller's is `dmaSpent` after its old one, or none at all for zero.
     */
    method Fire(due: Due, dmaSpent: nat)
      requires deadlines.Length == 6 && deadlines[SlotOf(due.kind)] == Never && due.deadline <= now
      requires scanline == lines % 263 && frames == FramesAfter(lines)
      requires due.kind.Hblank? ==> due.deadline == (lines + 1) * 2172
      modifies this`scanline, this`oddField, this`frames, this`lines, this`fired, deadlines
      ensures fired == old(fired) + [due]
      ensures lines == old(lines) + (if due.kind.Hblank? then 1 else 0)
      ensures scanline == lines % 263 && frames == FramesAfter(lines)
      ensures oddField == (old(oddField) != (due.kind.Hblank? && interlaced && old(lines) % 263 == 262))
      ensures var next := match due.kind case Sio => Never case Dma => (if dmaSpent == 0 then Never else At(due.deadline + dmaSpent))
                          case k => At(due.deadline + PeriodOf(k));
              deadlines[..] == old(deadlines[..])[SlotOf(due.kind) := next]
    {
      fired := fired + [due];
      match due.kind {
        case Hblank =>
          NextLine(lines);
          var began := NextScanline();
          if began {
            frames := frames + 1;
          }
          lines := lines + 1;
          ScheduleAt(Hblank, due.deadline + 2172);
        case CdRom => ScheduleAt(CdRom, due.deadline + 2048);
        case Counters => ScheduleAt(Counters, due.deadline + 2172);
        case Spu => ScheduleAt(Spu, due.deadline + 768);
        case Sio =>
        case Dma =>
          if dmaSpent > 0 {
            ScheduleAt(Dma, due.deadline + dmaSpent);
          }
      }
    }

    /** Fires the earliest event due, if any is, and leaves less overdue than there was. */
    method FireNext(spent: nat, ghost wasOdd: bool, ghost from: nat) returns (more: bool)
      requires Valid() && oddField == FieldAfter(wasOdd, interlaced, from, lines)
      modifies this`scanline, this`oddField, this`frames, this`lines, this`fired, deadlines
      ensures Valid() && oddField == FieldAfter(wasOdd, interlaced, from, lines)
      ensures more ==> |fired| == |old(fired)| + 1 && old(fired) <= fired && DebtFrom(deadlines[..], now, 0) < DebtFrom(old(deadlines[..]), now, 0)
      ensures !more ==> Settled() && fired == old(fired)
    {
      hide DebtFrom, FramesAfter, FieldAfter, InOrder, NoneBefore;
      ghost var before := deadlines[..];
      NextField(wasOdd, interlaced, from, lines);
      var event := NextDue();
      more := event.Some?;
      if more {
        Fire(event.value, spent);
        ghost var slot := SlotOf(event.value.kind);
        assert deadlines[..] == before[slot := deadlines[slot]];
        StaysInOrder(old(fired), before, event.value, deadlines[slot]);
        DebtFalls(before, deadlines[..], now, 0, slot);
      }
    }

    /** Fires whatever is overdue in order of deadline. The loop ends, since each firing lessens the debt. */
    method DispatchDueEvents(dmaSpent: nat -> nat)
      requires Valid()
      modifies this`scanline, this`oddField, this`frames, this`lines, this`fired, deadlines
      ensures Settled() && old(fired) <= fired
      ensures oddField == FieldAfter(old(oddField), interlaced, old(lines), lines)
    {
      NextField(oddField, interlaced, lines, lines);
      hide DebtFrom, FramesAfter, FieldAfter, Valid;
      var more := true;
      var turn: nat := 0;
      while more
        invariant Valid() && old(fired) <= fired
        invariant !more ==> Settled()
        invariant oddField == FieldAfter(old(oddField), interlaced, old(lines), lines)
        decreases more, DebtFrom(deadlines[..], now, 0)
      {
        more := FireNext(dmaSpent(turn), old(oddField), old(lines));
        turn := turn + 1;
      }
    }

    /** What an instruction asked of the scheduler while it ran. */
    method Ask(requests: seq<Request>)
      requires Settled()
      modifies deadlines
      ensures Valid() && forall k :: 0 <= k < 4 ==> deadlines[k] == old(deadlines[k])
      ensures deadlines[5] == if ArmDma in requests then At(now) else old(deadlines[5])
      ensures (forall delay: nat :: Acknowledge(delay) !in requests) ==> deadlines[4] == old(deadlines[4])
      ensures requests != [] && requests[|requests| - 1].Acknowledge? ==> deadlines[4] == At(now + requests[|requests| - 1].delay)
    {
      for i := 0 to |requests|
        invariant Valid() && forall k :: 0 <= k < 4 ==> deadlines[k] == old(deadlines[k])
        invariant deadlines[5] == if ArmDma in requests[..i] then At(now) else old(deadlines[5])
        invariant (forall delay: nat :: Acknowledge(delay) !in requests[..i]) ==> deadlines[4] == old(deadlines[4])
        invariant i > 0 && requests[i - 1].Acknowledge? ==> deadlines[4] == At(now + requests[i - 1].delay)
      {
        assert requests[..i + 1] == requests[..i] + [requests[i]];
        match requests[i] {
          case ArmDma =>
            if !DueBy(deadlines[5], now) {
              ScheduleAt(Dma, now);
            }
          case Acknowledge(delay) =>
            ScheduleAt(Sio, now + delay);
        }
      }
    }

    /**
      One instruction of any length, asking anything, and the dispatch behind it. The scanline, the
      frame count and the field are then functions of the clock alone, and all that has fired since reset fired in the
      order of its deadlines.
     */
    method Step(cycles: nat, requests: seq<Request>, dmaSpent: nat -> nat)
      requires Settled()
      modifies this, deadlines
      ensures Settled() && now == old(now) + cycles && old(fired) <= fired && InOrder(fired)
      ensures scanline == now / 2172 % 263 && frames == (now / 2172 + 23) / 263
      ensures interlaced == old(interlaced)
      ensures oddField == FieldAfter(old(oddField), interlaced, old(now) / 2172, now / 2172)
      ensures scanline >= VISIBLE <==> Timers.Asserted(Timers.Blanking(1, Timers.Display(10, 0)), now)
    {
      LinesFromClock(lines, now);
      Ask(requests);
      now := now + cycles;
      DispatchDueEvents(dmaSpent);
      LinesFromClock(lines, now);
    }
  }

  lemma SlotRoundTrip(i: nat)
    requires i < 6
    ensures SlotOf(KindAt(i)) == i
  {
  }

  /** A line count caught up with the clock is the clock divided by a line, and fixes the blanking level. */
  lemma LinesFromClock(lines: nat, now: nat)
    requires lines * 2172 <= now < (lines + 1) * 2172
    ensures lines == now / 2172
    ensures lines % 263 >= 240 <==> 521280 <= now % 571236 < 571236
  {
    var q, r := lines / 263, lines % 263;
    assert lines == q * 263 + r;
    var s := now - lines * 2172;
    assert now == q * 571236 + (r * 2172 + s);
  }
}
