/** The three counters, their registers, and what their two flags can and cannot see. */
module TimersUnit {
  import opened Words
  import opened Timers

  /** The moments a counter's interrupt is wanted while it is brought up to date. */
  predicate Interrupts(index: nat, t: Timer, d: Display, now: nat)
    requires IsDisplay(d)
    decreases now - t.updated
  {
    t.updated < now && (PieceInterrupts(index, t, d, now) || Interrupts(index, Piece(index, t, d, now), d, now))
  }

  predicate PieceInterrupts(index: nat, t: Timer, d: Display, now: nat)
    requires IsDisplay(d) && t.updated < now
  {
    var g := GateAt(index, t, d, t.updated);
    var until := Piece(index, t, d, now).updated;
    ClockGrows(index, t.mode, d, t.updated, until);
    var n := ClockAt(index, t.mode, d, until) - ClockAt(index, t.mode, d, t.updated);
    g.counting && n > 0 && WantsInterrupt(t, n)
  }

  class Counters {
    const timers: array<Timer>
    var irq: set<nat>

    predicate Valid() { timers.Length == 3 }

    constructor ()
      ensures Valid() && fresh(timers) && irq == {}
      ensures forall i :: 0 <= i < 3 ==> timers[i] == Timer(0, 0, Mode(false, 0, false, false, false, false, 0, false, false, false), 0, false, false)
    {
      timers := new Timer[3](_ => Timer(0, 0, Mode(false, 0, false, false, false, false, 0, false, false, false), 0, false, false));
      irq := {};
    }

    method Step(index: nat, counted: nat)
      requires Valid() && index < 3
      modifies this`irq, timers
      ensures timers[..] == old(timers[..])[index := Stepped(old(timers[index]), counted)]
      ensures irq == old(irq) + (if counted > 0 && WantsInterrupt(old(timers[index]), counted) then {index} else {})
    {
      var t := timers[index];
      if counted == 0 {
        assert timers[..] == old(timers[..])[index := t];
        return;
      }
      var reached := t.value + counted;
      var wrapped := reached >= 0x1_0000;
      var hitTarget := t.value < t.target && reached >= t.target;
      if t.mode.resetOnTarget && t.target != 0 {
        var span: nat := t.target + 1;
        t := t.(value := reached % span);
      } else {
        t := t.(value := reached % 0x1_0000);
      }
      if hitTarget {
        t := t.(mode := t.mode.(reachedTarget := true));
      }
      if wrapped {
        t := t.(mode := t.mode.(reachedWrap := true));
      }
      var wantedTarget := hitTarget && t.mode.irqOnTarget;
      var wantedWrap := wrapped && t.mode.irqOnWrap;
      if (wantedTarget || wantedWrap) && !(t.fired && !t.mode.repeats) {
        t := t.(fired := true, mode := t.mode.(noInterrupt := false));
        irq := irq + {index};
      }
      timers[index] := t;
    }

    /** The stretch up to the sync signal's next change, or to now. */
    method OnePiece(index: nat, now: nat, d: Display)
      requires Valid() && index < 3 && IsDisplay(d) && timers[index].updated < now
      modifies this`irq, timers
      ensures timers[..] == old(timers[..])[index := Piece(index, old(timers[index]), d, now)]
      ensures irq == old(irq) + (if PieceInterrupts(index, old(timers[index]), d, now) then {index} else {})
    {
      hide ClockAt, GateAt, WantsInterrupt, Span, Stepped;
      var at := timers[index].updated;
      var gate := GateAt(index, timers[index], d, at);
      var until := if gate.until.Some? && gate.until.value < now then gate.until.value else now;
      ClockGrows(index, timers[index].mode, d, at, until);
      if gate.counting {
        var from := ClockAt(index, timers[index].mode, d, at);
        var to := ClockAt(index, timers[index].mode, d, until);
        Step(index, to - from);
      }
      timers[index] := timers[index].(updated := until);
      if gate.until != Some(until) {
        return;
      }
      if gate.zeroes {
        timers[index] := timers[index].(value := 0);
      }
      if gate.frees {
        timers[index] := timers[index].(released := true);
      }
    }

    /** One counter walked up to now, a piece for each stretch the sync signal leaves it alone. */
    method AdvanceOne(index: nat, now: nat, d: Display)
      requires Valid() && index < 3 && IsDisplay(d)
      modifies this`irq, timers
      ensures timers[..] == old(timers[..])[index := Advanced(index, old(timers[index]), d, now)]
      ensures irq == old(irq) + (if Interrupts(index, old(timers[index]), d, now) then {index} else {})
    {
      hide Piece, PieceInterrupts;
      ghost var was := timers[..];
      ghost var start := timers[index];
      while timers[index].updated < now
        invariant timers[..] == was[index := timers[index]]
        invariant Advanced(index, timers[index], d, now) == Advanced(index, start, d, now)
        invariant irq + (if Interrupts(index, timers[index], d, now) then {index} else {}) == old(irq) + (if Interrupts(index, start, d, now) then {index} else {})
        decreases now - timers[index].updated
      {
        OnePiece(index, now, d);
      }
    }

    method Advance(now: nat, d: Display)
      requires Valid() && IsDisplay(d)
      modifies this`irq, timers
      ensures forall i :: 0 <= i < 3 ==> timers[i] == Advanced(i, old(timers[i]), d, now)
      ensures irq == old(irq) + (set i | 0 <= i < 3 && Interrupts(i, old(timers[i]), d, now))
    {
      hide Advanced, Interrupts;
      var index := 0;
      while index < 3
        invariant 0 <= index <= 3
        invariant forall i :: 0 <= i < index ==> timers[i] == Advanced(i, old(timers[i]), d, now)
        invariant forall i :: index <= i < 3 ==> timers[i] == old(timers[i])
        invariant irq == old(irq) + (set i | 0 <= i < index && Interrupts(i, old(timers[i]), d, now))
      {
        AdvanceOne(index, now, d);
        index := index + 1;
      }
    }

    /** The value software reads is the one counting every cycle would have given it. */
    method ReadValue(index: nat, now: nat, d: Display) returns (value: U16)
      requires Valid() && IsDisplay(d) && index < 3 && timers[index].updated <= now
      modifies this`irq, timers
      ensures value == Cycles(index, old(timers[index]), d, now - old(timers[index]).updated).value
      ensures forall i :: 0 <= i < 3 ==> timers[i] == Advanced(i, old(timers[i]), d, now)
      ensures irq == old(irq) + (set i | 0 <= i < 3 && Interrupts(i, old(timers[i]), d, now))
    {
      hide Advanced, Cycles, Interrupts;
      Advance(now, d);
      AdvanceCountsEveryCycle(index, old(timers[index]), d, now);
      value := timers[index].value;
    }

    /** The mode as it stands now; afterwards both flags are down and the interrupt bit is up. */
    method ReadMode(index: nat, now: nat, d: Display) returns (mode: Mode)
      requires Valid() && IsDisplay(d) && index < 3
      modifies this`irq, timers
      ensures mode == Advanced(index, old(timers[index]), d, now).mode
      ensures var t := Advanced(index, old(timers[index]), d, now);
              timers[index] == t.(mode := t.mode.(reachedTarget := false, reachedWrap := false, noInterrupt := true))
      ensures forall i :: 0 <= i < 3 && i != index ==> timers[i] == Advanced(i, old(timers[i]), d, now)
      ensures irq == old(irq) + (set i | 0 <= i < 3 && Interrupts(i, old(timers[i]), d, now))
    {
      hide Advanced, Interrupts;
      Advance(now, d);
      mode := timers[index].mode;
      timers[index] := timers[index].(mode := mode.(reachedTarget := false, reachedWrap := false, noInterrupt := true));
    }

    /** The written mode takes effect from now with the count at zero, and any one-shot armed again. */
    method WriteMode(index: nat, written: Mode, now: nat, d: Display)
      requires Valid() && IsDisplay(d) && index < 3
      modifies this`irq, timers
      ensures var t := Advanced(index, old(timers[index]), d, now);
              timers[index] == t.(mode := written.(noInterrupt := true, reachedTarget := false, reachedWrap := false), value := 0, fired := false, released := false)
      ensures forall i :: 0 <= i < 3 && i != index ==> timers[i] == Advanced(i, old(timers[i]), d, now)
      ensures irq == old(irq) + (set i | 0 <= i < 3 && Interrupts(i, old(timers[i]), d, now))
    {
      hide Advanced, Interrupts;
      Advance(now, d);
      timers[index] := timers[index].(mode := written.(noInterrupt := true, reachedTarget := false, reachedWrap := false), value := 0, fired := false, released := false);
    }
  }

  // ---- the flags ----

  /** What counting one at a time would have flagged. */
  predicate PassesTarget(t: Timer, n: nat) { exists j :: 0 <= j < n && HitsTarget(Counted(t, j), 1) }

  predicate PassesWrap(t: Timer, n: nat) { exists j :: 0 <= j < n && Wraps(Counted(t, j), 1) }

  /** A counter that resets on a target short of the last value. */
  predicate ResetsEarly(t: Timer) { t.mode.resetOnTarget && 0 < t.target < 0xFFFF }

  /**
    The wrap flag is exact unless the counter resets on its target: then it is raised wrongly for
    every span that would have reached 10000h had nothing been in the way.
   */
  lemma WrapFlagExactly(t: Timer, n: nat)
    ensures (Wraps(t, n) <==> PassesWrap(t, n)) <==> (!ResetsEarly(t) || t.value == 0xFFFF || t.value + n < 0x1_0000)
  {
    forall j: nat
      ensures Counted(t, j) == t.(value := CountedValue(t, j))
    {
      CountedKeeps(t, j);
    }
    if ResetsEarly(t) {
      if t.value == 0xFFFF && n > 0 {
        assert Wraps(Counted(t, 0), 1);
      }
      forall j: nat | 0 < j
        ensures !Wraps(Counted(t, j), 1)
      {
      }
    } else if Wraps(t, n) {
      var j := 0xFFFF - t.value;
      assert CountedValue(t, j) == 0xFFFF;
      assert Wraps(Counted(t, j), 1);
    } else {
      forall j: nat | j < n
        ensures !Wraps(Counted(t, j), 1)
      {
      }
    }
  }

  /** A counter that never leaves 0..FDE8h is flagged as wrapped within one scanline's counts. */
  lemma WrapFlagRaisedWrongly()
    ensures var t := Timer(64999, 65000, Mode(false, 0, true, false, true, true, 0, true, false, false), 0, false, false);
            Wraps(t, 600) && !PassesWrap(t, 600)
  {
    var t := Timer(64999, 65000, Mode(false, 0, true, false, true, true, 0, true, false, false), 0, false, false);
    WrapFlagExactly(t, 600);
  }

  /** How many counts a counter at or past its target takes to come up to it again. */
  function CountsToTarget(t: Timer): nat
    requires 0 < t.target <= t.value
  {
    if !t.mode.resetOnTarget then 0x1_0000 - t.value + t.target
    else
      var back := (t.value + 1) % Span(t);
      1 + (if back < t.target then t.target - back else t.target + 1)
  }

  /**
    The target flag is exact for a counter below its target, and otherwise only while the span is too
    short to come round to it again: a whole lap is missed.
   */
  lemma TargetFlagExactly(t: Timer, n: nat)
    ensures (HitsTarget(t, n) <==> PassesTarget(t, n)) <==> (t.value < t.target || t.target == 0 || n < CountsToTarget(t))
  {
    forall j: nat
      ensures Counted(t, j) == t.(value := CountedValue(t, j))
    {
      CountedKeeps(t, j);
    }
    if t.value < t.target {
      BelowTarget(t, n);
    } else if t.target == 0 {
      assert !PassesTarget(t, n);
    } else {
      PastTarget(t, n);
    }
  }

  /** A counter standing on its target comes round to it once more in one lap, and no flag goes up for it. */
  lemma TargetFlagMissed()
    ensures var t := Timer(100, 100, Mode(false, 0, true, true, false, true, 0, true, false, false), 0, false, false);
            !HitsTarget(t, 101) && PassesTarget(t, 101)
  {
    var t := Timer(100, 100, Mode(false, 0, true, true, false, true, 0, true, false, false), 0, false, false);
    TargetFlagExactly(t, 101);
  }

  lemma BelowTarget(t: Timer, n: nat)
    requires t.value < t.target
    requires forall j: nat :: Counted(t, j) == t.(value := CountedValue(t, j))
    ensures HitsTarget(t, n) <==> PassesTarget(t, n)
  {
    if HitsTarget(t, n) {
      var j := t.target - 1 - t.value;
      BelowSpan(t, j);
      assert HitsTarget(Counted(t, j), 1);
    } else {
      forall j: nat | j < n
        ensures !HitsTarget(Counted(t, j), 1)
      {
        BelowSpan(t, j);
      }
    }
  }

  lemma BelowSpan(t: Timer, j: nat)
    requires t.value + j < t.target
    ensures CountedValue(t, j) == t.value + j
  {
    UniqueRemainder(t.value + j, Span(t), 0, t.value + j);
  }

  lemma PastTarget(t: Timer, n: nat)
    requires 0 < t.target <= t.value
    requires forall j: nat :: Counted(t, j) == t.(value := CountedValue(t, j))
    ensures !HitsTarget(t, n) && (PassesTarget(t, n) <==> n >= CountsToTarget(t))
  {
    var first := CountsToTarget(t) - 1;
    forall j: nat | j <= first
      ensures HitsTarget(Counted(t, j), 1) <==> j == first
    {
      PastTargetAt(t, j);
    }
    assert PassesTarget(t, n) ==> n > first;
    if n > first {
      assert HitsTarget(Counted(t, first), 1);
    }
  }

  lemma PastTargetAt(t: Timer, j: nat)
    requires 0 < t.target <= t.value && j < CountsToTarget(t)
    ensures CountedValue(t, j) + 1 == t.target <==> j == CountsToTarget(t) - 1
  {
    var span := Span(t);
    if j > 0 {
      if !t.mode.resetOnTarget {
        if t.value + j >= 0x1_0000 {
          assert CountedValue(t, j) == t.value + j - 0x1_0000;
        }
      } else {
        var back, q := (t.value + 1) % span, (t.value + 1) / span;
        assert t.value + 1 == q * span + back;
        if back + j - 1 < span {
          UniqueRemainder(t.value + j, span, q, back + j - 1);
        } else {
          assert (q + 1) * span == q * span + span;
          UniqueRemainder(t.value + j, span, q + 1, back + j - 1 - span);
        }
      }
    }
  }
}
