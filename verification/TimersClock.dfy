/** The wires a counter hangs on, pulse by pulse, and what one pulse does to it. */
module TimersClock {
  import opened Words
  import opened Timers

  // ---- the clocks ----

  /** The pulses of a counter's source in the one cycle that ends at `at + 1`. */
  function Pulses(index: nat, mode: Mode, d: Display, at: nat): nat
    requires IsDisplay(d)
  {
    ClockGrows(index, mode, d, at, at + 1);
    ClockAt(index, mode, d, at + 1) - ClockAt(index, mode, d, at)
  }

  /** Whether a counter is on the machine's own clock: even sources for the first two, the lower two for the third. */
  predicate OnOwnClock(index: nat, mode: Mode) {
    match index
    case 0 => mode.source == 0 || mode.source == 2
    case 1 => mode.source == 0 || mode.source == 2
    case _ => mode.source == 0 || mode.source == 1
  }

  /**
    The four settings of each counter's source. On the machine's clock there is a pulse to a cycle; else
    the second has one as each line of 2172 cycles ends, and the third one every eighth cycle.
   */
  lemma PulsesBySource(index: nat, mode: Mode, d: Display, at: nat)
    requires IsDisplay(d) && index < 3 && mode.source < 4
    ensures ClockAt(index, mode, d, 0) == 0
    ensures OnOwnClock(index, mode) ==> Pulses(index, mode, d, at) == 1
    ensures !OnOwnClock(index, mode) && index == 1 ==> Pulses(index, mode, d, at) == if (at + 1) % 2172 == 0 then 1 else 0
    ensures !OnOwnClock(index, mode) && index == 2 ==> Pulses(index, mode, d, at) == if (at + 1) % 8 == 0 then 1 else 0
  {
    SourceBits(mode.source);
    if !OnOwnClock(index, mode) {
      if index == 1 { NextDivided(at, 2172); }
      if index == 2 { NextDivided(at, 8); }
      if index == 0 { UniqueRemainder(0, 7 * d.dotCycles, 0, 0); }
    }
  }

  lemma SourceBits(source: nat)
    requires source < 4
    ensures source % 2 == (if source == 0 || source == 2 then 0 else 1) && source / 2 % 2 == (if source < 2 then 0 else 1)
  {
  }

  lemma NextDivided(at: nat, span: nat)
    requires span > 0
    ensures (at + 1) / span - at / span == if (at + 1) % span == 0 then 1 else 0
  {
    var q, r := at / span, at % span;
    assert at == q * span + r;
    if r + 1 == span {
      MulAdd(q, 1, span);
      UniqueRemainder(at + 1, span, q + 1, 0);
    } else {
      UniqueRemainder(at + 1, span, q, r + 1);
    }
  }

  /** The display's clock runs eleven cycles to the machine's seven, and a dot takes so many of them: the dots counted are the whole ones gone by. */
  lemma DotsKeepPace(mode: Mode, d: Display, at: nat)
    requires IsDisplay(d) && mode.source < 4 && (mode.source == 1 || mode.source == 3)
    ensures ClockAt(0, mode, d, at) * (7 * d.dotCycles) <= 11 * at < (ClockAt(0, mode, d, at) + 1) * (7 * d.dotCycles)
    ensures ClockAt(0, mode, d, at + 7 * d.dotCycles) == ClockAt(0, mode, d, at) + 11
    ensures Pulses(0, mode, d, at) <= 1
  {
    SourceBits(mode.source);
    var span, dots := 7 * d.dotCycles, ClockAt(0, mode, d, at);
    DivRemainder(at * 11, span);
    MulAdd(dots, 1, span);
    MulAdd(dots, 11, span);
    UniqueRemainder((at + span) * 11, span, dots + 11, at * 11 - dots * span);
    var next := ClockAt(0, mode, d, at + 1);
    DivRemainder((at + 1) * 11, span);
    if next >= dots + 2 {
      MulMono(dots + 2, next, span);
      MulAdd(dots, 2, span);
    }
  }

  /** A dot lasts 10, 8, 5 or 4 of the display's cycles for 256, 320, 512 or 640 of them to a line, and 7 for the odd one out of 368. */
  lemma DotLengths(displayMode: U32, rangeX: U32)
    ensures var dot := DisplayOf(displayMode, rangeX).dotCycles;
      && (displayMode / 0x40 % 2 == 1 ==> dot == 7)
      && (displayMode / 0x40 % 2 == 0 ==> dot * [256, 320, 512, 640][displayMode % 4] == 2560)
  {
  }

  /** A line is the window and the blanking around it, in proportion: no window is all blanking, and one as long as the line none. */
  lemma LineShared(displayMode: U32, left: nat, right: nat, rest: nat)
    requires left < 0x1000 && right < 0x1000 && rest < 0x100
    ensures var rangeX := rest * 0x100_0000 + right * 0x1000 + left;
      var window := Min(Max(0, right - left), 3413);
      var hblank := DisplayOf(displayMode, rangeX).hblank;
      && hblank * 3413 <= (3413 - window) * 2172 < (hblank + 1) * 3413
      && (right <= left ==> hblank == 2172) && (right - left >= 3413 ==> hblank == 0)
  {
    var rangeX := rest * 0x100_0000 + right * 0x1000 + left;
    UniqueRemainder(rangeX, 0x1000, rest * 0x1000 + right, left);
    UniqueRemainder(rest * 0x1000 + right, 0x1000, rest, right);
  }

  // ---- the blanking signals ----

  /** The first counter watches a line's blanking, at its beginning; the second a frame's, from line 240 of its 263. */
  lemma BlankingIs(d: Display, at: nat)
    requires IsDisplay(d)
    ensures Asserted(Blanking(0, d), at) <==> at % 2172 < d.hblank
    ensures Asserted(Blanking(1, d), at) <==> at / 2172 % 263 >= 240
  {
    var line := at / 2172;
    var q, r := line / 263, line % 263;
    assert at == line * 2172 + at % 2172 && line == q * 263 + r;
    UniqueRemainder(at, 571236, q, r * 2172 + at % 2172);
  }

  // ---- one pulse ----

  /** The last value before the count starts over: the target if it resets on one, and the sixteen bits' end if not. */
  function Last(t: Timer): U16 { if t.mode.resetOnTarget && t.target != 0 then t.target else 0xFFFF }

  /** One pulse takes a counter to the next value, and from the last to zero. */
  lemma OnePulseCounts(t: Timer)
    requires t.value <= Last(t)
    ensures CountOnce(t).value == (if t.value == Last(t) then 0 else t.value + 1) == Stepped(t, 1).value <= Last(t)
  {
    UniqueRemainder(t.value + 1, Span(t), if t.value == Last(t) then 1 else 0, if t.value == Last(t) then 0 else t.value + 1);
  }

  /** And flags what it came to: its target when it steps on to it, the end when it steps off it. */
  lemma OnePulseFlags(t: Timer)
    ensures var next := Stepped(t, 1);
      && (next.mode.reachedTarget <==> t.mode.reachedTarget || (t.target != 0 && t.value == t.target - 1))
      && (next.mode.reachedWrap <==> t.mode.reachedWrap || t.value == 0xFFFF)
      && next.target == t.target && next.updated == t.updated && next.released == t.released
      && SettingsOf(next.mode) == SettingsOf(t.mode)
  {
  }

  /** Interrupts are asked for on the target, on the end, both or neither; the bit that says none is pending goes down with one. */
  lemma OnePulseInterrupts(t: Timer)
    ensures var target, end := t.target != 0 && t.value == t.target - 1, t.value == 0xFFFF;
      && (WantsInterrupt(t, 1) <==>
            ((target && t.mode.irqOnTarget) || (end && t.mode.irqOnWrap)) && (t.mode.repeats || !t.fired))
      && (WantsInterrupt(t, 1) ==> Stepped(t, 1).fired && !Stepped(t, 1).mode.noInterrupt)
      && (!WantsInterrupt(t, 1) ==> Stepped(t, 1).fired == t.fired && Stepped(t, 1).mode.noInterrupt == t.mode.noInterrupt)
  {
  }

  /** A counter clocked a number of times, some pulses together each time. */
  function SteppedThrough(t: Timer, counts: seq<nat>): Timer {
    if counts == [] then t else Stepped(SteppedThrough(t, counts[..|counts| - 1]), counts[|counts| - 1])
  }

  /** The moments in that at which an interrupt was asked for. */
  function Asked(t: Timer, counts: seq<nat>): nat {
    if counts == [] then 0
    else
      var n := |counts| - 1;
      Asked(t, counts[..n]) + if counts[n] > 0 && WantsInterrupt(SteppedThrough(t, counts[..n]), counts[n]) then 1 else 0
  }

  /** A one-shot counter interrupts at most once until its mode is written again, however it is clocked. */
  lemma {:induction false} OneShotOnce(t: Timer, counts: seq<nat>)
    requires !t.mode.repeats
    ensures !SteppedThrough(t, counts).mode.repeats
    ensures Asked(t, counts) == if SteppedThrough(t, counts).fired && !t.fired then 1 else 0
    ensures t.fired ==> SteppedThrough(t, counts).fired
  {
    if counts != [] {
      OneShotOnce(t, counts[..|counts| - 1]);
    }
  }
}
