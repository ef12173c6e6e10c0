/** The root counters: worked out from the clock when asked, and the same as counting every cycle. */
module Timers {
  import opened Words

  /** The mode register's bits. */
  datatype Mode = Mode(
    syncEnabled: bool, sync: nat, resetOnTarget: bool, irqOnTarget: bool, irqOnWrap: bool, repeats: bool, source: nat,
    noInterrupt: bool, reachedTarget: bool, reachedWrap: bool)

  datatype Timer = Timer(value: U16, target: U16, mode: Mode, updated: nat, fired: bool, released: bool)

  /** The two lengths, in cycles, that the counters take from the display: a dot, and a line's blanking. */
  datatype Display = Display(dotCycles: nat, hblank: nat)

  predicate IsDisplay(d: Display) { d.dotCycles in {4, 5, 7, 8, 10} && d.hblank <= 2172 }

  function DisplayOf(displayMode: U32, rangeX: U32): (d: Display)
    ensures IsDisplay(d)
  {
    var left, right := rangeX % 0x1000, rangeX / 0x1000 % 0x1000;
    var active := Min(if right > left then right - left else 0, 3413);
    Display(if displayMode / 0x40 % 2 == 1 then 7 else [10, 8, 5, 4][displayMode % 4], (3413 - active) * 2172 / 3413)
  }

  /** The pulses of a counter's clock source in the first `at` cycles. */
  function ClockAt(index: nat, mode: Mode, d: Display, at: nat): nat
    requires IsDisplay(d)
  {
    match index
    case 0 => if mode.source % 2 == 0 then at else at * 11 / (7 * d.dotCycles)
    case 1 => if mode.source % 2 == 0 then at else at / 2172
    case _ => if mode.source / 2 % 2 == 1 then at / 8 else at
  }

  /** A blanking signal: its period, and the stretch of it the signal is asserted for. */
  datatype Blank = Blank(period: nat, begins: nat, ends: nat)

  function Blanking(index: nat, d: Display): (b: Blank)
    requires IsDisplay(d)
    ensures 0 < b.period && b.begins < b.period && b.begins <= b.ends <= b.period
  {
    if index == 0 then Blank(2172, 0, d.hblank) else Blank(571236, 521280, 571236)
  }

  datatype Gate = Gate(counting: bool, until: Option<nat>, zeroes: bool, frees: bool)

  function GateAt(index: nat, t: Timer, d: Display, at: nat): (g: Gate)
    requires IsDisplay(d)
    ensures g.until.Some? ==> g.until.value > at
  {
    if !t.mode.syncEnabled || t.released then Gate(true, None, false, false)
    else if index == 2 then Gate(t.mode.sync == 1 || t.mode.sync == 2, None, false, false)
    else
      var blank := Blanking(index, d);
      var offset := at % blank.period;
      var started := at - offset;
      var asserted := blank.begins <= offset < blank.ends;
      var edge := if offset < blank.begins then started + blank.begins
                  else if asserted then started + blank.ends
                  else started + blank.period + blank.begins;
      match t.mode.sync
      case 0 => Gate(!asserted, Some(edge), false, false)
      case 1 => Gate(true, Some(edge), !asserted, false)
      case 2 => Gate(asserted, Some(edge), !asserted, false)
      case _ => Gate(false, Some(edge), false, !asserted)
  }

  /** One past the largest value the counter takes. */
  function Span(t: Timer): (n: nat)
    ensures 0 < n <= 0x1_0000
  {
    if t.mode.resetOnTarget && t.target != 0 then t.target + 1 else 0x1_0000
  }

  function HitsTarget(t: Timer, counted: nat): bool { counted > 0 && t.value < t.target && t.value + counted >= t.target }

  function Wraps(t: Timer, counted: nat): bool { counted > 0 && t.value + counted >= 0x1_0000 }

  function WantsInterrupt(t: Timer, counted: nat): bool {
    && ((HitsTarget(t, counted) && t.mode.irqOnTarget) || (Wraps(t, counted) && t.mode.irqOnWrap))
    && !(t.fired && !t.mode.repeats)
  }

  /** A counter clocked a number of times at once. */
  function Stepped(t: Timer, counted: nat): Timer {
    if counted == 0 then t
    else
      var mode := t.mode.(reachedTarget := t.mode.reachedTarget || HitsTarget(t, counted), reachedWrap := t.mode.reachedWrap || Wraps(t, counted));
      t.(value := (t.value + counted) % Span(t),
         mode := if WantsInterrupt(t, counted) then mode.(noInterrupt := false) else mode,
         fired := t.fired || WantsInterrupt(t, counted))
  }

  /** What a change of the signal does to a counter the walk has brought up to it. */
  function Landed(g: Gate, t: Timer): (after: Timer)
    ensures after.updated == t.updated
  {
    if g.until == Some(t.updated) then t.(value := if g.zeroes then 0 else t.value, released := t.released || g.frees) else t
  }

  /** One piece of the walk: up to the given moment, or the gate's next change if that is sooner. */
  function Piece(index: nat, t: Timer, d: Display, now: nat): (after: Timer)
    requires IsDisplay(d) && t.updated < now
    ensures t.updated < after.updated <= now
  {
    var g := GateAt(index, t, d, t.updated);
    var until := if g.until.Some? && g.until.value < now then g.until.value else now;
    ClockGrows(index, t.mode, d, t.updated, until);
    var counted := if g.counting then Stepped(t, ClockAt(index, t.mode, d, until) - ClockAt(index, t.mode, d, t.updated)) else t;
    Landed(g, counted.(updated := until))
  }

  function Advanced(index: nat, t: Timer, d: Display, now: nat): (after: Timer)
    requires IsDisplay(d)
    ensures t.updated <= now ==> after.updated == now
    decreases now - t.updated
  {
    if t.updated >= now then t else Advanced(index, Piece(index, t, d, now), d, now)
  }

  lemma ClockGrows(index: nat, mode: Mode, d: Display, a: nat, b: nat)
    requires IsDisplay(d) && a <= b
    ensures ClockAt(index, mode, d, a) <= ClockAt(index, mode, d, b)
  {
    var n := 7 * d.dotCycles;
    if d.dotCycles == 4 {} else if d.dotCycles == 5 {} else if d.dotCycles == 7 {} else if d.dotCycles == 8 {} else {}
  }

  // ---- the reference: every cycle counted ----

  predicate Asserted(b: Blank, at: nat)
    requires b.period > 0
  {
    b.begins <= at % b.period < b.ends
  }

  /** The signal begins as a cycle ends: it is time for it to, and it was not asserted through the cycle. */
  predicate BeginsAfter(b: Blank, at: nat)
    requires b.period > 0
  {
    (at + 1) % b.period == b.begins && !Asserted(b, at)
  }

  function CountOnce(t: Timer): Timer { t.(value := (t.value + 1) % Span(t)) }

  function Counted(t: Timer, n: nat): Timer { if n == 0 then t else CountOnce(Counted(t, n - 1)) }

  /** One cycle of the machine, as a counter on its own wire would live through it. */
  function Cycle(index: nat, t: Timer, d: Display): (after: Timer)
    requires IsDisplay(d)
    ensures after.updated == t.updated + 1
  {
    var at := t.updated;
    ClockGrows(index, t.mode, d, at, at + 1);
    CountedKeeps(t, ClockAt(index, t.mode, d, at + 1) - ClockAt(index, t.mode, d, at));
    var clocked := Counted(t, ClockAt(index, t.mode, d, at + 1) - ClockAt(index, t.mode, d, at)).(updated := at + 1);
    var idle := t.(updated := at + 1);
    if !t.mode.syncEnabled || t.released then clocked
    else if index == 2 then (if t.mode.sync == 1 || t.mode.sync == 2 then clocked else idle)
    else
      var blank := Blanking(index, d);
      var inside, begins := Asserted(blank, at), BeginsAfter(blank, at);
      match t.mode.sync
      case 0 => if inside then idle else clocked
      case 1 => if begins then clocked.(value := 0) else clocked
      case 2 => if begins then idle.(value := 0) else if inside then clocked else idle
      case _ => if begins then idle.(released := true) else idle
  }

  function CountedValue(t: Timer, n: nat): U16 { if n == 0 then t.value else (t.value + n) % Span(t) }

  lemma {:induction false} CountedKeeps(t: Timer, n: nat)
    ensures Counted(t, n) == t.(value := CountedValue(t, n))
  {
    if n > 0 {
      CountedKeeps(t, n - 1);
      OneMore(t.value + n - 1, Span(t));
    }
  }

  function Cycles(index: nat, t: Timer, d: Display, n: nat): (after: Timer)
    requires IsDisplay(d)
    ensures after.updated == t.updated + n
    decreases n
  {
    if n == 0 then t else Cycle(index, Cycles(index, t, d, n - 1), d)
  }

  lemma {:induction false} CyclesSplit(index: nat, t: Timer, d: Display, m: nat, n: nat)
    requires IsDisplay(d)
    ensures Cycles(index, Cycles(index, t, d, m), d, n) == Cycles(index, t, d, m + n)
    decreases n
  {
    hide Cycle;
    if n > 0 {
      CyclesSplit(index, t, d, m, n - 1);
    }
  }

  lemma CountedAdds(t: Timer, m: nat, n: nat)
    ensures Counted(Counted(t, m), n) == Counted(t, m + n)
    decreases n
  {
    if n > 0 {
      CountedAdds(t, m, n - 1);
    }
  }

  /**
    Between one change of the signal and the next its level holds, and within that stretch it can
    only begin on the last cycle, and only if it was not asserted.
   */
  lemma LevelHolds(index: nat, t: Timer, d: Display, at: nat, u: nat)
    requires IsDisplay(d) && index < 2 && t.mode.syncEnabled && !t.released
    requires at <= u < GateAt(index, t, d, at).until.value
    ensures var b := Blanking(index, d);
            && Asserted(b, u) == Asserted(b, at)
            && (BeginsAfter(b, u) <==> u + 1 == GateAt(index, t, d, at).until.value && !Asserted(b, at))
  {
    if index == 0 {
      LevelHoldsFor(Blank(2172, 0, d.hblank), at, u);
    } else {
      LevelHoldsFor(Blank(571236, 521280, 571236), at, u);
    }
  }

  function NextChange(b: Blank, at: nat): int
    requires b.period > 0
  {
    var offset := at % b.period;
    at - offset + (if offset < b.begins then b.begins else if offset < b.ends then b.ends else b.period + b.begins)
  }

  lemma LevelHoldsFor(b: Blank, at: nat, u: nat)
    requires 0 < b.period && b.begins < b.period && b.begins <= b.ends <= b.period && (b.begins == 0 || b.ends == b.period)
    requires at <= u < NextChange(b, at)
    ensures Asserted(b, u) == Asserted(b, at)
    ensures BeginsAfter(b, u) <==> u + 1 == NextChange(b, at) && !Asserted(b, at)
  {
    WithinPeriod(at, u, b.period);
  }

  lemma WithinPeriod(at: nat, u: nat, period: nat)
    requires period > 0 && at <= u && u - (at - at % period) < period
    ensures var here := u - (at - at % period); u % period == here && (u + 1) % period == if here + 1 < period then here + 1 else 0
  {
    var q, here := at / period, u - (at - at % period);
    assert at == q * period + at % period;
    UniqueRemainder(u, period, q, here);
    if here + 1 < period {
      UniqueRemainder(u + 1, period, q, here + 1);
    } else {
      assert (q + 1) * period == q * period + period;
      UniqueRemainder(u + 1, period, q + 1, 0);
    }
  }

  /** A piece cut off after k cycles, with the change that falls due there. */
  function PartPiece(index: nat, t: Timer, d: Display, k: nat): (part: Timer)
    requires IsDisplay(d)
    ensures part.updated == t.updated + k
  {
    var g := GateAt(index, t, d, t.updated);
    ClockGrows(index, t.mode, d, t.updated, t.updated + k);
    var n := ClockAt(index, t.mode, d, t.updated + k) - ClockAt(index, t.mode, d, t.updated);
    CountedKeeps(t, n);
    Landed(g, (if g.counting then Counted(t, n) else t).(updated := t.updated + k))
  }

  /** Up to the gate's next change, counting in one go is counting every cycle. */
  lemma {:induction false} PartPieceIsCycles(index: nat, t: Timer, d: Display, k: nat)
    requires IsDisplay(d) && index < 3
    requires GateAt(index, t, d, t.updated).until.Some? ==> t.updated + k <= GateAt(index, t, d, t.updated).until.value
    ensures PartPiece(index, t, d, k) == Cycles(index, t, d, k)
    decreases k
  {
    hide GateAt, PartPiece, Cycle;
    if k > 0 {
      PartPieceIsCycles(index, t, d, k - 1);
      NextCycle(index, t, d, k - 1);
    } else {
      NoCycles(index, t, d);
    }
  }

  lemma NoCycles(index: nat, t: Timer, d: Display)
    requires IsDisplay(d)
    ensures PartPiece(index, t, d, 0) == t
  {
    hide ClockAt;
  }

  lemma NextCycle(index: nat, t: Timer, d: Display, k: nat)
    requires IsDisplay(d) && index < 3
    requires GateAt(index, t, d, t.updated).until.Some? ==> t.updated + k < GateAt(index, t, d, t.updated).until.value
    ensures Cycle(index, PartPiece(index, t, d, k), d) == PartPiece(index, t, d, k + 1)
  {
    hide ClockAt, Counted, CountOnce, Asserted, BeginsAfter, Span, GateAt, PartPiece, Cycle;
    var at, u := t.updated, t.updated + k;
    ClockGrows(index, t.mode, d, at, u);
    ClockGrows(index, t.mode, d, u, u + 1);
    var m := ClockAt(index, t.mode, d, u) - ClockAt(index, t.mode, d, at);
    var n := ClockAt(index, t.mode, d, u + 1) - ClockAt(index, t.mode, d, u);
    CountedKeeps(t, m);
    CountedKeeps(t, m + n);
    CountedAdds(t, m, n);
    CountedMoved(Counted(t, m), n, u);
    if t.mode.syncEnabled && !t.released && index != 2 {
      SyncedGate(index, t, d);
      SyncedCycle(index, t, d, k, m, n);
    } else {
      FreeCycle(index, t, d, k, m, n);
    }
  }

  /** With no signal to heed, the gate stays as it is for good. */
  lemma FreeCycle(index: nat, t: Timer, d: Display, k: nat, m: nat, n: nat)
    requires IsDisplay(d) && index < 3 && (!t.mode.syncEnabled || t.released || index == 2)
    requires m == ClockAt(index, t.mode, d, t.updated + k) - ClockAt(index, t.mode, d, t.updated)
    requires n == ClockAt(index, t.mode, d, t.updated + k + 1) - ClockAt(index, t.mode, d, t.updated + k)
    requires Counted(t, m).mode == t.mode && Counted(t, m).released == t.released
    requires Counted(Counted(t, m).(updated := t.updated + k), n) == Counted(t, m + n).(updated := t.updated + k)
    ensures Cycle(index, PartPiece(index, t, d, k), d) == PartPiece(index, t, d, k + 1)
  {
    hide ClockAt, Counted, CountOnce;
  }

  /** Short of the signal's next change the gate stays as it is too, and the change comes with the last cycle. */
  lemma SyncedCycle(index: nat, t: Timer, d: Display, k: nat, m: nat, n: nat)
    requires IsDisplay(d) && index < 2 && t.mode.syncEnabled && !t.released
    requires t.updated + k < GateAt(index, t, d, t.updated).until.value
    requires m == ClockAt(index, t.mode, d, t.updated + k) - ClockAt(index, t.mode, d, t.updated)
    requires n == ClockAt(index, t.mode, d, t.updated + k + 1) - ClockAt(index, t.mode, d, t.updated + k)
    requires Counted(t, m).mode == t.mode && Counted(t, m).released == t.released
    requires Counted(Counted(t, m).(updated := t.updated + k), n) == Counted(t, m + n).(updated := t.updated + k)
    ensures Cycle(index, PartPiece(index, t, d, k), d) == PartPiece(index, t, d, k + 1)
  {
    hide ClockAt, Counted, CountOnce, Asserted, BeginsAfter, Span, GateAt;
    LevelHolds(index, t, d, t.updated, t.updated + k);
    SyncedGate(index, t, d);
  }

  lemma SyncedGate(index: nat, t: Timer, d: Display)
    requires IsDisplay(d) && index < 2 && t.mode.syncEnabled && !t.released
    ensures var g, asserted := GateAt(index, t, d, t.updated), Asserted(Blanking(index, d), t.updated);
            && g.until.Some?
            && g.counting == (match t.mode.sync case 0 => !asserted case 1 => true case 2 => asserted case _ => false)
            && g.zeroes == ((t.mode.sync == 1 || t.mode.sync == 2) && !asserted)
            && g.frees == (t.mode.sync != 0 && t.mode.sync != 1 && t.mode.sync != 2 && !asserted)
  {
    hide Blanking;
  }

  /** Counting does not look at when the counter was last correct. */
  lemma CountedMoved(t: Timer, n: nat, updated: nat)
    ensures Counted(t.(updated := updated), n) == Counted(t, n).(updated := updated)
  {
    CountedKeeps(t, n);
    CountedKeeps(t.(updated := updated), n);
  }

  // ---- the theorem ----

  /** The settings a mode holds, without the bits the counter itself raises. */
  function SettingsOf(m: Mode): Mode { m.(noInterrupt := false, reachedTarget := false, reachedWrap := false) }

  /** The same counter, whatever it has flagged on the way. */
  predicate SameCounter(a: Timer, b: Timer) {
    a.value == b.value && a.updated == b.updated && a.released == b.released && a.target == b.target && SettingsOf(a.mode) == SettingsOf(b.mode)
  }

  /** Adding n in one go, or one n times over: only the flags can tell them apart. */
  lemma SteppedIsCounted(t: Timer, n: nat, until: nat)
    ensures SameCounter(Stepped(t, n).(updated := until), Counted(t, n).(updated := until))
  {
    hide HitsTarget, Wraps, WantsInterrupt;
    CountedKeeps(t, n);
  }

  lemma LandedRespects(g: Gate, a: Timer, b: Timer)
    requires SameCounter(a, b)
    ensures SameCounter(Landed(g, a), Landed(g, b))
  {
  }

  lemma PieceIsCycles(index: nat, t: Timer, d: Display, now: nat)
    requires IsDisplay(d) && index < 3 && t.updated < now
    ensures var after := Piece(index, t, d, now); SameCounter(after, Cycles(index, t, d, after.updated - t.updated))
  {
    hide ClockAt, Cycles, GateAt, Stepped, Counted, Landed;
    var g, until := GateAt(index, t, d, t.updated), Piece(index, t, d, now).updated;
    PartPieceIsCycles(index, t, d, until - t.updated);
    ClockGrows(index, t.mode, d, t.updated, until);
    var n := ClockAt(index, t.mode, d, until) - ClockAt(index, t.mode, d, t.updated);
    SteppedIsCounted(t, n, until);
    LandedRespects(g, (if g.counting then Stepped(t, n) else t).(updated := until), (if g.counting then Counted(t, n) else t).(updated := until));
  }

  lemma {:induction false} CyclesRespect(index: nat, a: Timer, b: Timer, d: Display, n: nat)
    requires IsDisplay(d) && SameCounter(a, b)
    ensures SameCounter(Cycles(index, a, d, n), Cycles(index, b, d, n))
    decreases n
  {
    hide Cycle;
    if n > 0 {
      CyclesRespect(index, a, b, d, n - 1);
      CycleRespects(index, Cycles(index, a, d, n - 1), Cycles(index, b, d, n - 1), d);
    }
  }

  lemma SettingsDecide(index: nat, a: Timer, b: Timer, d: Display, at: nat)
    requires IsDisplay(d) && SameCounter(a, b)
    ensures ClockAt(index, a.mode, d, at) == ClockAt(index, b.mode, d, at) && Span(a) == Span(b)
    ensures a.mode.syncEnabled == b.mode.syncEnabled && a.mode.sync == b.mode.sync
    ensures forall n: nat :: CountedValue(a, n) == CountedValue(b, n)
  {
  }

  lemma CycleRespects(index: nat, a: Timer, b: Timer, d: Display)
    requires IsDisplay(d) && SameCounter(a, b)
    ensures SameCounter(Cycle(index, a, d), Cycle(index, b, d))
  {
    hide Asserted, BeginsAfter, Counted, ClockAt, Span, CountedValue;
    var at := a.updated;
    SettingsDecide(index, a, b, d, at);
    SettingsDecide(index, a, b, d, at + 1);
    ClockGrows(index, a.mode, d, at, at + 1);
    var n := ClockAt(index, a.mode, d, at + 1) - ClockAt(index, a.mode, d, at);
    CountedKeeps(a, n);
    CountedKeeps(b, n);
  }

  /**
    Brought up to date in one call, however many changes of the signal fall in between, a counter is
    where counting every cycle of its clock would have left it.
   */
  lemma {:induction false} AdvanceCountsEveryCycle(index: nat, t: Timer, d: Display, now: nat)
    requires IsDisplay(d) && index < 3 && t.updated <= now
    ensures SameCounter(Advanced(index, t, d, now), Cycles(index, t, d, now - t.updated))
    decreases now - t.updated
  {
    hide Piece, Cycle;
    if t.updated < now {
      var after := Piece(index, t, d, now);
      PieceIsCycles(index, t, d, now);
      AdvanceCountsEveryCycle(index, after, d, now);
      CyclesRespect(index, after, Cycles(index, t, d, after.updated - t.updated), d, now - after.updated);
      CyclesSplit(index, t, d, after.updated - t.updated, now - after.updated);
    }
  }

  predicate Ascending(from: nat, times: seq<nat>)
    decreases |times|
  {
    times != [] ==> from <= times[0] && Ascending(times[0], times[1..])
  }

  function AdvancedThrough(index: nat, t: Timer, d: Display, times: seq<nat>): Timer
    requires IsDisplay(d)
    decreases |times|
  {
    if times == [] then t else AdvancedThrough(index, Advanced(index, t, d, times[0]), d, times[1..])
  }

  function LastOf(from: nat, times: seq<nat>): nat { if times == [] then from else times[|times| - 1] }

  /** So it does not matter when, or how often, anything asked on the way. */
  lemma {:induction false} AskingChangesNothing(index: nat, t: Timer, d: Display, times: seq<nat>)
    requires IsDisplay(d) && index < 3 && Ascending(t.updated, times)
    ensures LastOf(t.updated, times) >= t.updated
    ensures SameCounter(AdvancedThrough(index, t, d, times), Cycles(index, t, d, LastOf(t.updated, times) - t.updated))
    decreases |times|
  {
    hide Cycle, Advanced;
    if times != [] {
      var after := Advanced(index, t, d, times[0]);
      AdvanceCountsEveryCycle(index, t, d, times[0]);
      AskingChangesNothing(index, after, d, times[1..]);
      var n := LastOf(times[0], times[1..]) - times[0];
      assert LastOf(times[0], times[1..]) == LastOf(t.updated, times);
      CyclesRespect(index, after, Cycles(index, t, d, times[0] - t.updated), d, n);
      CyclesSplit(index, t, d, times[0] - t.updated, n);
    }
  }
}
