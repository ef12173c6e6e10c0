/** The SPU's envelope generator: a level that rises, falls and dies away at rates software may change on any tick. */
module SpuEnvelope {
  import opened Words

  datatype Phase = Off | Attack | Decay | Sustain | Release

  /** A phase, a level, and a number of ticks to wait out before the level can change. */
  datatype Envelope = Envelope(phase: Phase, level: nat, wait: nat)

  datatype Rate = Rate(shift: nat, step: int, exponential: bool)

  /** How long until the level moves, and how far it then does. */
  datatype Slope = Slope(wait: nat, step: int)

  function SlopeOf(rate: Rate, level: nat): Slope {
    var wait := if rate.shift > 11 then PowerOfTwo(rate.shift - 11) else 1;
    var step := if rate.shift > 11 then rate.step else Times(rate.step, PowerOfTwo(11 - rate.shift));
    if !rate.exponential then Slope(wait, step)
    else if step > 0 && level > 0x6000 then Slope(wait * 4, step)
    else if step < 0 then Slope(wait, Times(step, level) / 0x8000)
    else Slope(wait, step)
  }

  // ---- what a voice's two rate registers say ----

  function SustainLevel(lo: U16): nat { Min((lo % 0x10 + 1) * 0x800, 0x7FFF) }

  function GivenRate(given: nat, step: int, exponential: bool): Rate { Rate(given / 4 % 0x20, step, exponential) }

  function RateOf(phase: Phase, lo: U16, hi: U16): Rate
    requires phase != Off
  {
    match phase
    case Attack => var given := lo / 0x100 % 0x80; GivenRate(given, 7 - given % 4, lo >= 0x8000)
    case Decay => Rate(lo / 0x10 % 0x10, -8, true)
    case Sustain =>
      var given := hi / 0x40 % 0x80;
      GivenRate(given, if hi / 0x4000 % 2 == 1 then given % 4 - 8 else 7 - given % 4, hi >= 0x8000)
    case Release => Rate(hi % 0x20, -8, hi / 0x20 % 2 == 1)
  }

  /** Where a phase leads once its level has been reached, through as many phases as apply. */
  function Settled(phase: Phase, level: nat, sustain: nat): Phase {
    match phase
    case Attack => if level < 0x7FFF then Attack else if level <= sustain then Sustain else Decay
    case Decay => if level <= sustain then Sustain else Decay
    case Release => if level == 0 then Off else Release
    case _ => phase
  }

  function Moved(level: nat, slope: Slope): nat { Clamp(level + slope.step, 0, 0x7FFF) }

  function Stepped(e: Envelope, lo: U16, hi: U16): Envelope {
    if e.wait > 0 then e.(wait := e.wait - 1)
    else
      var phase := Settled(e.phase, e.level, SustainLevel(lo));
      if phase == Off then Envelope(Off, e.level, 0)
      else
        var slope := SlopeOf(RateOf(phase, lo, hi), e.level);
        Envelope(phase, Moved(e.level, slope), Max(0, slope.wait - 1))
  }

  /** Key off: a voice already silent stays so, and any other begins to die away at once. */
  function Stopped(e: Envelope): Envelope { if e.phase == Off then e else Envelope(Release, e.level, 0) }

  /** The data's own end of a sound that does not repeat. */
  function Ended(e: Envelope): Envelope { Envelope(Off, 0, e.wait) }

  function Started(): Envelope { Envelope(Attack, 0, 0) }

  function Written(e: Envelope, value: int): Envelope { e.(level := Clamp(value, 0, 0x7FFF)) }

  // ---- rates ----

  lemma TwentyDoublings()
    ensures PowerOfTwo(20) == 0x10_0000
  {
    assert PowerOfTwo(4) == 16;
    assert PowerOfTwo(8) == 256;
    assert PowerOfTwo(12) == 4096;
    assert PowerOfTwo(16) == 65536;
  }

  lemma NegativeStep(step: int, level: int)
    requires step <= -1 && 0 < level < 0x8000
    ensures Times(step, level) / 0x8000 <= -1
  {
    MulMono(step, -1, level);
  }

  /** No wait is longer than 2^22 samples, nor than 2^20 on the way down. */
  lemma WaitBound(rate: Rate, level: nat)
    requires rate.shift < 0x20
    ensures 1 <= SlopeOf(rate, level).wait <= 0x40_0000
    ensures rate.step < 0 ==> SlopeOf(rate, level).wait <= 0x10_0000
  {
    TwentyDoublings();
    if rate.shift > 11 { PowersGrow(rate.shift - 11, 20); }
    else if rate.step < 0 { MulMono(rate.step, 0, PowerOfTwo(11 - rate.shift)); }
    hide PowerOfTwo;
  }

  /** A falling rate always moves a level that is not yet zero, however small the fraction of it asked for. */
  lemma AlwaysFalls(rate: Rate, level: nat)
    requires rate.step < 0 && 0 < level <= 0x7FFF
    ensures SlopeOf(rate, level).step <= -1
  {
    var step := if rate.shift > 11 then rate.step else Times(rate.step, PowerOfTwo(11 - rate.shift));
    if rate.shift <= 11 { MulMono(rate.step, -1, PowerOfTwo(11 - rate.shift)); }
    NegativeStep(step, level);
    hide PowerOfTwo, Times;
  }

  /** And a rising one always rises. */
  lemma AlwaysRises(rate: Rate, level: nat)
    requires rate.step > 0
    ensures SlopeOf(rate, level).step >= 1
  {
    if rate.shift <= 11 { MulMono(1, rate.step, PowerOfTwo(11 - rate.shift)); }
    hide PowerOfTwo;
  }

  // ---- every run ----

  /** What can happen to a voice between two samples. */
  datatype Event =
    | Tick(lo: U16, hi: U16, ends: bool)   // one sample, which may be the last of a sound that does not repeat
    | KeyOn
    | KeyOff
    | WriteLevel(value: int)

  function After(e: Envelope, event: Event): Envelope {
    match event
    case Tick(lo, hi, ends) => if e.phase == Off then e else Stepped(if ends then Ended(e) else e, lo, hi)
    case KeyOn => Started()
    case KeyOff => Stopped(e)
    case WriteLevel(value) => Written(e, value)
  }

  function Run(e: Envelope, events: seq<Event>): Envelope {
    if events == [] then e else After(Run(e, events[..|events| - 1]), events[|events| - 1])
  }

  lemma {:induction false} LevelInRange(e: Envelope, events: seq<Event>)
    requires e.level <= 0x7FFF
    ensures Run(e, events).level <= 0x7FFF
  {
    if events != [] {
      LevelInRange(e, events[..|events| - 1]);
    }
  }

  // ---- dying away ----

  /** How much longer a released voice can take, at the very slowest. */
  function Left(e: Envelope): nat {
    if e.phase == Off then 0 else Times(e.level, 0x10_0000) + e.wait + 1
  }

  /** Nothing but a key on, or a level written by hand, puts off the end. */
  predicate Undisturbed(event: Event) { !event.KeyOn? && !event.WriteLevel? }

  lemma ReleaseFalls(e: Envelope, lo: U16, hi: U16, ends: bool)
    requires e.phase == Release && e.level <= 0x7FFF
    ensures var next := After(e, Tick(lo, hi, ends));
      && (next.phase == Release || next.phase == Off) && next.level <= e.level && Left(next) < Left(e)
  {
    if e.wait == 0 && e.level > 0 && !ends {
      var rate := RateOf(Release, lo, hi);
      WaitBound(rate, e.level);
      AlwaysFalls(rate, e.level);
      var slope := SlopeOf(rate, e.level);
      hide SlopeOf, RateOf;
      assert Moved(e.level, slope) <= e.level - 1;
    }
  }

  function Ticks(events: seq<Event>): nat {
    if events == [] then 0 else Ticks(events[..|events| - 1]) + if events[|events| - 1].Tick? then 1 else 0
  }

  /**
    A released voice that is not keyed on again, and whose level is not written,
    is silent after at most `Left` ticks, whatever the rate registers hold on each
    of them and however often it is keyed off again.
   */
  lemma {:induction false} ReleaseEnds(e: Envelope, events: seq<Event>)
    requires (e.phase == Release || e.phase == Off) && e.level <= 0x7FFF
    requires forall i :: 0 <= i < |events| ==> Undisturbed(events[i])
    ensures var last := Run(e, events);
      && (last.phase == Release || last.phase == Off) && last.level <= 0x7FFF
      && (last.phase == Off || Left(last) + Ticks(events) <= Left(e))
      && (Ticks(events) >= Left(e) ==> last.phase == Off)
  {
    hide Left, Stepped;
    if events != [] {
      var n := |events| - 1;
      ReleaseEnds(e, events[..n]);
      var before := Run(e, events[..n]);
      if events[n].Tick? && before.phase == Release { ReleaseFalls(before, events[n].lo, events[n].hi, events[n].ends); }
      if events[n].KeyOff? { KeyOffNoLater(before); }
      LeftPositive(Run(e, events));
    } else {
      LeftPositive(e);
    }
  }

  lemma LeftPositive(e: Envelope)
    ensures e.phase == Off <==> Left(e) == 0
  {
    MulMono(0, e.level, 0x10_0000);
  }

  lemma KeyOffNoLater(e: Envelope)
    ensures Left(Stopped(e)) <= Left(e)
  {
  }

  // ---- coming up ----

  predicate Rising(e: Envelope) { e.phase == Attack || e.phase == Decay }

  /** How much longer a keyed voice can take to reach its sustain level, at the very slowest. */
  function Until(e: Envelope): nat
    requires e.level <= 0x7FFF
  {
    match e.phase
    case Attack => Times(0x7FFF - e.level, 0x40_0000) + 0x8_0000_0000 + e.wait + 1
    case Decay => Times(e.level, 0x10_0000) + e.wait + 1
    case _ => 0
  }

  lemma RisingMoves(e: Envelope, lo: U16, hi: U16, ends: bool)
    requires Rising(e) && e.level <= 0x7FFF
    ensures var next := After(e, Tick(lo, hi, ends)); next.level <= 0x7FFF && Until(next) < Until(e)
  {
    var phase := Settled(e.phase, e.level, SustainLevel(lo));
    if e.wait == 0 && !ends && (phase == Attack || phase == Decay) {
      var rate := RateOf(phase, lo, hi);
      WaitBound(rate, e.level);
      if phase == Attack { AlwaysRises(rate, e.level); } else { AlwaysFalls(rate, e.level); }
      var slope := SlopeOf(rate, e.level);
      hide SlopeOf, RateOf, SustainLevel;
    }
  }

  /** A voice keyed on gets through attack and decay, whatever the rate registers hold meanwhile. */
  lemma {:induction false} SustainReached(e: Envelope, events: seq<Event>)
    requires e.level <= 0x7FFF && forall i :: 0 <= i < |events| ==> events[i].Tick?
    ensures Run(e, events).level <= 0x7FFF
    ensures Rising(Run(e, events)) ==> Rising(e) && Until(Run(e, events)) + |events| <= Until(e)
    ensures |events| >= Until(e) ==> !Rising(Run(e, events))
  {
    LevelInRange(e, events);
    if events != [] {
      var n := |events| - 1;
      SustainReached(e, events[..n]);
      var before := Run(e, events[..n]);
      if Rising(before) { RisingMoves(before, events[n].lo, events[n].hi, events[n].ends); }
      else { NotRisingAgain(before, events[n].lo, events[n].hi, events[n].ends); }
      hide Until, Stepped;
    }
    if Rising(Run(e, events)) { UntilPositive(Run(e, events)); }
  }

  lemma UntilPositive(e: Envelope)
    requires Rising(e) && e.level <= 0x7FFF
    ensures Until(e) > 0
  {
  }

  lemma NotRisingAgain(e: Envelope, lo: U16, hi: U16, ends: bool)
    requires !Rising(e)
    ensures !Rising(After(e, Tick(lo, hi, ends)))
  {
  }

  // ---- a straight fade, exactly ----

  function FadeWait(hi: U16): nat { if hi % 0x20 > 11 then PowerOfTwo(hi % 0x20 - 11) else 1 }

  function FadeStep(hi: U16): nat { if hi % 0x20 > 11 then 8 else 8 * PowerOfTwo(11 - hi % 0x20) }

  function Faded(level: nat, step: nat, moves: nat): nat { Max(0, level - Times(moves, step)) }

  lemma FadeSlope(hi: U16, level: nat)
    requires hi / 0x20 % 2 == 0
    ensures SlopeOf(RateOf(Release, 0, hi), level) == Slope(FadeWait(hi), 0 - FadeStep(hi))
  {
    assert Times(-8, PowerOfTwo(11 - Min(11, hi % 0x20))) == -(8 * PowerOfTwo(11 - Min(11, hi % 0x20)));
  }

  /** Moves made before tick `n`, and the ticks still to wait after it, when the first is a move and so is every `wait`th after. */
  function MovesBefore(n: nat, wait: nat): nat
    requires n > 0 && wait > 0
  {
    (n - 1) / wait
  }

  function WaitAfter(n: nat, wait: nat): nat
    requires n > 0 && wait > 0
  {
    wait - 1 - (n - 1) % wait
  }

  /**
    Key a voice off with a straight release and leave its register alone: it
    moves on the first tick and then every `FadeWait`, by `FadeStep` each time,
    and stands at exactly this level after `n` ticks.
   */
  lemma {:induction false} StraightFade(level: nat, hi: U16, los: seq<U16>, n: nat)
    requires 0 < level <= 0x7FFF && hi / 0x20 % 2 == 0 && 0 < n <= |los|
    requires Faded(level, FadeStep(hi), MovesBefore(n, FadeWait(hi))) > 0
    ensures Run(Envelope(Release, level, 0), Held(los[..n], hi)) ==
            Envelope(Release, Faded(level, FadeStep(hi), MovesBefore(n, FadeWait(hi)) + 1), WaitAfter(n, FadeWait(hi)))
  {
    var wait, step := FadeWait(hi), FadeStep(hi);
    var moves := MovesBefore(n, wait);
    FadedMore(level, step, moves);
    assert Held(los[..n], hi)[..n - 1] == Held(los[..n - 1], hi);
    NextTick(n, wait);
    hide FadeWait, FadeStep, Stepped, MovesBefore, WaitAfter, Faded;
    if n == 1 {
      assert Held(los[..0], hi) == [];
      FadeMoves(Faded(level, step, 0), los[0], hi);
    } else {
      if MovesBefore(n - 1, wait) + 1 == moves { FadedMore(level, step, moves - 1); }
      StraightFade(level, hi, los, n - 1);
      if WaitAfter(n - 1, wait) == 0 { FadeMoves(Faded(level, step, moves), los[n - 1], hi); }
      else { FadeWaits(Faded(level, step, moves + 1), WaitAfter(n - 1, wait), los[n - 1], hi); }
    }
  }

  lemma FadedMore(level: nat, step: nat, moves: nat)
    ensures Faded(level, step, moves + 1) == Max(0, Faded(level, step, moves) - step) && Faded(level, step, moves) <= level
    ensures Faded(level, step, 0) == level
  {
    assert Times(moves + 1, step) == Times(moves, step) + step && Times(0, step) == 0;
    MulMono(0, moves, step);
  }

  /** The same release register on every tick, whatever the other one holds. */
  function Held(los: seq<U16>, hi: U16): seq<Event> {
    seq(|los|, i requires 0 <= i < |los| => Tick(los[i], hi, false))
  }

  lemma FadeMoves(level: nat, lo: U16, hi: U16)
    requires 0 < level <= 0x7FFF && hi / 0x20 % 2 == 0
    ensures After(Envelope(Release, level, 0), Tick(lo, hi, false)) == Envelope(Release, Max(0, level - FadeStep(hi)), FadeWait(hi) - 1)
  {
    FadeSlope(hi, level);
    hide SlopeOf;
  }

  lemma FadeWaits(level: nat, wait: nat, lo: U16, hi: U16)
    requires wait > 0
    ensures After(Envelope(Release, level, wait), Tick(lo, hi, false)) == Envelope(Release, level, wait - 1)
  {
  }

  lemma NextTick(n: nat, wait: nat)
    requires n > 0 && wait > 0
    ensures if n == 1 then MovesBefore(n, wait) == 0 && WaitAfter(n, wait) == wait - 1
            else if WaitAfter(n - 1, wait) == 0 then MovesBefore(n, wait) == MovesBefore(n - 1, wait) + 1 && WaitAfter(n, wait) == wait - 1
            else MovesBefore(n, wait) == MovesBefore(n - 1, wait) && WaitAfter(n, wait) == WaitAfter(n - 1, wait) - 1
  {
    if n == 1 {
      UniqueRemainder(0, wait, 0, 0);
    } else {
      var q, r := (n - 2) / wait, (n - 2) % wait;
      assert n - 2 == q * wait + r;
      assert (q + 1) * wait == q * wait + wait;
      if r == wait - 1 { UniqueRemainder(n - 1, wait, q + 1, 0); } else { UniqueRemainder(n - 1, wait, q, r + 1); }
    }
  }
}
