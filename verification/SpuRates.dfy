/** What a voice's two rate registers ask for, and that the envelope does it: how fast, which way, and in what order. */
module SpuRates {
  import opened Words
  import opened SpuEnvelope

  // ---- the fields of the registers ----

  /** The low register: attack's curve, shift and step, decay's shift and the sustain level. */
  lemma LowRead(curve: nat, shift: nat, step: nat, decay: nat, level: nat, hi: U16)
    requires curve < 2 && shift < 0x20 && step < 4 && decay < 0x10 && level < 0x10
    ensures var lo := curve * 0x8000 + shift * 0x400 + step * 0x100 + decay * 0x10 + level;
      && RateOf(Attack, lo, hi) == Rate(shift, 7 - step, curve == 1)
      && RateOf(Decay, lo, hi) == Rate(decay, -8, true)
      && SustainLevel(lo) == (if level == 15 then 0x7FFF else (level + 1) * 0x800)
  {
    var lo := curve * 0x8000 + shift * 0x400 + step * 0x100 + decay * 0x10 + level;
    var given := shift * 4 + step;
    UniqueRemainder(lo, 0x10, curve * 0x800 + given * 0x10 + decay, level);
    UniqueRemainder(curve * 0x800 + given * 0x10 + decay, 0x10, curve * 0x80 + given, decay);
    UniqueRemainder(lo, 0x100, curve * 0x80 + given, decay * 0x10 + level);
    UniqueRemainder(curve * 0x80 + given, 0x80, curve, given);
    GivenFields(shift, step);
  }

  /** The high one: sustain's curve, direction, shift and step, with a bit unused between, and release's curve and shift. */
  lemma HighRead(curve: nat, falls: nat, spare: nat, shift: nat, step: nat, releaseCurve: nat, release: nat, lo: U16)
    requires curve < 2 && falls < 2 && spare < 2 && shift < 0x20 && step < 4 && releaseCurve < 2 && release < 0x20
    ensures var hi := curve * 0x8000 + falls * 0x4000 + spare * 0x2000 + shift * 0x100 + step * 0x40 + releaseCurve * 0x20 + release;
      && RateOf(Sustain, lo, hi) == Rate(shift, if falls == 1 then step - 8 else 7 - step, curve == 1)
      && RateOf(Release, lo, hi) == Rate(release, -8, releaseCurve == 1)
  {
    var hi := curve * 0x8000 + falls * 0x4000 + spare * 0x2000 + shift * 0x100 + step * 0x40 + releaseCurve * 0x20 + release;
    var given := shift * 4 + step;
    var top := curve * 4 + falls * 2 + spare;
    UniqueRemainder(hi, 0x20, top * 0x100 + given * 2 + releaseCurve, release);
    UniqueRemainder(top * 0x100 + given * 2 + releaseCurve, 2, top * 0x80 + given, releaseCurve);
    UniqueRemainder(hi, 0x40, top * 0x80 + given, releaseCurve * 0x20 + release);
    UniqueRemainder(top * 0x80 + given, 0x80, top, given);
    UniqueRemainder(hi, 0x4000, curve * 2 + falls, spare * 0x2000 + shift * 0x100 + step * 0x40 + releaseCurve * 0x20 + release);
    UniqueRemainder(curve * 2 + falls, 2, curve, falls);
    GivenFields(shift, step);
  }

  lemma GivenFields(shift: nat, step: nat)
    requires shift < 0x20 && step < 4
    ensures var given := shift * 4 + step; given % 4 == step && given / 4 == shift && given / 4 % 0x20 == shift
  {
  }

  // ---- how fast ----

  lemma {:induction false} PowersMultiply(m: nat, n: nat)
    ensures PowerOfTwo(m) * PowerOfTwo(n) == PowerOfTwo(m + n)
  {
    if m > 0 {
      PowersMultiply(m - 1, n);
      MulAssoc(2, PowerOfTwo(m - 1), PowerOfTwo(n));
    }
  }

  /**
    A straight slope covers `step * 2^11 / 2^shift` a sample, exactly, whether as a longer step on every
    sample or as the same step on fewer of them; a curved rise a quarter of that over three quarters of
    the way up.
   */
  lemma SlopeIsRate(rate: Rate, level: nat)
    requires !rate.exponential || rate.step > 0
    ensures var slope, slower := SlopeOf(rate, level), if rate.exponential && level > 0x6000 then 4 else 1;
      Times(slope.step, PowerOfTwo(rate.shift)) * slower == Times(Times(rate.step, PowerOfTwo(11)), slope.wait)
  {
    var shift, s := rate.shift, rate.step;
    if shift > 11 {
      PowersMultiply(11, shift - 11);
      Regrouped(s, PowerOfTwo(11), PowerOfTwo(shift - 11));
      MulAssoc(Times(s, PowerOfTwo(11)), PowerOfTwo(shift - 11), 4);
    } else {
      PowersMultiply(11 - shift, shift);
      Regrouped(s, PowerOfTwo(11 - shift), PowerOfTwo(shift));
      if s > 0 { MulMono(1, s, PowerOfTwo(11 - shift)); }
    }
    hide PowerOfTwo;
  }

  lemma Regrouped(a: int, b: int, c: int)
    ensures Times(Times(a, b), c) == Times(a, b * c)
  {
    MulAssoc(a, b, c);
  }

  /** A curved fall takes the straight one's step in proportion to the level, rounded downwards. */
  lemma CurvedFall(rate: Rate, level: nat)
    requires rate.exponential && rate.step < 0
    ensures var slope, straight := SlopeOf(rate, level), SlopeOf(rate.(exponential := false), level);
      && slope.wait == straight.wait
      && slope.step * 0x8000 <= Times(straight.step, level) < (slope.step + 1) * 0x8000
  {
    if rate.shift <= 11 { MulMono(rate.step, -1, PowerOfTwo(11 - rate.shift)); }
    hide PowerOfTwo, Times;
  }

  // ---- which way ----

  /** Which way a phase goes is its own but for sustain, where the register says. */
  predicate Falls(phase: Phase, hi: U16) { phase == Decay || phase == Release || (phase == Sustain && hi / 0x4000 % 2 == 1) }

  /** A sample's level is never on the wrong side of the last one's, and moves unless there is a wait or no further to go. */
  lemma GoesItsWay(e: Envelope, lo: U16, hi: U16)
    requires e.phase != Off && e.level <= 0x7FFF
    ensures var next := After(e, Tick(lo, hi, false));
      && (e.wait > 0 ==> next == e.(wait := e.wait - 1))
      && (next.phase == Off ==> e.level == next.level == 0)
      && (e.wait == 0 && next.phase != Off && Falls(next.phase, hi) ==> next.level < e.level || e.level == next.level == 0)
      && (e.wait == 0 && next.phase != Off && !Falls(next.phase, hi) ==> next.level > e.level || e.level == next.level == 0x7FFF)
  {
    if e.wait == 0 {
      var phase := Settled(e.phase, e.level, SustainLevel(lo));
      if phase != Off {
        var rate := RateOf(phase, lo, hi);
        StepSign(phase, lo, hi);
        WaitBound(rate, e.level);
        if rate.step < 0 {
          if e.level > 0 { AlwaysFalls(rate, e.level); } else { NothingToFall(rate); }
        } else {
          AlwaysRises(rate, e.level);
        }
        hide SlopeOf, RateOf, SustainLevel;
      }
    }
  }

  lemma StepSign(phase: Phase, lo: U16, hi: U16)
    requires phase != Off
    ensures var rate := RateOf(phase, lo, hi); rate.shift < 0x20 && rate.step != 0 && (rate.step < 0 <==> Falls(phase, hi))
  {
  }

  lemma NothingToFall(rate: Rate)
    requires rate.step < 0
    ensures SlopeOf(rate, 0).step <= 0
  {
    if rate.shift <= 11 { MulMono(rate.step, -1, PowerOfTwo(11 - rate.shift)); }
    hide PowerOfTwo;
  }

  predicate SustainsTo(e: Envelope, events: seq<Event>, falling: bool) {
    && e.phase == Sustain && e.level <= 0x7FFF
    && forall i :: 0 <= i < |events| ==> events[i].Tick? && !events[i].ends && (events[i].hi / 0x4000 % 2 == 1) == falling
  }

  /** A falling sustain never rises and a rising one never falls, and neither ends, whatever its speed is changed to on the way. */
  lemma {:induction false} SustainKeepsItsWay(e: Envelope, events: seq<Event>, falling: bool)
    requires SustainsTo(e, events, falling)
    ensures var last := Run(e, events);
      last.phase == Sustain && last.level <= 0x7FFF && if falling then last.level <= e.level else last.level >= e.level
  {
    hide Stepped;
    if events != [] {
      var n := |events| - 1;
      SustainKeepsItsWay(e, events[..n], falling);
      var before := Run(e, events[..n]);
      GoesItsWay(before, events[n].lo, events[n].hi);
      StaysInSustain(before, events[n].lo, events[n].hi);
      LevelInRange(e, events);
    }
  }

  lemma StaysInSustain(e: Envelope, lo: U16, hi: U16)
    requires e.phase == Sustain
    ensures After(e, Tick(lo, hi, false)).phase == Sustain
  {
    hide SlopeOf, RateOf;
  }

  // ---- in what order ----

  function Rank(phase: Phase): nat {
    match phase case Attack => 0 case Decay => 1 case Sustain => 2 case Release => 3 case Off => 4
  }

  /** Attack ends at the top alone, decay at the sustain level or under it, release at silence alone, and sustain only by key off. */
  lemma PhaseEnds(e: Envelope, lo: U16, hi: U16)
    requires e.phase != Off && e.wait == 0
    ensures var next := After(e, Tick(lo, hi, false)).phase;
      && (e.phase == Attack ==> (next == Attack <==> e.level < 0x7FFF))
      && (e.phase == Attack || e.phase == Decay ==> (next == Sustain <==> e.level <= SustainLevel(lo) && (e.phase == Decay || e.level >= 0x7FFF)))
      && (e.phase == Release ==> (next == Off <==> e.level == 0) && (next == Release <==> e.level > 0))
      && (e.phase == Sustain ==> next == Sustain)
  {
    hide SlopeOf, RateOf, SustainLevel;
  }

  /** Until it is keyed on again a voice goes through its phases in their order, and back to none. */
  lemma {:induction false} PhasesInOrder(e: Envelope, events: seq<Event>)
    requires forall i :: 0 <= i < |events| ==> !events[i].KeyOn?
    ensures Rank(Run(e, events).phase) >= Rank(e.phase)
  {
    hide SlopeOf, RateOf, SustainLevel;
    if events != [] {
      PhasesInOrder(e, events[..|events| - 1]);
    }
  }
}
