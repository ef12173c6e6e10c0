/** A voice's envelope stepped in place, and the ring the mixed sound leaves by. */
module SpuVoice {
  import opened Words
  import opened SpuEnvelope

  class Voice {
    var phase: Phase
    var level: nat
    var wait: nat

    function State(): Envelope reads this { Envelope(phase, level, wait) }

    constructor ()
      ensures State() == Envelope(Off, 0, 0)
    {
      phase, level, wait := Off, 0, 0;
    }

    method StepEnvelope(lo: U16, hi: U16)
      requires level <= 0x7FFF
      modifies this
      ensures State() == Stepped(old(State()), lo, hi) && level <= 0x7FFF
    {
      hide SlopeOf, RateOf;
      if wait > 0 {
        wait := wait - 1;
        return;
      }
      var sustain := SustainLevel(lo);
      while (phase == Attack && level >= 0x7FFF) || (phase == Decay && level <= sustain)
        modifies this`phase
        invariant phase == old(phase) || (old(phase) == Attack && level >= 0x7FFF && (phase == Decay || (phase == Sustain && level <= sustain)))
                  || (old(phase) == Decay && level <= sustain && phase == Sustain)
        decreases if phase == Attack then 2 else if phase == Decay then 1 else 0
      {
        phase := if phase == Attack then Decay else Sustain;
      }
      if phase == Release && level == 0 { phase := Off; }
      assert phase == Settled(old(phase), level, sustain);
      if phase == Off { return; }
      var rate := RateOf(phase, lo, hi);
      var slope := SlopeOf(rate, level);
      RatesInRange(phase, lo, hi);
      WaitBound(rate, level);
      level := Clamp(level + slope.step, 0, 0x7FFF);
      wait := slope.wait - 1;
    }

    method Start()
      modifies this
      ensures State() == Started()
    {
      phase, level, wait := Attack, 0, 0;
    }

    method Stop()
      modifies this
      ensures State() == Stopped(old(State()))
    {
      if phase == Off { return; }
      phase := Release;
      wait := 0;
    }

    method WriteVolume(value: S16)
      modifies this`level
      ensures State() == Written(old(State()), value)
    {
      level := Clamp(value, 0, 0x7FFF);
    }
  }

  lemma RatesInRange(phase: Phase, lo: U16, hi: U16)
    requires phase != Off
    ensures RateOf(phase, lo, hi).shift < 0x20 && -8 <= RateOf(phase, lo, hi).step <= 7
  {
  }

  /** A sample shaped by its envelope is still a sample. */
  lemma ShapedFits(sample: S16, level: nat)
    requires level <= 0x7FFF
    ensures -0x8000 <= Times(sample, level) / 0x8000 <= 0x7FFF
  {
    MulMono(-0x8000, sample, level);
    MulMono(sample, 0x7FFF, level);
    MulMono(level, 0x8000, 0x8000);
    MulMono(level, 0x8000, 0x7FFF);
  }

  // ---- the ring ----

  datatype Frame = Frame(left: S16, right: S16)

  class Output {
    const ring: array<Frame>
    var produced: nat
    var taken: nat

    /** Every frame ever pushed. */
    ghost var pushed: seq<Frame>

    ghost predicate Valid()
      reads this, ring
    {
      && ring.Length == 16384 && |pushed| == produced
      && taken <= produced <= taken + 16384
      && forall k :: taken <= k < produced ==> ring[k % 16384] == pushed[k]
    }

    /** What is waiting, oldest first. */
    ghost function Pending(): seq<Frame>
      requires Valid()
      reads this, ring
    {
      pushed[taken..]
    }

    constructor ()
      ensures Valid() && fresh(ring) && Pending() == []
    {
      ring := new Frame[16384](_ => Frame(0, 0));
      produced, taken := 0, 0;
      pushed := [];
    }

    /** Appends a frame. A full ring gives up its oldest one, so the length never passes 16384. */
    method PushOutput(left: int, right: int)
      requires Valid()
      modifies this, ring
      ensures Valid()
      ensures var all := old(Pending()) + [Frame(Clamp(left, -0x8000, 0x7FFF), Clamp(right, -0x8000, 0x7FFF))];
        Pending() == if |all| > 16384 then all[1..] else all
      ensures pushed == old(pushed) + [Frame(Clamp(left, -0x8000, 0x7FFF), Clamp(right, -0x8000, 0x7FFF))]
    {
      var frame := Frame(Clamp(left, -0x8000, 0x7FFF), Clamp(right, -0x8000, 0x7FFF));
      hide Clamp;
      forall k | taken <= k < produced && k % 16384 == produced % 16384 ensures k == produced - 16384 {
        OneTurnApart(k, produced);
      }
      ring[produced % 16384] := frame;
      pushed := pushed + [frame];
      produced := produced + 1;
      assert pushed[taken..] == old(Pending()) + [frame];
      if produced - taken > 16384 {
        taken := produced - 16384;
        assert taken == old(taken) + 1 && pushed[taken..] == (old(Pending()) + [frame])[1..];
      }
    }

    /** The oldest frames waiting, in order, as many as are asked for and there. */
    method TakeOutput(frames: array<Frame>) returns (available: nat)
      requires Valid() && frames != ring
      modifies this`taken, frames
      ensures Valid() && pushed == old(pushed) && available == Min(frames.Length, |old(Pending())|)
      ensures frames[..available] == old(Pending())[..available] && Pending() == old(Pending())[available..]
      ensures frames[available..] == old(frames[available..])
    {
      available := Min(frames.Length, produced - taken);
      for i := 0 to available
        modifies frames
        invariant frames[..i] == pushed[taken..taken + i]
        invariant forall k :: i <= k < frames.Length ==> frames[k] == old(frames[k])
      {
        frames[i] := ring[(taken + i) % 16384];
      }
      taken := taken + available;
    }
  }

  /** Two frames less than a turn of the ring apart never share a place. */
  lemma OneTurnApart(k: nat, n: nat)
    requires n - 16384 <= k < n && k % 16384 == n % 16384
    ensures k == n - 16384
  {
  }
}
