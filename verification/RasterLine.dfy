/** Where a line goes: its positions in fixed point, how far they stray, and the colours along them. */
module RasterLine {
  import opened Words
  import opened RasterGeometry

  /** What the GPU draws at all: a line that does not span more than VRAM. */
  predicate Drawable(from: Vertex, to: Vertex) { Abs(to.x - from.x) < 1024 && Abs(to.y - from.y) < 512 }

  predicate Backwards(from: Vertex, to: Vertex) { from.x >= to.x && to.x - from.x != 0 }

  /** The end the walk starts from: the one further left, or as named when neither is. */
  function FirstEnd(from: Vertex, to: Vertex): Vertex { if Backwards(from, to) then to else from }

  function SecondEnd(from: Vertex, to: Vertex): Vertex { if Backwards(from, to) then from else to }

  function Steps(from: Vertex, to: Vertex): nat { Max(Abs(to.x - from.x), Abs(to.y - from.y)) }

  function PositionStep(delta: int, steps: nat): int {
    if steps == 0 || delta == 0 then 0
    else TruncDiv(delta * 0x1_0000_0000 + (if delta > 0 then steps - 1 else 1 - steps), steps)
  }

  /** The whole part of a coordinate after k steps, from a start nudged short of the pixel's middle. */
  function Walked(start: int, nudge: int, step: int, k: int): int {
    (start * 0x1_0000_0000 + 0x8000_0000 - nudge + k * step) / 0x1_0000_0000
  }

  function PixelX(from: Vertex, to: Vertex, k: int): int {
    var first, second := FirstEnd(from, to), SecondEnd(from, to);
    Walked(first.x, 1024, PositionStep(second.x - first.x, Steps(from, to)), k)
  }

  function PixelY(from: Vertex, to: Vertex, k: int): int {
    var first, second := FirstEnd(from, to), SecondEnd(from, to);
    var step := PositionStep(second.y - first.y, Steps(from, to));
    Walked(first.y, if step < 0 then 1024 else 0, step, k)
  }

  function ColourStep(a: int, b: int, steps: nat): int {
    if steps == 0 then 0 else TruncDiv((b - a) * 0x1000, steps)
  }

  /** A shaded channel after k steps. */
  function Shade(a: int, b: int, steps: nat, k: int): int {
    (a * 0x1000 + 0x800 + k * ColourStep(a, b, steps)) / 0x1000
  }

  // ---- one axis ----

  /** The step rounded away from zero: what it gains over a whole line is less than a step count. */
  lemma StepGain(delta: int, steps: int) returns (r: int)
    requires steps > 0 && Abs(delta) <= steps
    ensures steps * PositionStep(delta, steps) == delta * 0x1_0000_0000 + r
    ensures if delta > 0 then 0 <= r < steps else if delta < 0 then -steps < r <= 0 else r == 0
    ensures delta >= 0 ==> PositionStep(delta, steps) >= 0
    ensures delta < 0 ==> PositionStep(delta, steps) < 0
  {
    hide TruncDiv;
    var step := PositionStep(delta, steps);
    r := steps * step - delta * 0x1_0000_0000;
    if delta != 0 {
      var n := delta * 0x1_0000_0000 + (if delta > 0 then steps - 1 else 1 - steps);
      RoundedAway(n, steps, delta);
      assert steps * step == step * steps;
    }
  }

  /** Truncation after adding the reach: never short of delta, and sign kept. */
  lemma RoundedAway(n: int, steps: int, delta: int)
    requires steps > 0 && delta != 0 && n == delta * 0x1_0000_0000 + (if delta > 0 then steps - 1 else 1 - steps)
    ensures var q := TruncDiv(n, steps);
            var r := q * steps - delta * 0x1_0000_0000;
            if delta > 0 then 0 <= r < steps && q >= 0 else -steps < r <= 0 && q <= 0
    ensures Abs(delta) <= steps && delta < 0 ==> TruncDiv(n, steps) < 0
  {
    DivRemainder(Abs(n), steps);
    var m := Abs(n) / steps;
    assert (-m) * steps == -(m * steps);
  }

  /** Along the longer axis the step is one pixel exactly, and along the other it is never more. */
  lemma StepSize(delta: int, steps: int)
    requires 0 < steps < 1024 && Abs(delta) <= steps
    ensures -0x1_0000_0000 <= PositionStep(delta, steps) <= 0x1_0000_0000
    ensures delta == steps ==> PositionStep(delta, steps) == 0x1_0000_0000
    ensures delta == -steps ==> PositionStep(delta, steps) == -0x1_0000_0000
  {
    hide TruncDiv, PositionStep;
    var r := StepGain(delta, steps);
    var step := PositionStep(delta, steps);
    assert step * steps == steps * step;
    SlopeBounded(step, steps, delta, r);
  }

  lemma SlopeBounded(step: int, steps: int, delta: int, r: int)
    requires 0 < steps && Abs(delta) <= steps && step * steps == delta * 0x1_0000_0000 + r
    requires if delta > 0 then 0 <= r < steps else if delta < 0 then -steps < r <= 0 else r == 0
    ensures -0x1_0000_0000 <= step <= 0x1_0000_0000
    ensures delta == steps ==> step == 0x1_0000_0000
    ensures delta == -steps ==> step == -0x1_0000_0000
  {
    assert (step - 1) * steps == step * steps - steps;
    assert (step + 1) * steps == step * steps + steps;
    assert 0x1_0000_0000 * steps == steps * 0x1_0000_0000;
    assert (-0x1_0000_0000) * steps == -(steps * 0x1_0000_0000);
    if step > 0x1_0000_0000 { MulMono(0x1_0000_0000, step - 1, steps); }
    if step < -0x1_0000_0000 { MulMono(step + 1, -0x1_0000_0000, steps); }
    if delta == steps && step < 0x1_0000_0000 { MulMono(step + 1, 0x1_0000_0000, steps); }
    if delta == -steps && step > -0x1_0000_0000 { MulMono(-0x1_0000_0000, step - 1, steps); }
  }

  /** After k of the steps the gain is still under the step count, and the drift is exact to it. */
  lemma WalkedSoFar(delta: int, steps: int, k: int) returns (r: int)
    requires 0 < steps < 1024 && Abs(delta) <= steps && 0 <= k <= steps
    ensures steps * (k * PositionStep(delta, steps)) == k * delta * 0x1_0000_0000 + k * r
    ensures steps * PositionStep(delta, steps) == delta * 0x1_0000_0000 + r
    ensures if delta > 0 then 0 <= r < steps else if delta < 0 then -steps < r <= 0 else r == 0
  {
    hide PositionStep;
    r := StepGain(delta, steps);
    var step := PositionStep(delta, steps);
    assert steps * (k * step) == k * (steps * step);
    assert k * (delta * 0x1_0000_0000 + r) == k * delta * 0x1_0000_0000 + k * r;
  }

  /** The walk starts on one end and finishes on the other. */
  lemma WalkReachesEnd(start: int, nudge: int, delta: int, steps: int)
    requires 0 < steps < 1024 && Abs(delta) <= steps
    requires nudge == 1024 || (nudge == 0 && delta >= 0)
    ensures Walked(start, nudge, PositionStep(delta, steps), 0) == start
    ensures Walked(start, nudge, PositionStep(delta, steps), steps) == start + delta
  {
    hide PositionStep;
    var r := StepGain(delta, steps);
    assert start * 0x1_0000_0000 + 0x8000_0000 - nudge + steps * PositionStep(delta, steps)
        == (start + delta) * 0x1_0000_0000 + (0x8000_0000 - nudge + r);
    WholeOf(start + delta, 0x8000_0000 - nudge + r);
    WholeOf(start, 0x8000_0000 - nudge);
    assert 0 * PositionStep(delta, steps) == 0;
  }

  lemma WholeOf(whole: int, fraction: int)
    requires 0 <= fraction < 0x1_0000_0000
    ensures (whole * 0x1_0000_0000 + fraction) / 0x1_0000_0000 == whole
  {
  }

  /** One step moves at most one pixel, and along the longer axis exactly one. */
  lemma WalkMoves(start: int, nudge: int, delta: int, steps: int, k: int)
    requires 0 < steps < 1024 && Abs(delta) <= steps
    ensures var step := PositionStep(delta, steps);
            var move := Walked(start, nudge, step, k + 1) - Walked(start, nudge, step, k);
            && -1 <= move <= 1 && (delta >= 0 ==> move >= 0) && (delta <= 0 ==> move <= 0)
            && (delta == steps ==> move == 1) && (delta == -steps ==> move == -1)
  {
    hide PositionStep;
    StepSize(delta, steps);
    var _ := StepGain(delta, steps);
    var step := PositionStep(delta, steps);
    var at := start * 0x1_0000_0000 + 0x8000_0000 - nudge + k * step;
    assert (k + 1) * step == k * step + step;
    assert delta == 0 ==> step == 0 by { if delta == 0 && step != 0 { StepOfZero(steps); } }
    FloorMoves(at, step);
  }

  lemma StepOfZero(steps: int)
    requires steps >= 0
    ensures PositionStep(0, steps) == 0
  {
  }

  lemma FloorMoves(at: int, step: int)
    requires -0x1_0000_0000 <= step <= 0x1_0000_0000
    ensures var move := (at + step) / 0x1_0000_0000 - at / 0x1_0000_0000;
            && -1 <= move <= 1 && (step >= 0 ==> move >= 0) && (step <= 0 ==> move <= 0)
            && (step == 0x1_0000_0000 ==> move == 1) && (step == -0x1_0000_0000 ==> move == -1)
  {
  }

  /** Every position stays within half a pixel, and 2^11 parts in 2^32 over, of the ideal line. */
  lemma WalkStaysClose(start: int, nudge: int, delta: int, steps: int, k: int)
    requires 0 < steps < 1024 && Abs(delta) <= steps && 0 <= k <= steps && 0 <= nudge <= 1024
    ensures var at := Walked(start, nudge, PositionStep(delta, steps), k);
            Abs(at * steps - (start * steps + k * delta)) * 0x1_0000_0000 <= steps * (0x8000_0000 + 0x800)
  {
    hide PositionStep;
    var r := WalkedSoFar(delta, steps, k);
    var step := PositionStep(delta, steps);
    var v := start * 0x1_0000_0000 + 0x8000_0000 - nudge + k * step;
    AbsProduct(k, r, steps, 1023);
    Rescale(steps, start, nudge, k * step, k * delta, k * r);
    assert k * delta * 0x1_0000_0000 == (k * delta) * 0x1_0000_0000;
    CloseTo(v / 0x1_0000_0000, v, steps, start * steps + k * delta, nudge, k * r);
  }

  lemma Rescale(steps: int, start: int, nudge: int, walked: int, moved: int, drift: int)
    requires steps * walked == moved * 0x1_0000_0000 + drift
    ensures steps * (start * 0x1_0000_0000 + 0x8000_0000 - nudge + walked) ==
            (start * steps + moved) * 0x1_0000_0000 + steps * (0x8000_0000 - nudge) + drift
  {
    assert steps * (start * 0x1_0000_0000 + (0x8000_0000 - nudge) + walked)
        == steps * (start * 0x1_0000_0000) + steps * (0x8000_0000 - nudge) + steps * walked;
    assert steps * (start * 0x1_0000_0000) == (start * steps) * 0x1_0000_0000;
  }

  lemma CloseTo(at: int, v: int, steps: int, ideal: int, nudge: int, drift: int)
    requires steps > 0 && at * 0x1_0000_0000 <= v < at * 0x1_0000_0000 + 0x1_0000_0000
    requires steps * v == ideal * 0x1_0000_0000 + steps * (0x8000_0000 - nudge) + drift
    requires 0 <= nudge <= 1024 && Abs(drift) <= steps * 1023
    ensures Abs(at * steps - ideal) * 0x1_0000_0000 <= steps * (0x8000_0000 + 0x800)
  {
    MulMono(at * 0x1_0000_0000, v, steps);
    MulMono(v, at * 0x1_0000_0000 + 0x1_0000_0000, steps);
    assert (at * 0x1_0000_0000) * steps == (at * steps) * 0x1_0000_0000;
    assert (at * 0x1_0000_0000 + 0x1_0000_0000) * steps == (at * steps) * 0x1_0000_0000 + 0x1_0000_0000 * steps;
    assert v * steps == steps * v;
    MulMono(0, nudge, steps);
    MulMono(nudge, 1024, steps);
    assert steps * (0x8000_0000 - nudge) == 0x8000_0000 * steps - nudge * steps;
    assert steps * (0x8000_0000 + 0x800) == 0x8000_0800 * steps;
  }

  /** Every shaded channel stays between its values at the two ends. */
  lemma ShadeBetween(a: U8, b: U8, steps: int, k: int)
    requires 0 <= k <= steps
    ensures Min(a, b) <= Shade(a, b, steps, k) <= Max(a, b)
    ensures Shade(a, b, steps, 0) == a
  {
    hide TruncDiv;
    if steps > 0 {
      TruncDivRemainder((b - a) * 0x1000, steps);
      QuotientSign((b - a) * 0x1000, steps);
      PartOfSlope(ColourStep(a, b, steps), steps, k, (b - a) * 0x1000);
    }
  }

  lemma PartOfSlope(q: int, steps: int, k: int, whole: int)
    requires 0 <= k <= steps && Abs(q * steps) <= Abs(whole) && (whole >= 0 ==> q >= 0) && (whole <= 0 ==> q <= 0)
    ensures Abs(k * q) <= Abs(whole) && (whole >= 0 ==> k * q >= 0) && (whole <= 0 ==> k * q <= 0)
  {
    if q >= 0 {
      MulMono(k, steps, q);
      MulMono(0, k, q);
    } else {
      MulMono(k, steps, -q);
      MulMono(0, k, -q);
      assert k * (-q) == -(k * q) && steps * (-q) == -(q * steps);
    }
  }

  lemma QuotientSign(a: int, b: int)
    requires b > 0
    ensures (a >= 0 ==> TruncDiv(a, b) >= 0) && (a <= 0 ==> TruncDiv(a, b) <= 0)
  {
    DivRemainder(Abs(a), b);
  }

  // ---- the whole line ----

  lemma LongerAxis(start: int, nudge: int, delta: int, steps: int, k: int)
    requires 0 < steps < 1024 && Abs(delta) == steps && 0 <= nudge <= 1024
    ensures Walked(start, nudge, PositionStep(delta, steps), k) == start + (if delta > 0 then k else -k)
  {
    hide PositionStep;
    StepSize(delta, steps);
    assert k * -0x1_0000_0000 == (-k) * 0x1_0000_0000;
    WholeOf(start + (if delta > 0 then k else -k), 0x8000_0000 - nudge);
  }

  lemma StandsStill(start: int, nudge: int, k: int)
    requires 0 <= nudge <= 1024
    ensures Walked(start, nudge, 0, k) == start
  {
    WholeOf(start, 0x8000_0000 - nudge);
  }

  /** The line starts and ends exactly on its two named ends, in steps + 1 = max(|dx|, |dy|) + 1 positions. */
  lemma LineEnds(from: Vertex, to: Vertex)
    requires Drawable(from, to)
    ensures var n, first, second := Steps(from, to), FirstEnd(from, to), SecondEnd(from, to);
            && PixelX(from, to, 0) == first.x && PixelY(from, to, 0) == first.y
            && PixelX(from, to, n) == second.x && PixelY(from, to, n) == second.y
  {
    hide PositionStep, Walked;
    var n, first, second := Steps(from, to), FirstEnd(from, to), SecondEnd(from, to);
    if n == 0 {
      StepOfZero(0);
      StandsStill(first.x, 1024, 0);
      StandsStill(first.y, 0, 0);
    } else {
      var _ := StepGain(second.y - first.y, n);
      WalkReachesEnd(first.x, 1024, second.x - first.x, n);
      WalkReachesEnd(first.y, if PositionStep(second.y - first.y, n) < 0 then 1024 else 0, second.y - first.y, n);
    }
  }

  /** Each step moves one pixel exactly on one axis and at most one on the other, never turning back. */
  lemma LineMoves(from: Vertex, to: Vertex, k: int)
    requires Drawable(from, to) && 0 <= k < Steps(from, to)
    ensures var mx, my := PixelX(from, to, k + 1) - PixelX(from, to, k), PixelY(from, to, k + 1) - PixelY(from, to, k);
            && Abs(mx) <= 1 && Abs(my) <= 1 && mx >= 0
            && (Abs(to.x - from.x) == Steps(from, to) ==> mx == 1)
            && (Abs(to.y - from.y) == Steps(from, to) ==> Abs(my) == 1)
  {
    hide PositionStep, Walked;
    var n, first, second := Steps(from, to), FirstEnd(from, to), SecondEnd(from, to);
    WalkMoves(first.x, 1024, second.x - first.x, n, k);
    WalkMoves(first.y, if PositionStep(second.y - first.y, n) < 0 then 1024 else 0, second.y - first.y, n, k);
  }

  /** Twice the step count times the distance from the ideal line, on each axis. */
  lemma LineStaysClose(from: Vertex, to: Vertex, k: int)
    requires Drawable(from, to) && 0 <= k <= Steps(from, to)
    ensures var n, first, second := Steps(from, to), FirstEnd(from, to), SecondEnd(from, to);
            && Abs(PixelX(from, to, k) * n - (first.x * n + k * (second.x - first.x))) * 0x1_0000_0000 <= n * (0x8000_0000 + 0x800)
            && Abs(PixelY(from, to, k) * n - (first.y * n + k * (second.y - first.y))) * 0x1_0000_0000 <= n * (0x8000_0000 + 0x800)
  {
    hide PositionStep, Walked;
    var n, first, second := Steps(from, to), FirstEnd(from, to), SecondEnd(from, to);
    if n > 0 {
      WalkStaysClose(first.x, 1024, second.x - first.x, n, k);
      WalkStaysClose(first.y, if PositionStep(second.y - first.y, n) < 0 then 1024 else 0, second.y - first.y, n, k);
    } else {
      assert PixelX(from, to, k) * n == 0 && PixelY(from, to, k) * n == 0;
    }
  }

  /** No position is visited twice. */
  lemma LinePixelsDistinct(from: Vertex, to: Vertex, j: int, k: int)
    requires Drawable(from, to) && 0 <= j < k <= Steps(from, to)
    ensures PixelX(from, to, j) != PixelX(from, to, k) || PixelY(from, to, j) != PixelY(from, to, k)
  {
    hide PositionStep, Walked;
    var n, first, second := Steps(from, to), FirstEnd(from, to), SecondEnd(from, to);
    if Abs(to.x - from.x) == n {
      LongerAxis(first.x, 1024, second.x - first.x, n, j);
      LongerAxis(first.x, 1024, second.x - first.x, n, k);
    } else {
      var nudge := if PositionStep(second.y - first.y, n) < 0 then 1024 else 0;
      LongerAxis(first.y, nudge, second.y - first.y, n, j);
      LongerAxis(first.y, nudge, second.y - first.y, n, k);
    }
  }

  ghost predicate LineTouches(from: Vertex, to: Vertex, x: int, y: int) {
    exists k :: 0 <= k <= Steps(from, to) && PixelX(from, to, k) == x && PixelY(from, to, k) == y
  }

  /** The same pixels from either end: a slanted line is the same walk, an upright one its mirror image. */
  lemma LineSameFromEitherEnd(from: Vertex, to: Vertex, x: int, y: int)
    requires Drawable(from, to)
    ensures LineTouches(from, to, x, y) <==> LineTouches(to, from, x, y)
  {
    if LineTouches(from, to, x, y) { TouchedFromOther(from, to, x, y); }
    if LineTouches(to, from, x, y) { TouchedFromOther(to, from, x, y); }
  }

  lemma TouchedFromOther(from: Vertex, to: Vertex, x: int, y: int)
    requires Drawable(from, to) && LineTouches(from, to, x, y)
    ensures LineTouches(to, from, x, y)
  {
    hide PositionStep, Walked;
    var k :| 0 <= k <= Steps(from, to) && PixelX(from, to, k) == x && PixelY(from, to, k) == y;
    if from.x == to.x && from.y != to.y {
      UprightPixel(from, to, k);
      UprightPixel(to, from, Steps(from, to) - k);
      assert PixelX(to, from, Steps(from, to) - k) == x && PixelY(to, from, Steps(from, to) - k) == y;
    } else if from.x == to.x {
      StepOfZero(0);
      StandsStill(from.x, 1024, 0);
      StandsStill(from.y, 0, 0);
      assert PixelX(to, from, 0) == x && PixelY(to, from, 0) == y;
    } else {
      assert PixelX(to, from, k) == x && PixelY(to, from, k) == y;
    }
  }

  lemma UprightPixel(from: Vertex, to: Vertex, k: int)
    requires Drawable(from, to) && from.x == to.x && from.y != to.y && 0 <= k <= Steps(from, to)
    ensures PixelX(from, to, k) == from.x && PixelY(from, to, k) == from.y + (if to.y > from.y then k else -k)
  {
    hide PositionStep, Walked;
    var n := Steps(from, to);
    StepOfZero(n);
    StandsStill(from.x, 1024, k);
    LongerAxis(from.y, if PositionStep(to.y - from.y, n) < 0 then 1024 else 0, to.y - from.y, n, k);
  }
}
