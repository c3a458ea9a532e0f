/**
  The parameter-adjustment policy of the size-targeting search in convert.py:
  how the VBR quality ordinal is stepped, when and how far the output duration
  is cut, and the bit rate of the last-resort mono pass.

  Sizes are exact byte counts; the target is a whole number of kilobytes
  (1 KB = 1024 bytes). The source compares `bytes / 1024` against the target;
  here the same comparisons are written over bytes, which is exact.
*/
module Policy {
  import opened Wrappers

  /** The VBR quality of the first encode (`-q:a 4`). */
  const InitialQuality := 4
  /** The worst (smallest-file) VBR quality ordinal of libmp3lame. */
  const WorstQuality := 9
  /** The loop runs while `attempt < MaxAttempt`; `attempt` starts at 1. */
  const MaxAttempt := 10
  /** Lower bound of the fallback bit rate, in kbps. */
  const MinFallbackKbps := 8
  const BytesPerKb := 1024

  /** How the encoder is told what to aim for: `-q:a <quality>` or `-b:a <kbps>k`. */
  datatype Rate = Vbr(quality: int) | Cbr(kbps: int)

  /** One encoder invocation: rate, optional `-t <seconds>` cap, and `-ac 1`. */
  datatype EncodeParams = EncodeParams(rate: Rate, durationCap: Option<real>, mono: bool)

  const InitialParams := EncodeParams(Vbr(InitialQuality), None, false)

  function Min(a: int, b: int): int { if a <= b then a else b }
  function Max(a: int, b: int): int { if a >= b then a else b }

  /** The measured file is within budget (`current_size <= target_size_kb`). */
  predicate Fits(size: nat, target: nat) {
    size <= target * BytesPerKb
  }

  /** More than twice the budget (`current_size > target_size_kb * 2`). */
  predicate FarOver(size: nat, target: nat) {
    size > 2 * target * BytesPerKb
  }

  /** More than one and a half times the budget (`current_size > target_size_kb * 1.5`). */
  predicate WellOver(size: nat, target: nat) {
    2 * size > 3 * target * BytesPerKb
  }

  /**
    The quality ordinal of the next refinement: two steps when the file is more
    than twice the budget, one otherwise, never past the worst ordinal.
  */
  function NextQuality(quality: int, size: nat, target: nat): (q: int)
    requires quality <= WorstQuality
    ensures quality <= q <= WorstQuality
    ensures q == WorstQuality || q == quality + (if FarOver(size, target) then 2 else 1)
    ensures q == WorstQuality ==> quality + (if FarOver(size, target) then 2 else 1) >= WorstQuality
  {
    if FarOver(size, target) then Min(WorstQuality, quality + 2)
    else Min(WorstQuality, quality + 1)
  }

  /** The duration-trim trigger: quality already poor, size still well over budget. */
  predicate TrimTriggered(quality: int, size: nat, target: nat) {
    quality >= 7 && WellOver(size, target)
  }

  /** `target_size_kb / current_size * 0.9`, with `current_size` in kilobytes. */
  function TrimRatio(size: nat, target: nat): real
    requires size > 0
  {
    (target as real) / ((size as real) / (BytesPerKb as real)) * 0.9
  }

  /** For positive `b`, `a / b` is below `c` whenever `a` is below `c * b`. */
  lemma QuotientBelow(a: real, b: real, c: real)
    requires b > 0.0 && a < c * b
    ensures a / b < c
  {
    var q := a / b;
    assert q * b == a;
    assert q * b < c * b;
  }

  /** Well over budget, the duration is cut to less than 60% of the original. */
  lemma TrimRatioBound(size: nat, target: nat)
    requires WellOver(size, target)
    ensures size > 0
    ensures 0.0 <= TrimRatio(size, target) < 0.6
  {
    var kb := (size as real) / (BytesPerKb as real);
    var t := target as real;
    assert 3.0 * t < 2.0 * kb by {
      assert 2.0 * (size as real) > 3.0 * t * 1024.0;
    }
    QuotientBelow(t, kb, 2.0 / 3.0);
    var q := t / kb;
    assert 0.0 <= q;
    assert TrimRatio(size, target) == q * 0.9;
  }

  /**
    The `-t` cap of a refinement at `quality` after measuring `size`: present
    exactly when the trim triggers and a duration was parsed, and then the
    original duration scaled by TrimRatio.
  */
  function DurationCap(quality: int, size: nat, target: nat, duration: Option<real>): (cap: Option<real>)
    ensures cap.Some? <==> TrimTriggered(quality, size, target) && duration.Some?
    ensures cap.Some? ==> size > 0 && cap.value == duration.value * TrimRatio(size, target)
  {
    if TrimTriggered(quality, size, target) && duration.Some? then
      Some(duration.value * TrimRatio(size, target))
    else
      None
  }

  /** A cap is only ever a real shortening of a positive original duration. */
  lemma DurationCapShortens(quality: int, size: nat, target: nat, duration: Option<real>)
    requires DurationCap(quality, size, target, duration).Some?
    ensures duration.Some? && quality >= 7 && WellOver(size, target)
    ensures var d := DurationCap(quality, size, target, duration).value;
      duration.value > 0.0 ==> 0.0 <= d < 0.6 * duration.value < duration.value
  {
    TrimRatioBound(size, target);
    if duration.value > 0.0 {
      ScaleBelow(duration.value, TrimRatio(size, target), 0.6);
    }
  }

  /** Scaling a positive value by a factor in `[0, c)` gives a value in `[0, c * x)`. */
  lemma ScaleBelow(x: real, r: real, c: real)
    requires x > 0.0 && 0.0 <= r < c
    ensures 0.0 <= x * r < c * x
  {
    assert x * (c - r) > 0.0;
  }

  /** Python's `int(x)`: truncation toward zero. */
  function Trunc(x: real): int {
    if x >= 0.0 then x.Floor else -((-x).Floor)
  }

  /** `max(8, int(target_size_kb * 8 / 1.5))` kbps. */
  function FallbackBitrate(target: nat): int {
    Max(MinFallbackKbps, Trunc((target * 8) as real / 1.5))
  }

  /** The fallback rate is never below 8 kbps and is exactly `max(8, 16 * target div 3)`. */
  lemma FallbackBitrateExact(target: nat)
    ensures FallbackBitrate(target) >= MinFallbackKbps
    ensures FallbackBitrate(target) == Max(MinFallbackKbps, (16 * target) / 3)
  {
    var x := (target * 8) as real / 1.5;
    var k := (16 * target) / 3;
    var r := (16 * target) % 3;
    assert 16 * target == 3 * k + r;
    assert x == (k as real) + (r as real) / 3.0 by {
      assert x * 1.5 == (target * 8) as real;
      assert ((k as real) + (r as real) / 3.0) * 1.5 == (target * 8) as real;
    }
    assert x >= 0.0;
    assert (k as real) <= x < (k as real) + 1.0;
    assert x.Floor == k;
  }

  /** The last-resort pass: explicit bit rate, no duration cap, forced mono. */
  function FallbackParams(target: nat): (p: EncodeParams)
    ensures p.rate.Cbr? && p.rate.kbps >= MinFallbackKbps
    ensures p.mono && p.durationCap.None?
  {
    FallbackBitrateExact(target);
    EncodeParams(Cbr(FallbackBitrate(target)), None, true)
  }

  /**
    The parameters of a refinement encode after a measurement of `size` at
    `quality`: the stepped quality, the duration cap for that new quality and
    the original channel layout.
  */
  function RefinedParams(quality: int, size: nat, target: nat, duration: Option<real>): (p: EncodeParams)
    requires quality <= WorstQuality
    ensures p.rate.Vbr? && quality <= p.rate.quality <= WorstQuality && !p.mono
    ensures p.durationCap.Some? ==> duration.Some? && p.rate.quality >= 7 && WellOver(size, target)
  {
    var q := NextQuality(quality, size, target);
    EncodeParams(Vbr(q), DurationCap(q, size, target, duration), false)
  }
}
