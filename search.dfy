/**
  The size-targeting search of `convert_to_mp3` (convert.py). The encoder is a
  black box: `encode(n, p)` is what its `n`-th invocation (counting from 0)
  leaves behind when handed parameters `p` — the byte size of the output file,
  or None when the invocation failed. Indexing by `n` lets the proofs cover
  engines that answer differently to repeated identical requests.

  The metadata probe, JSON decoding and `float(...)` of the duration are
  summarised by `duration`: the parsed duration in seconds, or None when any
  of them failed.
*/
module Search {
  import opened Wrappers
  import opened Policy

  /** An encoder invocation and what it left: the measured size, or None on failure. */
  datatype Call = Call(params: EncodeParams, measured: Option<nat>)

  type Encoder = (nat, EncodeParams) -> Option<nat>

  /** The search goes on after `c`: the encoder succeeded and the file is over budget. */
  predicate OverBudget(c: Call, target: nat) {
    c.measured.Some? && !Fits(c.measured.value, target)
  }

  /** `next` is the refinement the loop issues after call `prev`. */
  predicate Refines(prev: Call, next: EncodeParams, target: nat, duration: Option<real>) {
    && prev.params.rate.Vbr?
    && prev.params.rate.quality <= WorstQuality
    && prev.measured.Some?
    && next == RefinedParams(prev.params.rate.quality, prev.measured.value, target, duration)
  }

  /**
    `trace` is a prefix of the invocations of one search: it opens with the
    quality-4 encode, every answer is the encoder's, a call only follows an
    over-budget measurement, calls 1 to 9 are refinements of their
    predecessor, and call 10 is the mono fallback.
  */
  ghost predicate RunPrefix(encode: Encoder, target: nat, duration: Option<real>, trace: seq<Call>) {
    && 1 <= |trace| <= MaxAttempt + 1
    && trace[0].params == InitialParams
    && (forall i :: 0 <= i < |trace| ==> trace[i].measured == encode(i, trace[i].params))
    && (forall i :: 0 <= i < |trace| - 1 ==> OverBudget(trace[i], target))
    && (forall i :: 0 <= i < |trace| - 1 && i + 1 < MaxAttempt ==> Refines(trace[i], trace[i + 1].params, target, duration))
    && (|trace| == MaxAttempt + 1 ==> trace[MaxAttempt].params == FallbackParams(target))
  }

  function Last(trace: seq<Call>): Call
    requires |trace| > 0
  {
    trace[|trace| - 1]
  }

  /**
    A complete search: a prefix that stops only when the last call failed, fit
    the budget, or was the fallback; the verdict is whether the last measured
    size fits.
  */
  ghost predicate IsRun(encode: Encoder, target: nat, duration: Option<real>, trace: seq<Call>, ok: bool) {
    && RunPrefix(encode, target, duration, trace)
    && (OverBudget(Last(trace), target) ==> |trace| == MaxAttempt + 1)
    && ok == (Last(trace).measured.Some? && Fits(Last(trace).measured.value, target))
  }

  /**
    The search itself. Returns the verdict and the invocations it made, in
    order, each with what it measured.
  */
  method ConvertToMp3(encode: Encoder, target: nat, duration: Option<real>) returns (ok: bool, trace: seq<Call>)
    ensures IsRun(encode, target, duration, trace, ok)
  {
    var measured := encode(0, InitialParams);
    trace := [Call(InitialParams, measured)];
    if measured.None? {
      return false, trace;
    }
    var size := measured.value;
    if Fits(size, target) {
      return true, trace;
    }
    var attempt := 1;
    var quality := InitialQuality;
    while !Fits(size, target) && attempt < MaxAttempt
      invariant 1 <= attempt <= MaxAttempt && |trace| == attempt
      invariant RunPrefix(encode, target, duration, trace)
      invariant Last(trace).measured == Some(size)
      invariant Last(trace).params.rate == Vbr(quality) && quality <= WorstQuality
    {
      quality := NextQuality(quality, size, target);
      var cap := DurationCap(quality, size, target, duration);
      var params := EncodeParams(Vbr(quality), cap, false);
      measured := encode(attempt, params);
      trace := trace + [Call(params, measured)];
      if measured.None? {
        return false, trace;
      }
      size := measured.value;
      attempt := attempt + 1;
    }
    if Fits(size, target) {
      return true, trace;
    }
    var params := FallbackParams(target);
    measured := encode(attempt, params);
    trace := trace + [Call(params, measured)];
    ok := measured.Some? && Fits(measured.value, target);
  }
}
