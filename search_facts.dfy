/**
  What every search run satisfies, whatever the encoder answers: the number
  and shape of its invocations, the path of the quality ordinal, when the
  duration is cut, that an encoder failure ends the search, and that a run is
  determined by its inputs. Closing with worked examples.
*/
module SearchFacts {
  import opened Wrappers
  import opened Policy
  import opened Search

  /** The quality ordinal of a VBR call. */
  function QualityOf(c: Call): int
    requires c.params.rate.Vbr?
  {
    c.params.rate.quality
  }

  /** A first encode within budget ends the search: one call, verdict true. */
  lemma EarlyAcceptance(encode: Encoder, target: nat, duration: Option<real>, trace: seq<Call>, ok: bool)
    requires IsRun(encode, target, duration, trace, ok)
    requires encode(0, InitialParams).Some? && Fits(encode(0, InitialParams).value, target)
    ensures ok && trace == [Call(InitialParams, encode(0, InitialParams))]
  {
  }

  /**
    Calls 0 to 9 are VBR encodes whose quality starts at 4 and rises by one or
    two per call until it reaches 9: after `i` refinements it lies between
    `min(9, 4 + i)` and `min(9, 4 + 2 i)`.
  */
  lemma {:induction false} QualityAt(encode: Encoder, target: nat, duration: Option<real>, trace: seq<Call>, i: nat)
    requires RunPrefix(encode, target, duration, trace)
    requires i < |trace| && i < MaxAttempt
    ensures trace[i].params.rate.Vbr? && !trace[i].params.mono
    ensures Min(WorstQuality, InitialQuality + i) <= QualityOf(trace[i]) <= Min(WorstQuality, InitialQuality + 2 * i)
  {
    if i > 0 {
      QualityAt(encode, target, duration, trace, i - 1);
      assert Refines(trace[i - 1], trace[i].params, target, duration);
    }
  }

  /** The quality ordinal never decreases from one call to a later one. */
  lemma {:induction false} QualityMonotone(encode: Encoder, target: nat, duration: Option<real>, trace: seq<Call>, i: nat, j: nat)
    requires RunPrefix(encode, target, duration, trace)
    requires i <= j < |trace| && j < MaxAttempt
    ensures trace[i].params.rate.Vbr? && trace[j].params.rate.Vbr?
    ensures QualityOf(trace[i]) <= QualityOf(trace[j])
    decreases j - i
  {
    QualityAt(encode, target, duration, trace, i);
    QualityAt(encode, target, duration, trace, j);
    if i < j {
      QualityMonotone(encode, target, duration, trace, i, j - 1);
      assert Refines(trace[j - 1], trace[j].params, target, duration);
    }
  }

  /**
    While every measurement so far was more than twice the budget, the quality
    climbs two steps per call: call `i` uses `min(9, 4 + 2 i)`.
  */
  lemma {:induction false} FarOverClimbsFast(encode: Encoder, target: nat, duration: Option<real>, trace: seq<Call>, i: nat)
    requires RunPrefix(encode, target, duration, trace)
    requires i < |trace| && i < MaxAttempt
    requires forall k :: 0 <= k < i ==> FarOver(trace[k].measured.value, target)
    ensures trace[i].params.rate == Vbr(Min(WorstQuality, InitialQuality + 2 * i))
  {
    if i > 0 {
      FarOverClimbsFast(encode, target, duration, trace, i - 1);
      assert Refines(trace[i - 1], trace[i].params, target, duration);
    }
  }

  /**
    The shape of every run: at most 11 invocations; all before index 10 are
    VBR encodes in the input's channel layout, and an 11th, if made, is the mono fallback at no less
    than 8 kbps, issued only after ten over-budget measurements.
  */
  lemma RunShape(encode: Encoder, target: nat, duration: Option<real>, trace: seq<Call>, ok: bool)
    requires IsRun(encode, target, duration, trace, ok)
    ensures 1 <= |trace| <= MaxAttempt + 1
    ensures forall i :: 0 <= i < |trace| ==> (trace[i].params.rate.Cbr? <==> i == MaxAttempt)
    ensures forall i :: 0 <= i < |trace| ==> (trace[i].params.mono <==> i == MaxAttempt)
    ensures |trace| == MaxAttempt + 1 ==>
      && trace[MaxAttempt].params == EncodeParams(Cbr(FallbackBitrate(target)), None, true)
      && FallbackBitrate(target) >= MinFallbackKbps
      && forall i :: 0 <= i < MaxAttempt ==> OverBudget(trace[i], target)
  {
    forall i | 0 <= i < |trace| && i < MaxAttempt
      ensures trace[i].params.rate.Vbr? && !trace[i].params.mono
    {
      QualityAt(encode, target, duration, trace, i);
    }
    FallbackBitrateExact(target);
  }

  /**
    A failed invocation is the last one: nothing is retried after an encoder
    failure and the verdict is false.
  */
  lemma FailureAborts(encode: Encoder, target: nat, duration: Option<real>, trace: seq<Call>, ok: bool, i: nat)
    requires IsRun(encode, target, duration, trace, ok)
    requires i < |trace| && trace[i].measured.None?
    ensures i == |trace| - 1 && !ok
  {
  }

  /**
    A run that ends over budget without an encoder failure has made all 11
    invocations, the last being the fallback.
  */
  lemma UnmetMeansExhausted(encode: Encoder, target: nat, duration: Option<real>, trace: seq<Call>, ok: bool)
    requires IsRun(encode, target, duration, trace, ok)
    requires !ok && Last(trace).measured.Some?
    ensures |trace| == MaxAttempt + 1 && trace[MaxAttempt].params == FallbackParams(target)
  {
    assert OverBudget(Last(trace), target);
  }

  /**
    A duration cap appears only on a refinement at quality 7 or worse that
    follows a measurement over 1.5 times the budget, only when a duration was
    parsed, never before the third invocation, and then it is below 60% of a
    positive original duration.
  */
  lemma CappedCall(encode: Encoder, target: nat, duration: Option<real>, trace: seq<Call>, i: nat)
    requires RunPrefix(encode, target, duration, trace)
    requires i < |trace| && trace[i].params.durationCap.Some?
    ensures 2 <= i < MaxAttempt && duration.Some?
    ensures trace[i].params.rate.Vbr? && QualityOf(trace[i]) >= 7
    ensures WellOver(trace[i - 1].measured.value, target)
    ensures var d := trace[i].params.durationCap.value;
      duration.value > 0.0 ==> 0.0 <= d < 0.6 * duration.value
  {
    QualityAt(encode, target, duration, trace, i);
    var prev := trace[i - 1];
    assert Refines(prev, trace[i].params, target, duration);
    var q := NextQuality(prev.params.rate.quality, prev.measured.value, target);
    DurationCapShortens(q, prev.measured.value, target, duration);
  }

  /** Without a parsed duration no invocation is ever cut short. */
  lemma NoDurationNoCap(encode: Encoder, target: nat, trace: seq<Call>, i: nat)
    requires RunPrefix(encode, target, None, trace)
    requires i < |trace|
    ensures trace[i].params.durationCap.None?
  {
    if trace[i].params.durationCap.Some? {
      CappedCall(encode, target, None, trace, i);
    }
  }

  /** Two prefixes of runs on the same inputs agree on their common length. */
  lemma {:induction false} PrefixesAgree(encode: Encoder, target: nat, duration: Option<real>, t1: seq<Call>, t2: seq<Call>, k: nat)
    requires RunPrefix(encode, target, duration, t1) && RunPrefix(encode, target, duration, t2)
    requires k <= |t1| && k <= |t2|
    ensures t1[..k] == t2[..k]
  {
    if k > 0 {
      PrefixesAgree(encode, target, duration, t1, t2, k - 1);
      var i := k - 1;
      if i > 0 && i < MaxAttempt {
        assert t1[i - 1] == t1[..k - 1][i - 1] == t2[..k - 1][i - 1] == t2[i - 1];
        assert Refines(t1[i - 1], t1[i].params, target, duration);
        assert Refines(t2[i - 1], t2[i].params, target, duration);
      }
      assert t1[i] == t2[i];
      assert t1[..k] == t1[..k - 1] + [t1[i]];
      assert t2[..k] == t2[..k - 1] + [t2[i]];
    }
  }

  /**
    A search is determined by its inputs: against the same encoder, budget and
    duration, every run makes the same invocations and gives the same verdict.
  */
  lemma RunUnique(encode: Encoder, target: nat, duration: Option<real>, t1: seq<Call>, ok1: bool, t2: seq<Call>, ok2: bool)
    requires IsRun(encode, target, duration, t1, ok1) && IsRun(encode, target, duration, t2, ok2)
    ensures t1 == t2 && ok1 == ok2
  {
    var k := Min(|t1|, |t2|);
    PrefixesAgree(encode, target, duration, t1, t2, k);
    assert |t1| == |t2| by {
      assert t1[k - 1] == t1[..k][k - 1] && t2[k - 1] == t2[..k][k - 1];
    }
    assert t1 == t1[..k] && t2 == t2[..k];
  }

  /** An engine that always fails: one invocation, verdict false. */
  lemma EngineMissing(encode: Encoder, target: nat, duration: Option<real>, trace: seq<Call>, ok: bool)
    requires forall n, p :: encode(n, p).None?
    requires IsRun(encode, target, duration, trace, ok)
    ensures |trace| == 1 && !ok
  {
    FailureAborts(encode, target, duration, trace, ok, 0);
  }

  /** Budget 50 KB and a first encode of 400 KB: the first refinement jumps to quality 6. */
  lemma FarOverFirstStep(encode: Encoder, duration: Option<real>, trace: seq<Call>, ok: bool)
    requires IsRun(encode, 50, duration, trace, ok)
    requires encode(0, InitialParams) == Some(400 * 1024)
    ensures |trace| >= 2 && trace[1].params == EncodeParams(Vbr(6), None, false)
  {
    assert OverBudget(trace[0], 50);
    assert Refines(trace[0], trace[1].params, 50, duration);
  }

  /**
    Budget 10 KB and an engine that always produces 200 KB: quality runs
    6, 8, 9, ...; from the third invocation on the duration is cut to 4.5% of
    the original; the search exhausts all 11 invocations, ending with the
    53 kbps mono fallback, and fails.
  */
  lemma NeverFits(encode: Encoder, duration: Option<real>, trace: seq<Call>, ok: bool)
    requires forall n, p :: encode(n, p) == Some(200 * 1024)
    requires IsRun(encode, 10, duration, trace, ok)
    ensures |trace| == MaxAttempt + 1 && !ok
    ensures trace[MaxAttempt].params == EncodeParams(Cbr(53), None, true)
    ensures TrimRatio(200 * 1024, 10) == 0.045
    ensures forall i :: 1 <= i < MaxAttempt ==>
      trace[i].params == EncodeParams(Vbr(Min(WorstQuality, InitialQuality + 2 * i)),
                                      if i >= 2 && duration.Some? then Some(duration.value * 0.045) else None,
                                      false)
  {
    assert OverBudget(Last(trace), 10);
    FallbackBitrateExact(10);
    assert TrimRatio(200 * 1024, 10) == 0.045;
    forall i | 1 <= i < MaxAttempt
      ensures trace[i].params == EncodeParams(Vbr(Min(WorstQuality, InitialQuality + 2 * i)),
                                              if i >= 2 && duration.Some? then Some(duration.value * 0.045) else None,
                                              false)
    {
      FarOverClimbsFast(encode, 10, duration, trace, i - 1);
      FarOverClimbsFast(encode, 10, duration, trace, i);
      assert Refines(trace[i - 1], trace[i].params, 10, duration);
    }
  }
}
