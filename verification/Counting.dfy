/** Classifying and counting observations (src/release_sentinel/coverage/assessment.py). */
module Counting {
  import opened Sets
  import opened Wrappers
  import opened Evidence
  import opened CoverageProtocol
  import Wilson

  datatype Classification = CORRECT_ACCEPT | OVERBLOCK | CORRECT_BLOCK | ESCAPE | INVALID_CANDIDATE

  datatype Observation = Observation(
    candidateId: string, valid: bool, decision: Option<Decision>, verdict: Option<OracleVerdict>)

  datatype ClassifyError = MissingResult | UnsupportedCombination

  datatype Counts = Counts(
    confirmedSafe: nat,
    confirmedUnsafe: nat,
    correctAccepts: nat,
    overblocks: nat,
    correctBlocks: nat,
    escapes: nat,
    invalid: nat)
  {
    function Valid(): nat { confirmedSafe + confirmedUnsafe }

    function Total(): nat { Valid() + invalid }
  }

  function Classify(o: Observation): Result<Classification, ClassifyError> {
    if !o.valid then Ok(INVALID_CANDIDATE)
    else if o.decision.None? || o.verdict.None? then Err(MissingResult)
    else
      match (o.decision.value, o.verdict.value)
      case (GO, SAFE) => Ok(CORRECT_ACCEPT)
      case (GO, UNSAFE) => Ok(ESCAPE)
      case (NO_GO, SAFE) => Ok(OVERBLOCK)
      case (NO_GO, UNSAFE) => Ok(CORRECT_BLOCK)
      case (CONDITIONAL_GO, _) => Err(UnsupportedCombination)
  }

  /** Where observations of class `c` stand. */
  ghost function Positions(observations: seq<Observation>, c: Classification): set<nat> {
    set i: nat | i < |observations| && Classify(observations[i]) == Ok(c)
  }

  /** Where valid candidates that the oracle found `verdict` stand. */
  ghost function Confirmed(observations: seq<Observation>, verdict: OracleVerdict): set<nat> {
    set i: nat | i < |observations| && observations[i].valid && observations[i].verdict == Some(verdict)
  }

  ghost predicate Classifiable(observations: seq<Observation>) {
    forall i :: 0 <= i < |observations| ==> Classify(observations[i]).Ok?
  }

  /** Where the gate decided `decision` on a valid candidate that the oracle found `verdict`. */
  ghost function Decided(observations: seq<Observation>, decision: Decision, verdict: OracleVerdict): set<nat> {
    set i: nat | i < |observations| && observations[i].valid &&
      observations[i].decision == Some(decision) && observations[i].verdict == Some(verdict)
  }

  ghost function Invalid(observations: seq<Observation>): set<nat> {
    set i: nat | i < |observations| && !observations[i].valid
  }

  /** An observation without a class: valid, but with a result missing or a conditional decision. */
  ghost predicate Unclassified(o: Observation) {
    o.valid && (o.decision == None || o.verdict == None || o.decision == Some(CONDITIONAL_GO))
  }

  /** Each counter in terms of what gate and oracle said. */
  ghost predicate Tallies(counts: Counts, observations: seq<Observation>) {
    && counts.correctAccepts == |Decided(observations, GO, SAFE)|
    && counts.overblocks == |Decided(observations, NO_GO, SAFE)|
    && counts.correctBlocks == |Decided(observations, NO_GO, UNSAFE)|
    && counts.escapes == |Decided(observations, GO, UNSAFE)|
    && counts.invalid == |Invalid(observations)|
    && counts.confirmedSafe == |Confirmed(observations, SAFE)|
    && counts.confirmedUnsafe == |Confirmed(observations, UNSAFE)|
  }

  /** The class of a valid candidate in terms of what gate and oracle said. */
  predicate Names(c: Classification, decision: Decision, verdict: OracleVerdict) {
    || (c == CORRECT_ACCEPT && decision == GO && verdict == SAFE)
    || (c == OVERBLOCK && decision == NO_GO && verdict == SAFE)
    || (c == CORRECT_BLOCK && decision == NO_GO && verdict == UNSAFE)
    || (c == ESCAPE && decision == GO && verdict == UNSAFE)
  }

  /** The classes are the four outcomes of gate and oracle, and the invalid candidates. */
  lemma ClassesMeaning(observations: seq<Observation>)
    ensures Positions(observations, CORRECT_ACCEPT) == Decided(observations, GO, SAFE)
    ensures Positions(observations, OVERBLOCK) == Decided(observations, NO_GO, SAFE)
    ensures Positions(observations, CORRECT_BLOCK) == Decided(observations, NO_GO, UNSAFE)
    ensures Positions(observations, ESCAPE) == Decided(observations, GO, UNSAFE)
    ensures Positions(observations, INVALID_CANDIDATE) == Invalid(observations)
    ensures Classifiable(observations) <==> forall i :: 0 <= i < |observations| ==> !Unclassified(observations[i])
  {
  }

  lemma PositionsStep(observations: seq<Observation>, i: nat, c: Classification)
    requires i < |observations|
    ensures |Positions(observations[..i + 1], c)| ==
            |Positions(observations[..i], c)| + if Classify(observations[i]) == Ok(c) then 1 else 0
  {
    var before, after := Positions(observations[..i], c), Positions(observations[..i + 1], c);
    if Classify(observations[i]) == Ok(c) {
      assert after == before + {i};
    } else {
      assert after == before;
    }
  }

  /** The oracle's two populations are what the gate accepted and what it blocked of each. */
  lemma ConfirmedSplits(observations: seq<Observation>)
    requires Classifiable(observations)
    ensures |Confirmed(observations, SAFE)| ==
            |Positions(observations, CORRECT_ACCEPT)| + |Positions(observations, OVERBLOCK)|
    ensures |Confirmed(observations, UNSAFE)| ==
            |Positions(observations, CORRECT_BLOCK)| + |Positions(observations, ESCAPE)|
  {
    assert Confirmed(observations, SAFE) ==
           Positions(observations, CORRECT_ACCEPT) + Positions(observations, OVERBLOCK);
    assert Confirmed(observations, UNSAFE) ==
           Positions(observations, CORRECT_BLOCK) + Positions(observations, ESCAPE);
  }

  /** Every observation belongs to exactly one of the three populations. */
  lemma Placed(observations: seq<Observation>, i: nat)
    requires i < |observations| && Classify(observations[i]).Ok?
    ensures i in Positions(observations, INVALID_CANDIDATE) <==>
            i !in Confirmed(observations, SAFE) && i !in Confirmed(observations, UNSAFE)
    ensures i !in Confirmed(observations, SAFE) || i !in Confirmed(observations, UNSAFE)
  {
  }

  lemma DisjointSizes(a: set<nat>, b: set<nat>, c: set<nat>)
    requires a !! b && (a + b) !! c
    ensures |a + b + c| == |a| + |b| + |c|
  {
  }

  /** Nothing is counted twice and nothing is dropped. */
  lemma TotalIsConserved(counts: Counts, observations: seq<Observation>)
    requires Classifiable(observations) && Tallies(counts, observations)
    ensures counts.Total() == |observations|
    ensures counts.Valid() == counts.correctAccepts + counts.overblocks + counts.correctBlocks + counts.escapes
  {
    ConfirmedSplits(observations);
    ClassesMeaning(observations);
    var safe, unsafe, invalid :=
      Confirmed(observations, SAFE), Confirmed(observations, UNSAFE), Positions(observations, INVALID_CANDIDATE);
    forall i: nat ensures i in Indices(|observations|) <==> i in safe || i in unsafe || i in invalid {
      if i < |observations| {
        Placed(observations, i);
      }
    }
    forall i | i in safe + unsafe ensures i !in invalid {
      Placed(observations, i);
    }
    assert safe !! unsafe;
    hide Confirmed, Positions, Classify, Classifiable, Decided, Invalid;
    assert Indices(|observations|) == safe + unsafe + invalid;
    DisjointSizes(safe, unsafe, invalid);
  }

  method AggregateObservations(observations: seq<Observation>) returns (r: Result<Counts, ClassifyError>)
    ensures r.Ok? <==> Classifiable(observations)
    ensures r.Ok? ==> Tallies(r.value, observations)
    ensures r.Ok? <==> forall i :: 0 <= i < |observations| ==> !Unclassified(observations[i])
    ensures r.Err? ==> exists i ::
      && 0 <= i < |observations| && Unclassified(observations[i])
      && (forall j :: 0 <= j < i ==> !Unclassified(observations[j]))
      && (r.error == MissingResult <==> observations[i].decision == None || observations[i].verdict == None)
  {
    var correctAccepts, overblocks, correctBlocks, escapes, invalid := 0, 0, 0, 0, 0;
    for i := 0 to |observations|
      invariant Classifiable(observations[..i])
      invariant correctAccepts == |Positions(observations[..i], CORRECT_ACCEPT)|
      invariant overblocks == |Positions(observations[..i], OVERBLOCK)|
      invariant correctBlocks == |Positions(observations[..i], CORRECT_BLOCK)|
      invariant escapes == |Positions(observations[..i], ESCAPE)|
      invariant invalid == |Positions(observations[..i], INVALID_CANDIDATE)|
    {
      hide Positions;
      forall c {
        PositionsStep(observations, i, c);
      }
      var outcome := Classify(observations[i]);
      if outcome.Err? {
        ClassesMeaning(observations[..i]);
        assert forall j :: 0 <= j < i ==> observations[..i][j] == observations[j];
        assert Unclassified(observations[i]);
        return Err(outcome.error);
      }
      match outcome.value {
        case CORRECT_ACCEPT => correctAccepts := correctAccepts + 1;
        case OVERBLOCK => overblocks := overblocks + 1;
        case CORRECT_BLOCK => correctBlocks := correctBlocks + 1;
        case ESCAPE => escapes := escapes + 1;
        case INVALID_CANDIDATE => invalid := invalid + 1;
      }
    }
    assert observations[..|observations|] == observations;
    ConfirmedSplits(observations);
    ClassesMeaning(observations);
    hide Positions, Decided, Invalid, Confirmed, Classify;
    return Ok(Counts(
      correctAccepts + overblocks, correctBlocks + escapes,
      correctAccepts, overblocks, correctBlocks, escapes, invalid));
  }

  // ---------------------------------------------------------------- rates

  const Z: real := 1.959963984540054

  datatype Rate = Rate(numerator: nat, denominator: nat, observed: Option<real>, wilson: Option<Wilson.Interval>)

  /** `_rate_payload`; on a numerator within its denominator the interval does not raise. */
  function RateOf(numerator: nat, denominator: nat, sqrt: real -> real): Rate
    requires numerator <= denominator
  {
    var observed := if denominator == 0 then None else Some(numerator as real / denominator as real);
    Rate(numerator, denominator, observed, Wilson.WilsonInterval(numerator, denominator, Z, sqrt).value)
  }

  /** Counters never exceed the population their rate refers to. */
  lemma RatesAreDefined(counts: Counts, observations: seq<Observation>)
    requires Classifiable(observations) && Tallies(counts, observations)
    ensures counts.escapes <= counts.confirmedUnsafe && counts.correctBlocks <= counts.confirmedUnsafe
    ensures counts.overblocks <= counts.confirmedSafe
  {
    ConfirmedSplits(observations);
    ClassesMeaning(observations);
  }

  lemma TimesDenominator(numerator: nat, denominator: nat)
    requires denominator > 0
    ensures numerator as real / denominator as real * denominator as real == numerator as real
  {
  }

  /** A rate is missing exactly for an empty population, and lies in its interval. */
  lemma RateLiesInInterval(numerator: nat, denominator: nat, sqrt: real -> real)
    requires numerator <= denominator && Wilson.IsSquareRoot(sqrt)
    ensures var rate := RateOf(numerator, denominator, sqrt);
            && rate.numerator == numerator && rate.denominator == denominator
            && (denominator > 0 ==> rate.observed.value * denominator as real == numerator as real)
            && (rate.observed.None? <==> denominator == 0) && (rate.wilson.None? <==> denominator == 0)
            && (denominator > 0 ==>
                  0.0 <= rate.wilson.value.low <= rate.observed.value <= rate.wilson.value.high <= 1.0)
  {
    if denominator > 0 {
      Wilson.WilsonIsScoreInterval(numerator, denominator, Z, sqrt);
      TimesDenominator(numerator, denominator);
    }
  }
}
