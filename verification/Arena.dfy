/** The measurement loop of the reference arena (src/release_sentinel/coverage/runner.py).

    Loading a candidate, the gate under a policy revision and the oracle are arbitrary
    deterministic functions of the candidate. */
module Arena {
  import opened Wrappers
  import opened Evidence
  import opened CoverageProtocol
  import opened Counting

  datatype Candidate = Candidate(id: string, sourceSha256: string)

  datatype GateOutcome = GateOutcome(decision: Decision, responseSha256: string)

  /** What a receipt says about a run apart from the policy and the gate it measured. */
  datatype Scope = Scope(
    challengeSha256: string,
    fixtureSha256: string,
    benchmarkManifestSha256: string,
    oracleDigest: string,
    runnerDigest: string,
    qualificationManifestSha256: string,
    oracleSelftestSha256: string,
    tested: seq<string>,
    notTested: seq<string>)

  datatype Definition = Definition(
    candidates: seq<Candidate>,
    loads: Candidate -> bool,
    gate: (Candidate, int) -> GateOutcome,
    judge: Candidate -> Evaluation,
    qualification: Qualification,
    oracleManifest: string,
    sameChallenge: bool,
    scope: int -> Scope,
    policySha256: int -> string,
    context: (Candidate, int) -> Context,
    buildReceipt: Candidate -> string,
    gateRevision: int -> string,
    gateKey: CoverageProtocol.Authority,
    oracleKey: CoverageProtocol.Authority,
    hashes: Hashes)

  datatype Measurement = Measurement(
    candidateId: string,
    candidateSha256: string,
    decision: Decision,
    verdict: OracleVerdict,
    classification: Classification,
    gateSnapshot: SignedSnapshot,
    oracleResult: SignedResult)

  datatype Run = Run(revision: int, policySha256: string, scope: Scope, counts: Counts, measurements: seq<Measurement>)

  datatype ArenaError =
    | OracleNotQualified
    | IdentityMismatch
    | Refused(error: ProtocolError)

  // ---------------------------------------------------------------- one candidate

  function Snapshot(d: Definition, revision: int, c: Candidate): Result<SignedSnapshot, ProtocolError> {
    var outcome := d.gate(c, revision);
    BuildGateSnapshot(d.context(c, revision), outcome.decision, outcome.responseSha256, d.buildReceipt(c),
                      d.gateRevision(revision), d.gateKey, d.hashes)
  }

  function Evaluated(d: Definition, revision: int, c: Candidate, snapshot: SignedSnapshot):
    Result<SignedResult, ProtocolError>
  {
    EvaluateAfterGateSnapshot(snapshot, d.context(c, revision), d.judge(c), d.oracleManifest, d.qualification,
                              d.gateKey, d.oracleKey, d.hashes)
  }

  function ObservationOf(d: Definition, revision: int, c: Candidate): Observation {
    if d.loads(c) then Observation(c.id, true, Some(d.gate(c, revision).decision), Some(d.judge(c).verdict))
    else Observation(c.id, false, None, None)
  }

  function Observed(d: Definition, revision: int): (observations: seq<Observation>)
    ensures |observations| == |d.candidates|
    ensures forall i :: 0 <= i < |observations| ==> observations[i] == ObservationOf(d, revision, d.candidates[i])
  {
    seq(|d.candidates|, i requires 0 <= i < |d.candidates| => ObservationOf(d, revision, d.candidates[i]))
  }

  /** The gate decides GO or NO_GO on the candidates that load, and the qualification is the
      oracle's own. */
  predicate Measurable(d: Definition, revision: int, c: Candidate) {
    d.loads(c) ==> d.gate(c, revision).decision != CONDITIONAL_GO && d.qualification.manifestSha256 == d.oracleManifest
  }

  predicate Runs(d: Definition, revision: int) {
    && d.qualification.passed && d.sameChallenge
    && forall i :: 0 <= i < |d.candidates| ==> Measurable(d, revision, d.candidates[i])
  }

  /** The evidence names what the gate answered, on what build, under which revision, and what the
      oracle counted, and it verifies, oracle after gate. */
  ghost predicate Evidences(m: Measurement, d: Definition, revision: int, c: Candidate) {
    var snapshot, result := m.gateSnapshot.snapshot, m.oracleResult.result;
    && snapshot.gateDecision == m.decision
    && snapshot.gateResponseSha256 == d.gate(c, revision).responseSha256
    && snapshot.buildReceiptSha256 == d.buildReceipt(c) && snapshot.gatekeeperRevision == d.gateRevision(revision)
    && result.verdict == m.verdict && result.totalVectors == d.judge(c).totalVectors
    && result.failedVectors == |d.judge(c).failedVectors|
    && result.qualificationManifestSha256 == d.oracleManifest
    && result.oracleSelftestSha256 == d.qualification.selftestSha256
    && VerifySignedGateSnapshot(m.gateSnapshot, d.context(c, revision), d.gateKey, d.hashes) == None
    && VerifySignedOracleResult(m.oracleResult, d.context(c, revision), m.gateSnapshot, d.oracleKey, d.hashes) == None
  }

  /** What is recorded of a candidate that loads: what the gate and the oracle said, how they
      compare, and signed evidence that verifies, oracle after gate. */
  ghost predicate Records(m: Measurement, d: Definition, revision: int, c: Candidate) {
    && m.candidateId == c.id && m.candidateSha256 == c.sourceSha256
    && m.decision == d.gate(c, revision).decision
    && m.verdict == d.judge(c).verdict
    && Names(m.classification, m.decision, m.verdict)
    && Evidences(m, d, revision, c)
  }

  /** The candidates that load, in order. */
  function Loaded(d: Definition, candidates: seq<Candidate>): (loaded: seq<Candidate>)
    ensures forall c :: c in loaded <==> c in candidates && d.loads(c)
  {
    if candidates == [] then []
    else
      var n := |candidates| - 1;
      assert candidates == candidates[..n] + [candidates[n]];
      Loaded(d, candidates[..n]) + if d.loads(candidates[n]) then [candidates[n]] else []
  }

  ghost predicate RecordsAll(measurements: seq<Measurement>, d: Definition, revision: int, candidates: seq<Candidate>) {
    var loaded := Loaded(d, candidates);
    && |measurements| == |loaded|
    && forall k :: 0 <= k < |loaded| ==> Records(measurements[k], d, revision, loaded[k])
  }

  method MeasureCandidate(d: Definition, revision: int, c: Candidate) returns (r: Result<Measurement, ProtocolError>)
    requires d.loads(c) && d.qualification.passed
    ensures r.Ok? <==> Measurable(d, revision, c)
    ensures r.Ok? ==> Records(r.value, d, revision, c)
  {
    var outcome := d.gate(c, revision);
    var snapshot := Snapshot(d, revision, c);
    if snapshot.Err? {
      return Err(snapshot.error);
    }
    var result := Evaluated(d, revision, c, snapshot.value);
    if result.Err? {
      return Err(result.error);
    }
    var classification := Classify(ObservationOf(d, revision, c));
    return Ok(Measurement(c.id, c.sourceSha256, outcome.decision, result.value.result.verdict,
                          classification.value, snapshot.value, result.value));
  }

  // ---------------------------------------------------------------- the loop

  lemma ObservationRecorded(m: Measurement, d: Definition, revision: int, c: Candidate)
    requires d.loads(c) && Records(m, d, revision, c)
    ensures ObservationOf(d, revision, c) == Observation(c.id, true, Some(m.decision), Some(m.verdict))
  {
  }

  lemma RecordsNone(d: Definition, revision: int)
    ensures RecordsAll([], d, revision, d.candidates[..0])
  {
  }

  lemma LoadedStep(d: Definition, i: nat)
    requires i < |d.candidates|
    ensures Loaded(d, d.candidates[..i + 1]) ==
            Loaded(d, d.candidates[..i]) + if d.loads(d.candidates[i]) then [d.candidates[i]] else []
  {
    assert d.candidates[..i + 1][..i] == d.candidates[..i];
  }

  lemma RecordsOneMore(measurements: seq<Measurement>, more: seq<Measurement>, d: Definition, revision: int, i: nat)
    requires i < |d.candidates| && RecordsAll(measurements, d, revision, d.candidates[..i])
    requires if d.loads(d.candidates[i]) then |more| == 1 && Records(more[0], d, revision, d.candidates[i])
             else more == []
    ensures RecordsAll(measurements + more, d, revision, d.candidates[..i + 1])
    ensures more == [] ==> Measurable(d, revision, d.candidates[i])
  {
    hide Records, Loaded;
    LoadedStep(d, i);
  }

  lemma RunsClassify(d: Definition, revision: int)
    requires Runs(d, revision)
    ensures Classifiable(Observed(d, revision))
  {
    forall i | 0 <= i < |d.candidates| ensures Classify(Observed(d, revision)[i]).Ok? {
      assert Measurable(d, revision, d.candidates[i]);
    }
  }

  /** The candidates that load, for which the gate decides `decision` and the oracle `verdict`. */
  ghost function Outcomes(d: Definition, revision: int, decision: Decision, verdict: OracleVerdict): set<nat> {
    set i: nat | i < |d.candidates| && d.loads(d.candidates[i]) &&
      d.gate(d.candidates[i], revision).decision == decision && d.judge(d.candidates[i]).verdict == verdict
  }

  ghost function Unloadable(d: Definition): set<nat> {
    set i: nat | i < |d.candidates| && !d.loads(d.candidates[i])
  }

  /** The counters of a run, in terms of what gate and oracle say of the candidates. */
  lemma TallyMeaning(counts: Counts, d: Definition, revision: int)
    requires Tallies(counts, Observed(d, revision))
    ensures counts.escapes == |Outcomes(d, revision, GO, UNSAFE)|
    ensures counts.overblocks == |Outcomes(d, revision, NO_GO, SAFE)|
    ensures counts.correctAccepts == |Outcomes(d, revision, GO, SAFE)|
    ensures counts.correctBlocks == |Outcomes(d, revision, NO_GO, UNSAFE)|
    ensures counts.invalid == |Unloadable(d)|
  {
    DecidedAreOutcomes(d, revision, GO, UNSAFE);
    DecidedAreOutcomes(d, revision, NO_GO, SAFE);
    DecidedAreOutcomes(d, revision, GO, SAFE);
    DecidedAreOutcomes(d, revision, NO_GO, UNSAFE);
    InvalidAreUnloadable(d, revision);
    hide Decided, Outcomes, Invalid, Unloadable, Confirmed;
  }

  lemma DecidedAreOutcomes(d: Definition, revision: int, decision: Decision, verdict: OracleVerdict)
    ensures Decided(Observed(d, revision), decision, verdict) == Outcomes(d, revision, decision, verdict)
  {
  }

  lemma InvalidAreUnloadable(d: Definition, revision: int)
    ensures Invalid(Observed(d, revision)) == Unloadable(d)
  {
  }

  /** A run counts every candidate and records every one that loads. */
  ghost predicate RunOf(run: Run, d: Definition, revision: int) {
    && run.revision == revision && run.scope == d.scope(revision) && run.policySha256 == d.policySha256(revision)
    && run.counts.escapes <= run.counts.confirmedUnsafe && run.counts.overblocks <= run.counts.confirmedSafe
    && Tallies(run.counts, Observed(d, revision))
    && RecordsAll(run.measurements, d, revision, d.candidates)
  }

  /** Whatever gets through the protocol can be classified, so counting never raises. */
  method RunReferenceArena(d: Definition, revision: int) returns (r: Result<Run, ArenaError>)
    ensures r.Ok? <==> Runs(d, revision)
    ensures r == Err(OracleNotQualified) <==> !d.qualification.passed
    ensures r == Err(IdentityMismatch) <==> d.qualification.passed && !d.sameChallenge
    ensures r.Ok? ==> RunOf(r.value, d, revision) && r.value.counts.Total() == |d.candidates|
    ensures r.Ok? ==>
      && r.value.counts.escapes == |Outcomes(d, revision, GO, UNSAFE)|
      && r.value.counts.overblocks == |Outcomes(d, revision, NO_GO, SAFE)|
      && r.value.counts.correctAccepts == |Outcomes(d, revision, GO, SAFE)|
      && r.value.counts.correctBlocks == |Outcomes(d, revision, NO_GO, UNSAFE)|
      && r.value.counts.invalid == |Unloadable(d)|
  {
    hide Records, RecordsAll, Tallies, Measurable, Classifiable, Outcomes, Unloadable, Unclassified;
    RecordsNone(d, revision);
    if !d.qualification.passed {
      return Err(OracleNotQualified);
    }
    if !d.sameChallenge {
      return Err(IdentityMismatch);
    }
    var observations: seq<Observation> := [];
    var measurements: seq<Measurement> := [];
    for i := 0 to |d.candidates|
      invariant observations == Observed(d, revision)[..i]
      invariant RecordsAll(measurements, d, revision, d.candidates[..i])
      invariant forall k :: 0 <= k < i ==> Measurable(d, revision, d.candidates[k])
    {
      var c := d.candidates[i];
      if !d.loads(c) {
        RecordsOneMore(measurements, [], d, revision, i);
        assert measurements + [] == measurements;
        observations := observations + [Observation(c.id, false, None, None)];
      } else {
        var measured := MeasureCandidate(d, revision, c);
        if measured.Err? {
          return Err(Refused(measured.error));
        }
        observations := observations +
          [Observation(c.id, true, Some(measured.value.decision), Some(measured.value.verdict))];
        ObservationRecorded(measured.value, d, revision, c);
        RecordsOneMore(measurements, [measured.value], d, revision, i);
        measurements := measurements + [measured.value];
      }
    }
    assert d.candidates[..|d.candidates|] == d.candidates;
    RunsClassify(d, revision);
    assert observations == Observed(d, revision);
    var counts := AggregateObservations(observations);
    TallyMeaning(counts.value, d, revision);
    TotalIsConserved(counts.value, observations);
    RatesAreDefined(counts.value, observations);
    return Ok(Run(revision, d.policySha256(revision), d.scope(revision), counts.value, measurements));
  }
}
