/** Gate first, oracle second (src/release_sentinel/coverage/protocol.py, signing.py).

    `sha256_json` is a parameter; canonical JSON is taken to be injective, so a payload stands
    for its bytes. A signature under an authority's secret can only be made by that authority. */
module CoverageProtocol {
  import opened Wrappers
  import opened Evidence

  datatype OracleVerdict = SAFE | UNSAFE

  datatype Context = Context(
    challengeSha256: string, fixtureSha256: string, candidateSha256: string, policySha256: string,
    benchmarkManifestSha256: string, oracleDigest: string, gatekeeperDigest: string, runnerDigest: string,
    runNonce: string)

  datatype GateSnapshot = GateSnapshot(
    schema: string, measurementId: string, contextSha256: string, candidateSha256: string, fixtureSha256: string,
    policySha256: string, benchmarkManifestSha256: string, gatekeeperDigest: string, gatekeeperRevision: string,
    buildReceiptSha256: string, gateDecision: Decision, gateResponseSha256: string, sequence: int,
    oracleResultPresent: bool, runNonce: string)

  datatype OracleResult = OracleResult(
    schema: string, measurementId: string, contextSha256: string, candidateSha256: string,
    gateSnapshotSha256: string, verdict: OracleVerdict, totalVectors: nat, failedVectors: nat, oracleDigest: string,
    qualificationManifestSha256: string, oracleSelftestSha256: string, sequence: int)

  datatype Payload = Gate(snapshot: GateSnapshot) | Oracle(result: OracleResult)

  datatype Hashes = Hashes(context: Context -> string, payload: Payload -> string)

  datatype Signature = Tag(secret: string, payload: Payload) | Junk(text: string)

  datatype Envelope = Envelope(payloadSha256: string, signature: Signature, keyId: string, algorithm: string)

  datatype Authority = Authority(secret: string, keyId: string, algorithm: string)

  datatype SignedSnapshot = SignedSnapshot(snapshot: GateSnapshot, signature: Envelope)

  datatype SignedResult = SignedResult(result: OracleResult, signature: Envelope)

  datatype Evaluation = Evaluation(verdict: OracleVerdict, totalVectors: nat, failedVectors: seq<string>)

  datatype Qualification = Qualification(passed: bool, manifestSha256: string, selftestSha256: string)

  datatype ProtocolError =
    | DecisionNotBinary
    | SnapshotSequence | OraclePresent | SnapshotContext | SnapshotSignature
    | NotQualified | ManifestMismatch
    | ResultSequence | ResultContext | ResultCandidate | ResultOracle | ResultSnapshot | ResultSignature

  // ----- Operations -----

  function SignJson(p: Payload, a: Authority, h: Hashes): Envelope {
    Envelope(h.payload(p), Tag(a.secret, p), a.keyId, a.algorithm)
  }

  predicate VerifyJson(p: Payload, e: Envelope, a: Authority, h: Hashes) {
    && e.payloadSha256 == h.payload(p) && e.keyId == a.keyId && e.algorithm == a.algorithm
    && e.signature == Tag(a.secret, p)
  }

  function MeasurementId(ctx: Context, h: Hashes): string {
    "cov-" + h.context(ctx)
  }

  function BuildGateSnapshot(
    ctx: Context, decision: Decision, gateResponse: string, buildReceipt: string, revision: string,
    signer: Authority, h: Hashes): Result<SignedSnapshot, ProtocolError>
  {
    if decision.CONDITIONAL_GO? then Err(DecisionNotBinary)
    else
      var snapshot := GateSnapshot(
        "release-sentinel.gate-snapshot.v1", MeasurementId(ctx, h), h.context(ctx), ctx.candidateSha256,
        ctx.fixtureSha256, ctx.policySha256, ctx.benchmarkManifestSha256, ctx.gatekeeperDigest, revision,
        buildReceipt, decision, gateResponse, 1, false, ctx.runNonce);
      Ok(SignedSnapshot(snapshot, SignJson(Gate(snapshot), signer, h)))
  }

  /** `_assert_gate_context` */
  predicate SnapshotInContext(s: GateSnapshot, ctx: Context, h: Hashes) {
    && s.measurementId == MeasurementId(ctx, h) && s.contextSha256 == h.context(ctx)
    && s.candidateSha256 == ctx.candidateSha256 && s.fixtureSha256 == ctx.fixtureSha256
    && s.policySha256 == ctx.policySha256 && s.benchmarkManifestSha256 == ctx.benchmarkManifestSha256
    && s.gatekeeperDigest == ctx.gatekeeperDigest && s.runNonce == ctx.runNonce
  }

  function VerifySignedGateSnapshot(signed: SignedSnapshot, ctx: Context, a: Authority, h: Hashes):
    Option<ProtocolError>
  {
    var s := signed.snapshot;
    if s.sequence != 1 then Some(SnapshotSequence)
    else if s.oracleResultPresent then Some(OraclePresent)
    else if !SnapshotInContext(s, ctx, h) then Some(SnapshotContext)
    else if !VerifyJson(Gate(s), signed.signature, a, h) then Some(SnapshotSignature)
    else None
  }

  function EvaluateAfterGateSnapshot(
    signed: SignedSnapshot, ctx: Context, evaluation: Evaluation, oracleManifest: string, q: Qualification,
    gate: Authority, oracle: Authority, h: Hashes): Result<SignedResult, ProtocolError>
  {
    match VerifySignedGateSnapshot(signed, ctx, gate, h)
    case Some(e) => Err(e)
    case None =>
      if !q.passed then Err(NotQualified)
      else if q.manifestSha256 != oracleManifest then Err(ManifestMismatch)
      else
        var result := OracleResult(
          "release-sentinel.oracle-result.v1", MeasurementId(ctx, h), h.context(ctx), ctx.candidateSha256,
          h.payload(Gate(signed.snapshot)), evaluation.verdict, evaluation.totalVectors,
          |evaluation.failedVectors|, ctx.oracleDigest, q.manifestSha256, q.selftestSha256, 2);
        Ok(SignedResult(result, SignJson(Oracle(result), oracle, h)))
  }

  function VerifySignedOracleResult(
    signed: SignedResult, ctx: Context, snapshot: SignedSnapshot, a: Authority, h: Hashes): Option<ProtocolError>
  {
    var r := signed.result;
    if r.sequence != 2 then Some(ResultSequence)
    else if r.measurementId != MeasurementId(ctx, h) || r.contextSha256 != h.context(ctx) then Some(ResultContext)
    else if r.candidateSha256 != ctx.candidateSha256 then Some(ResultCandidate)
    else if r.oracleDigest != ctx.oracleDigest then Some(ResultOracle)
    else if r.gateSnapshotSha256 != h.payload(Gate(snapshot.snapshot)) then Some(ResultSnapshot)
    else if !VerifyJson(Oracle(r), signed.signature, a, h) then Some(ResultSignature)
    else None
  }

  /** Every field of what the gate signs, and by whom. */
  lemma SnapshotStates(
    ctx: Context, decision: Decision, response: string, receipt: string, revision: string, gate: Authority, h: Hashes)
    ensures var built := BuildGateSnapshot(ctx, decision, response, receipt, revision, gate, h);
      built.Ok? ==>
        var s, e := built.value.snapshot, built.value.signature;
        && s.schema == "release-sentinel.gate-snapshot.v1" && s.measurementId == "cov-" + s.contextSha256
        && s.contextSha256 == h.context(ctx) && s.candidateSha256 == ctx.candidateSha256
        && s.fixtureSha256 == ctx.fixtureSha256 && s.policySha256 == ctx.policySha256
        && s.benchmarkManifestSha256 == ctx.benchmarkManifestSha256 && s.gatekeeperDigest == ctx.gatekeeperDigest
        && s.gatekeeperRevision == revision && s.buildReceiptSha256 == receipt
        && s.gateDecision == decision && s.gateResponseSha256 == response && s.runNonce == ctx.runNonce
        && s.sequence == 1 && !s.oracleResultPresent
        && e.payloadSha256 == h.payload(Gate(s)) && e.signature == Tag(gate.secret, Gate(s))
        && e.keyId == gate.keyId && e.algorithm == gate.algorithm
  {
  }

  /** Every field of what the oracle signs, and by whom. */
  lemma ResultStates(
    signed: SignedSnapshot, ctx: Context, evaluation: Evaluation, manifest: string, q: Qualification,
    gate: Authority, oracle: Authority, h: Hashes)
    ensures var evaluated := EvaluateAfterGateSnapshot(signed, ctx, evaluation, manifest, q, gate, oracle, h);
      evaluated.Ok? ==>
        var r, e := evaluated.value.result, evaluated.value.signature;
        && r.schema == "release-sentinel.oracle-result.v1" && r.measurementId == "cov-" + r.contextSha256
        && r.contextSha256 == h.context(ctx) && r.candidateSha256 == ctx.candidateSha256
        && r.gateSnapshotSha256 == h.payload(Gate(signed.snapshot)) && r.verdict == evaluation.verdict
        && r.totalVectors == evaluation.totalVectors && r.failedVectors == |evaluation.failedVectors|
        && r.oracleDigest == ctx.oracleDigest && r.sequence == 2
        && r.qualificationManifestSha256 == manifest && r.oracleSelftestSha256 == q.selftestSha256
        && e.payloadSha256 == h.payload(Oracle(r)) && e.signature == Tag(oracle.secret, Oracle(r))
        && e.keyId == oracle.keyId && e.algorithm == oracle.algorithm
  {
  }

  /** The oracle looks at nothing but a snapshot that carries the gate's signature, comes first,
      knows no oracle result and belongs to the context at hand. */
  lemma SnapshotAcceptedExactlyWhen(signed: SignedSnapshot, ctx: Context, gate: Authority, h: Hashes)
    ensures VerifySignedGateSnapshot(signed, ctx, gate, h) == None <==>
      var s, e := signed.snapshot, signed.signature;
      && s.sequence == 1 && !s.oracleResultPresent
      && s.measurementId == "cov-" + h.context(ctx) && s.contextSha256 == h.context(ctx)
      && s.candidateSha256 == ctx.candidateSha256 && s.fixtureSha256 == ctx.fixtureSha256
      && s.policySha256 == ctx.policySha256 && s.benchmarkManifestSha256 == ctx.benchmarkManifestSha256
      && s.gatekeeperDigest == ctx.gatekeeperDigest && s.runNonce == ctx.runNonce
      && e.payloadSha256 == h.payload(Gate(s)) && e.signature == Tag(gate.secret, Gate(s))
      && e.keyId == gate.keyId && e.algorithm == gate.algorithm
  {
  }

  /** A result is accepted exactly if it carries the oracle's signature, comes second, and names
      the context and the snapshot at hand. */
  lemma ResultAcceptedExactlyWhen(
    signed: SignedResult, ctx: Context, snapshot: SignedSnapshot, oracle: Authority, h: Hashes)
    ensures VerifySignedOracleResult(signed, ctx, snapshot, oracle, h) == None <==>
      var r, e := signed.result, signed.signature;
      && r.sequence == 2
      && r.measurementId == "cov-" + h.context(ctx) && r.contextSha256 == h.context(ctx)
      && r.candidateSha256 == ctx.candidateSha256 && r.oracleDigest == ctx.oracleDigest
      && r.gateSnapshotSha256 == h.payload(Gate(snapshot.snapshot))
      && e.payloadSha256 == h.payload(Oracle(r)) && e.signature == Tag(oracle.secret, Oracle(r))
      && e.keyId == oracle.keyId && e.algorithm == oracle.algorithm
  {
  }

  /** Followed in order by honest parties, the protocol goes through. It refuses exactly a
      conditional decision and an oracle that is not qualified under its own manifest. */
  lemma HonestProtocol(
    ctx: Context, decision: Decision, response: string, receipt: string, revision: string,
    evaluation: Evaluation, oracleManifest: string, q: Qualification, gate: Authority, oracle: Authority, h: Hashes)
    ensures var built := BuildGateSnapshot(ctx, decision, response, receipt, revision, gate, h);
            && (built.Ok? <==> decision != CONDITIONAL_GO)
            && (built.Ok? ==>
                  var evaluated :=
                    EvaluateAfterGateSnapshot(built.value, ctx, evaluation, oracleManifest, q, gate, oracle, h);
                  && (evaluated.Ok? <==> q.passed && q.manifestSha256 == oracleManifest)
                  && (evaluated.Ok? ==>
                        && VerifySignedOracleResult(evaluated.value, ctx, built.value, oracle, h) == None
                        && evaluated.value.result.verdict == evaluation.verdict))
  {
  }

  // ----- Runs -----

  datatype Setup = Setup(gate: Authority, oracle: Authority, hashes: Hashes)

  /** Everything an authority ever signed, in order, with the context it was given. */
  datatype Event =
    | GateSigned(ctx: Context, snapshot: GateSnapshot)
    | OracleSigned(ctx: Context, snapshot: GateSnapshot, result: OracleResult)

  function EventTag(e: Event, setup: Setup): Signature {
    match e
    case GateSigned(_, snapshot) => Tag(setup.gate.secret, Gate(snapshot))
    case OracleSigned(_, _, result) => Tag(setup.oracle.secret, Oracle(result))
  }

  /** Unforgeability: signatures under the two secrets stem from the events so far. */
  ghost predicate Available(s: Signature, events: seq<Event>, setup: Setup) {
    s.Tag? && (s.secret == setup.gate.secret || s.secret == setup.oracle.secret) ==>
      exists i :: 0 <= i < |events| && s == EventTag(events[i], setup)
  }

  ghost predicate GateEvent(e: Event, setup: Setup)
    requires e.GateSigned?
  {
    exists decision: Decision, response: string, receipt: string, revision: string ::
      var built := BuildGateSnapshot(e.ctx, decision, response, receipt, revision, setup.gate, setup.hashes);
      built.Ok? && built.value.snapshot == e.snapshot
  }

  /** The oracle evaluates whatever signed snapshot it is handed. */
  ghost predicate OracleEvent(e: Event, before: seq<Event>, setup: Setup)
    requires e.OracleSigned?
  {
    exists envelope: Envelope, evaluation: Evaluation, manifest: string, q: Qualification ::
      && Available(envelope.signature, before, setup)
      && var evaluated := EvaluateAfterGateSnapshot(
           SignedSnapshot(e.snapshot, envelope), e.ctx, evaluation, manifest, q,
           setup.gate, setup.oracle, setup.hashes);
         evaluated.Ok? && evaluated.value.result == e.result
  }

  ghost predicate IsRun(events: seq<Event>, setup: Setup) {
    forall i :: 0 <= i < |events| ==>
      if events[i].GateSigned? then GateEvent(events[i], setup)
      else OracleEvent(events[i], events[..i], setup)
  }

  /** What the gate commits to in context `ctx`. */
  ghost predicate GateCommitment(s: GateSnapshot, ctx: Context, h: Hashes) {
    && SnapshotInContext(s, ctx, h) && s.sequence == 1 && !s.oracleResultPresent
    && (s.gateDecision.GO? || s.gateDecision.NO_GO?)
  }

  lemma GateEventCommits(e: Event, setup: Setup)
    requires e.GateSigned? && GateEvent(e, setup)
    ensures GateCommitment(e.snapshot, e.ctx, setup.hashes)
  {
  }

  /** Whenever the oracle signed, the gate had already signed the snapshot the oracle was given,
      a commitment in the oracle's own context. */
  lemma OracleFollowsGate(events: seq<Event>, setup: Setup, o: nat) returns (g: nat)
    requires IsRun(events, setup) && o < |events| && events[o].OracleSigned?
    ensures g < o && events[g].GateSigned? && events[g].snapshot == events[o].snapshot
    ensures GateCommitment(events[o].snapshot, events[o].ctx, setup.hashes)
  {
    var e := events[o];
    assert OracleEvent(e, events[..o], setup);
    var envelope: Envelope, evaluation: Evaluation, manifest: string, q: Qualification :|
      && Available(envelope.signature, events[..o], setup)
      && var evaluated := EvaluateAfterGateSnapshot(
           SignedSnapshot(e.snapshot, envelope), e.ctx, evaluation, manifest, q,
           setup.gate, setup.oracle, setup.hashes);
         evaluated.Ok? && evaluated.value.result == e.result;
    assert envelope.signature == Tag(setup.gate.secret, Gate(e.snapshot));
    g :| 0 <= g < o && envelope.signature == EventTag(events[..o][g], setup);
    assert events[..o][g] == events[g];
    GateEventCommits(events[g], setup);
  }

  ghost predicate ContextCollision(a: Context, b: Context, h: Hashes) {
    a != b && h.context(a) == h.context(b)
  }

  ghost predicate SnapshotCollision(a: GateSnapshot, b: GateSnapshot, h: Hashes) {
    a != b && h.payload(Gate(a)) == h.payload(Gate(b))
  }

  /** In every run, a result that verifies under the oracle's key, against any snapshot at all,
      was signed by the oracle after the gate had signed exactly that snapshot: sequence 1, no
      oracle result, decision GO or NO_GO, in exactly the verifier's context. Otherwise the two
      snapshots or the two contexts exhibit a hash collision. The verifier itself never looks at
      the snapshot's signature. */
  lemma GateBeforeOracle(
    events: seq<Event>, setup: Setup, signed: SignedResult, ctx: Context, presented: SignedSnapshot)
    requires IsRun(events, setup)
    requires Available(signed.signature.signature, events, setup)
    requires VerifySignedOracleResult(signed, ctx, presented, setup.oracle, setup.hashes) == None
    ensures exists g, o :: 0 <= g < o < |events| && events[g].GateSigned? && events[o].OracleSigned? &&
              events[o].result == signed.result && events[g].snapshot == events[o].snapshot &&
              ( || (events[g].snapshot == presented.snapshot && events[o].ctx == ctx
                    && GateCommitment(presented.snapshot, ctx, setup.hashes))
                || SnapshotCollision(events[g].snapshot, presented.snapshot, setup.hashes)
                || ContextCollision(events[o].ctx, ctx, setup.hashes))
  {
    var o :| 0 <= o < |events| && signed.signature.signature == EventTag(events[o], setup);
    assert events[o].OracleSigned? && events[o].result == signed.result;
    var g := OracleFollowsGate(events, setup, o);
    assert OracleEvent(events[o], events[..o], setup);
  }

  /** One oracle result verifies against at most one snapshot, in one context, up to collisions. */
  lemma ResultBindsOneSnapshot(
    signed: SignedResult, ctx: Context, ctx': Context, a: SignedSnapshot, b: SignedSnapshot,
    verifier: Authority, h: Hashes)
    requires VerifySignedOracleResult(signed, ctx, a, verifier, h) == None
    requires VerifySignedOracleResult(signed, ctx', b, verifier, h) == None
    ensures a.snapshot == b.snapshot || SnapshotCollision(a.snapshot, b.snapshot, h)
    ensures ctx == ctx' || ContextCollision(ctx, ctx', h)
  {
  }
}
