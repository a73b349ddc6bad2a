/** Propose, rebuild, reverify (src/release_sentinel/webmcp/remediation_service.py).

    The content-derived ids are truncated digests; the hash functions are parameters. Fixtures
    may change between calls: every call comes with the fixture digests of its moment. */
module RemediationAdapter {
  import opened Wrappers
  import opened Evidence

  datatype Scenario = Scenario(
    releaseId: string, vulnerableFixture: string, fixedFixture: string, fixedProofId: string)

  datatype ProposalPayload = ProposalPayload(
    demoReleaseId: string, baseSha256: string, targetSha256: string, fixedFixture: string, fixedProofId: string)

  datatype CandidatePayload = CandidatePayload(
    proposalId: string, demoReleaseId: string, oldSha256: string, newSha256: string, fixture: string, proofId: string)

  datatype ProposalRecord = ProposalRecord(proposalId: string, payload: ProposalPayload, proposalDigest: string)

  datatype CandidateRecord = CandidateRecord(candidateId: string, payload: CandidatePayload)

  /** A decision, and the Gatekeeper payload that reports it. */
  datatype Verdict = Verdict(decision: Decision, gatekeeper: string)

  /** What evaluating a fixture afresh yields. */
  datatype Evaluation = Evaluation(verdict: Verdict, evidenceSha256: string)

  datatype VerdictReply = VerdictReply(
    candidateId: string, demoReleaseId: string, proofId: string, sourceSha256: string, freshEvidenceSha256: string,
    finalVerdict: Verdict, byGoGatekeeper: bool)

  datatype ServiceError =
    | UNKNOWN_DEMO_RELEASE | UNKNOWN_FIXTURE
    | UNKNOWN_PROPOSAL | PROPOSAL_DIGEST_MISMATCH | TARGET_FIXTURE_MISMATCH
    | UNKNOWN_CANDIDATE | SOURCE_CONTEXT_MISMATCH | GATEKEEPER_DEPENDENCY_UNAVAILABLE

  /** `sha256_json` of the two payloads. */
  datatype Hashes = Hashes(proposal: ProposalPayload -> string, candidate: CandidatePayload -> string)

  /** The scenarios, the current fixture digests, and the evaluation of a fixture with its digest
      under a release id, as it is now. */
  datatype Environment = Environment(
    scenarios: map<string, Scenario>,
    fixtures: map<string, string>,
    evaluate: (string, string, string) -> Evaluation)

  /** Judged mode: the remote Gatekeeper's verdict, or its failure. */
  datatype Mode = Local | Judged(remote: Option<Verdict>)

  function ReverifyId(candidateId: string): string { "webmcp-" + candidateId + "-reverify" }

  function Short(digest: string): string {
    if |digest| <= 20 then digest else digest[..20]
  }

  function ProposalId(p: ProposalPayload, h: Hashes): string { "proposal-" + Short(h.proposal(p)) }

  function CandidateId(p: CandidatePayload, h: Hashes): string { "candidate-" + Short(h.candidate(p)) }

  // ----- What each call answers, given the stores -----

  datatype Stores = Stores(proposals: map<string, ProposalRecord>, candidates: map<string, CandidateRecord>)

  function Proposal(id: string, env: Environment, h: Hashes): Result<ProposalRecord, ServiceError> {
    if id !in env.scenarios then Err(UNKNOWN_DEMO_RELEASE)
    else
      var s := env.scenarios[id];
      if s.vulnerableFixture !in env.fixtures || s.fixedFixture !in env.fixtures then Err(UNKNOWN_FIXTURE)
      else
        var p := ProposalPayload(
          s.releaseId, env.fixtures[s.vulnerableFixture], env.fixtures[s.fixedFixture], s.fixedFixture, s.fixedProofId);
        Ok(ProposalRecord(ProposalId(p, h), p, h.proposal(p)))
  }

  function Candidate(st: Stores, id: string, digest: string, env: Environment, h: Hashes):
    Result<CandidateRecord, ServiceError>
  {
    if id !in st.proposals then Err(UNKNOWN_PROPOSAL)
    else
      var p := st.proposals[id];
      if p.proposalDigest != digest then Err(PROPOSAL_DIGEST_MISMATCH)
      else if p.payload.fixedFixture !in env.fixtures then Err(UNKNOWN_FIXTURE)
      else if env.fixtures[p.payload.fixedFixture] != p.payload.targetSha256 then Err(TARGET_FIXTURE_MISMATCH)
      else
        var c := CandidatePayload(
          p.proposalId, p.payload.demoReleaseId, p.payload.baseSha256, p.payload.targetSha256,
          p.payload.fixedFixture, p.payload.fixedProofId);
        Ok(CandidateRecord(CandidateId(c, h), c))
  }

  function Reverification(st: Stores, id: string, newSha: string, mode: Mode, env: Environment):
    Result<VerdictReply, ServiceError>
  {
    if id !in st.candidates then Err(UNKNOWN_CANDIDATE)
    else
      var c := st.candidates[id].payload;
      if c.newSha256 != newSha then Err(SOURCE_CONTEXT_MISMATCH)
      else if c.fixture !in env.fixtures then Err(UNKNOWN_FIXTURE)
      else
        var actual := env.fixtures[c.fixture];
        var evaluation := env.evaluate(c.fixture, actual, ReverifyId(id));
        var evidence := evaluation.evidenceSha256;
        if actual != c.newSha256 then Err(SOURCE_CONTEXT_MISMATCH)
        else
          match mode
          case Local => Ok(VerdictReply(id, c.demoReleaseId, c.proofId, actual, evidence, evaluation.verdict, false))
          case Judged(None) => Err(GATEKEEPER_DEPENDENCY_UNAVAILABLE)
          case Judged(Some(remote)) => Ok(VerdictReply(id, c.demoReleaseId, c.proofId, actual, evidence, remote, true))
  }

  function AfterProposal(st: Stores, r: Result<ProposalRecord, ServiceError>): Stores {
    match r
    case Ok(p) => st.(proposals := st.proposals[p.proposalId := p])
    case Err(_) => st
  }

  function AfterCandidate(st: Stores, r: Result<CandidateRecord, ServiceError>): Stores {
    match r
    case Ok(c) => st.(candidates := st.candidates[c.candidateId := c])
    case Err(_) => st
  }

  // ----- What the answers mean -----

  ghost predicate FixtureWas(env: Environment, fixture: string, sha: string) {
    fixture in env.fixtures && env.fixtures[fixture] == sha
  }

  /** The proposal leads from the scenario's vulnerable fixture, as it is now, to its fixed one. */
  ghost predicate ProposesFix(p: ProposalPayload, s: Scenario, env: Environment) {
    && p.demoReleaseId == s.releaseId
    && FixtureWas(env, s.vulnerableFixture, p.baseSha256)
    && FixtureWas(env, s.fixedFixture, p.targetSha256)
    && p.fixedFixture == s.fixedFixture && p.fixedProofId == s.fixedProofId
  }

  /** The id is `prefix` and the first 20 characters of the digest. */
  ghost predicate IdentifiedBy(id: string, prefix: string, digest: string) {
    prefix <= id && id[|prefix|..] <= digest && |id| == |prefix| + if |digest| < 20 then |digest| else 20
  }

  /** `c` is what rebuilding proposal `p` yields. */
  ghost predicate BuiltFrom(c: CandidatePayload, p: ProposalRecord) {
    && c.proposalId == p.proposalId && c.demoReleaseId == p.payload.demoReleaseId
    && c.oldSha256 == p.payload.baseSha256 && c.newSha256 == p.payload.targetSha256
    && c.fixture == p.payload.fixedFixture && c.proofId == p.payload.fixedProofId
  }

  /** The verdict is about exactly the source the caller named and the fixture still has, and
      carries the evidence of its fresh evaluation. */
  ghost predicate VerdictFor(
    c: CandidatePayload, id: string, newSha: string, mode: Mode, env: Environment, v: VerdictReply)
  {
    var evaluation := env.evaluate(c.fixture, v.sourceSha256, "webmcp-" + id + "-reverify");
    && v.candidateId == id && v.demoReleaseId == c.demoReleaseId && v.proofId == c.proofId
    && v.sourceSha256 == newSha == c.newSha256 && FixtureWas(env, c.fixture, v.sourceSha256)
    && v.freshEvidenceSha256 == evaluation.evidenceSha256
    && (mode.Local? ==> v.finalVerdict == evaluation.verdict && !v.byGoGatekeeper)
    && (mode.Judged? ==> mode.remote == Some(v.finalVerdict) && v.byGoGatekeeper)
  }

  lemma ShortIsPrefix(prefix: string, digest: string)
    ensures IdentifiedBy(prefix + Short(digest), prefix, digest)
  {
    assert (prefix + Short(digest))[|prefix|..] == Short(digest);
  }

  // ----- The adapter -----

  class Adapter {
    var proposals: map<string, ProposalRecord>
    var candidates: map<string, CandidateRecord>

    function Contents(): Stores
      reads this
    {
      Stores(proposals, candidates)
    }

    constructor ()
      ensures Contents() == Stores(map[], map[])
    {
      proposals, candidates := map[], map[];
    }

    method ProposeRemediation(demoReleaseId: string, env: Environment, h: Hashes)
      returns (r: Result<ProposalRecord, ServiceError>)
      modifies this`proposals
      ensures r == Proposal(demoReleaseId, env, h)
      ensures Contents() == AfterProposal(old(Contents()), r)
      ensures r == Err(UNKNOWN_DEMO_RELEASE) <==> demoReleaseId !in env.scenarios
      ensures demoReleaseId in env.scenarios ==>
        var s := env.scenarios[demoReleaseId];
        && (r.Ok? <==> s.vulnerableFixture in env.fixtures && s.fixedFixture in env.fixtures)
        && (r.Err? ==> r.error == UNKNOWN_FIXTURE)
        && (r.Ok? ==> ProposesFix(r.value.payload, s, env))
      ensures r.Ok? ==>
        && r.value.proposalDigest == h.proposal(r.value.payload)
        && IdentifiedBy(r.value.proposalId, "proposal-", r.value.proposalDigest)
        && proposals == old(proposals)[r.value.proposalId := r.value]
      ensures r.Err? ==> proposals == old(proposals)
    {
      if demoReleaseId !in env.scenarios {
        return Err(UNKNOWN_DEMO_RELEASE);
      }
      var scenario := env.scenarios[demoReleaseId];
      if scenario.vulnerableFixture !in env.fixtures || scenario.fixedFixture !in env.fixtures {
        return Err(UNKNOWN_FIXTURE);
      }
      var base := env.fixtures[scenario.vulnerableFixture];
      var target := env.fixtures[scenario.fixedFixture];
      var payload := ProposalPayload(scenario.releaseId, base, target, scenario.fixedFixture, scenario.fixedProofId);
      var digest := h.proposal(payload);
      var proposalId := "proposal-" + Short(digest);
      ShortIsPrefix("proposal-", digest);
      var record := ProposalRecord(proposalId, payload, digest);
      proposals := proposals[proposalId := record];
      return Ok(record);
    }

    method RebuildCandidate(proposalId: string, proposalDigest: string, env: Environment, h: Hashes)
      returns (r: Result<CandidateRecord, ServiceError>)
      modifies this`candidates
      ensures r == Candidate(old(Contents()), proposalId, proposalDigest, env, h)
      ensures Contents() == AfterCandidate(old(Contents()), r)
      ensures r == Err(UNKNOWN_PROPOSAL) <==> proposalId !in proposals
      ensures proposalId in proposals ==>
        var p := proposals[proposalId];
        && (r.Ok? <==>
              proposalDigest == p.proposalDigest && FixtureWas(env, p.payload.fixedFixture, p.payload.targetSha256))
        && (r == Err(PROPOSAL_DIGEST_MISMATCH) <==> proposalDigest != p.proposalDigest)
        && (r == Err(UNKNOWN_FIXTURE) <==>
              proposalDigest == p.proposalDigest && p.payload.fixedFixture !in env.fixtures)
        && (r.Ok? ==> BuiltFrom(r.value.payload, p))
      ensures r.Ok? ==>
        && IdentifiedBy(r.value.candidateId, "candidate-", h.candidate(r.value.payload))
        && candidates == old(candidates)[r.value.candidateId := r.value]
      ensures r.Err? ==> candidates == old(candidates)
    {
      if proposalId !in proposals {
        return Err(UNKNOWN_PROPOSAL);
      }
      var proposal := proposals[proposalId];
      if proposal.proposalDigest != proposalDigest {
        return Err(PROPOSAL_DIGEST_MISMATCH);
      }
      if proposal.payload.fixedFixture !in env.fixtures {
        return Err(UNKNOWN_FIXTURE);
      }
      var actualTarget := env.fixtures[proposal.payload.fixedFixture];
      if actualTarget != proposal.payload.targetSha256 {
        return Err(TARGET_FIXTURE_MISMATCH);
      }
      var payload := CandidatePayload(
        proposal.proposalId, proposal.payload.demoReleaseId, proposal.payload.baseSha256,
        proposal.payload.targetSha256, proposal.payload.fixedFixture, proposal.payload.fixedProofId);
      var candidateId := "candidate-" + Short(h.candidate(payload));
      ShortIsPrefix("candidate-", h.candidate(payload));
      var record := CandidateRecord(candidateId, payload);
      candidates := candidates[candidateId := record];
      return Ok(record);
    }

    method ReverifyCandidate(candidateId: string, newSha: string, mode: Mode, env: Environment)
      returns (r: Result<VerdictReply, ServiceError>)
      ensures r == Reverification(Contents(), candidateId, newSha, mode, env)
      ensures r == Err(UNKNOWN_CANDIDATE) <==> candidateId !in candidates
      ensures candidateId in candidates ==>
        var c := candidates[candidateId].payload;
        && (r.Ok? <==> newSha == c.newSha256 && FixtureWas(env, c.fixture, newSha) && mode != Judged(None))
        && (r == Err(SOURCE_CONTEXT_MISMATCH) <==>
              newSha != c.newSha256 || (c.fixture in env.fixtures && env.fixtures[c.fixture] != newSha))
        && (r == Err(UNKNOWN_FIXTURE) <==> newSha == c.newSha256 && c.fixture !in env.fixtures)
        && (r.Ok? ==> VerdictFor(c, candidateId, newSha, mode, env, r.value))
    {
      if candidateId !in candidates {
        return Err(UNKNOWN_CANDIDATE);
      }
      var candidate := candidates[candidateId].payload;
      if candidate.newSha256 != newSha {
        return Err(SOURCE_CONTEXT_MISMATCH);
      }
      if candidate.fixture !in env.fixtures {
        return Err(UNKNOWN_FIXTURE);
      }
      var actual := env.fixtures[candidate.fixture];
      var report := env.evaluate(candidate.fixture, actual, ReverifyId(candidateId));
      if actual != candidate.newSha256 {
        return Err(SOURCE_CONTEXT_MISMATCH);
      }
      var verdict, byGo := report.verdict, false;
      if mode.Judged? {
        if mode.remote.None? {
          return Err(GATEKEEPER_DEPENDENCY_UNAVAILABLE);
        }
        verdict, byGo := mode.remote.value, true;
      }
      return Ok(VerdictReply(candidateId, candidate.demoReleaseId, candidate.proofId, actual, report.evidenceSha256,
                             verdict, byGo));
    }
  }

  /** Followed in order, with what each call returned and unchanged fixtures, the three calls go
      through, and the verdict is the fresh one on the fixed fixture of the scenario. */
  lemma HonestSequence(st: Stores, id: string, env: Environment, h: Hashes)
    requires Proposal(id, env, h).Ok?
    ensures var p := Proposal(id, env, h).value;
            var proposed := AfterProposal(st, Ok(p));
            var rebuilt := Candidate(proposed, p.proposalId, p.proposalDigest, env, h);
            && rebuilt.Ok?
            && var c := rebuilt.value;
               var built := AfterCandidate(proposed, rebuilt);
               var verdict := Reverification(built, c.candidateId, c.payload.newSha256, Local, env);
               && verdict.Ok? && id in env.scenarios
               && var fixture := env.scenarios[id].fixedFixture;
                  && FixtureWas(env, fixture, verdict.value.sourceSha256)
                  && verdict.value.finalVerdict ==
                     env.evaluate(fixture, verdict.value.sourceSha256, "webmcp-" + c.candidateId + "-reverify").verdict
  {
  }

  // ----- Runs -----

  /** A call with the environment it met and what it answered. */
  datatype Event =
    | Propose(env: Environment, id: string, proposal: Result<ProposalRecord, ServiceError>)
    | Rebuild(env: Environment, proposalId: string, digest: string, candidate: Result<CandidateRecord, ServiceError>)
    | Reverify(env: Environment, candidateId: string, newSha: string, mode: Mode,
               verdict: Result<VerdictReply, ServiceError>)

  ghost predicate Answers(e: Event, st: Stores, h: Hashes) {
    match e
    case Propose(env, id, r) => r == Proposal(id, env, h)
    case Rebuild(env, id, digest, r) => r == Candidate(st, id, digest, env, h)
    case Reverify(env, id, newSha, mode, r) => r == Reverification(st, id, newSha, mode, env)
  }

  function After(st: Stores, e: Event): Stores {
    match e
    case Propose(_, _, r) => AfterProposal(st, r)
    case Rebuild(_, _, _, r) => AfterCandidate(st, r)
    case Reverify(_, _, _, _, _) => st
  }

  /** The stores after the first `n` events. */
  function StoresAt(events: seq<Event>, n: nat): Stores
    requires n <= |events|
  {
    if n == 0 then Stores(map[], map[]) else After(StoresAt(events, n - 1), events[n - 1])
  }

  ghost predicate IsRun(events: seq<Event>, h: Hashes) {
    forall i :: 0 <= i < |events| ==> Answers(events[i], StoresAt(events, i), h)
  }

  lemma StoresAtStep(events: seq<Event>, n: nat)
    requires n < |events|
    ensures StoresAt(events, n + 1) == After(StoresAt(events, n), events[n])
  {
  }

  /** Call `i` stored the proposal. */
  ghost predicate ProposedAt(events: seq<Event>, i: nat, p: ProposalRecord) {
    i < |events| && events[i].Propose? && events[i].proposal == Ok(p)
  }

  ghost predicate RebuiltAt(events: seq<Event>, j: nat, c: CandidateRecord) {
    j < |events| && events[j].Rebuild? && events[j].candidate == Ok(c)
  }

  ghost predicate ProposedBefore(events: seq<Event>, n: nat, p: ProposalRecord) {
    exists i: nat :: i < n && ProposedAt(events, i, p)
  }

  ghost predicate RebuiltBefore(events: seq<Event>, n: nat, c: CandidateRecord) {
    exists j: nat :: j < n && RebuiltAt(events, j, c)
  }

  /** Every stored record was stored by an earlier successful call, under its own id. */
  ghost predicate Traceable(st: Stores, events: seq<Event>, n: nat) {
    && (forall id :: id in st.proposals ==>
          st.proposals[id].proposalId == id && ProposedBefore(events, n, st.proposals[id]))
    && (forall id :: id in st.candidates ==>
          st.candidates[id].candidateId == id && RebuiltBefore(events, n, st.candidates[id]))
  }

  lemma ProposalTraceable(events: seq<Event>, n: nat, p: ProposalRecord)
    requires ProposedBefore(events, n, p) || ProposedAt(events, n, p)
    ensures ProposedBefore(events, n + 1, p)
  {
  }

  lemma CandidateTraceable(events: seq<Event>, n: nat, c: CandidateRecord)
    requires RebuiltBefore(events, n, c) || RebuiltAt(events, n, c)
    ensures RebuiltBefore(events, n + 1, c)
  {
  }

  lemma TraceableStep(st: Stores, events: seq<Event>, n: nat)
    requires n < |events| && Traceable(st, events, n)
    ensures Traceable(After(st, events[n]), events, n + 1)
  {
    hide ProposedBefore, RebuiltBefore;
    var st' := After(st, events[n]);
    forall id | id in st'.proposals
      ensures st'.proposals[id].proposalId == id && ProposedBefore(events, n + 1, st'.proposals[id])
    {
      ProposalTraceable(events, n, st'.proposals[id]);
    }
    forall id | id in st'.candidates
      ensures st'.candidates[id].candidateId == id && RebuiltBefore(events, n + 1, st'.candidates[id])
    {
      CandidateTraceable(events, n, st'.candidates[id]);
    }
  }

  lemma {:induction false} RecordsAreTraceable(events: seq<Event>, n: nat)
    requires n <= |events|
    ensures Traceable(StoresAt(events, n), events, n)
  {
    if n == 0 {
    } else {
      RecordsAreTraceable(events, n - 1);
      TraceableStep(StoresAt(events, n - 1), events, n - 1);
    }
  }

  /** Calls `i` and `j` are the proposal and the rebuild behind a candidate. The proposal was for
      the fixed fixture of the scenario asked for, the rebuild named it by its id and digest, and
      the fixture had the candidate's digest at both moments. */
  ghost predicate Provenance(events: seq<Event>, i: nat, j: nat, p: ProposalRecord, c: CandidateRecord) {
    && i < j < |events| && ProposedAt(events, i, p) && RebuiltAt(events, j, c) && BuiltFrom(c.payload, p)
    && events[i].id in events[i].env.scenarios
    && ProposesFix(p.payload, events[i].env.scenarios[events[i].id], events[i].env)
    && events[j].proposalId == p.proposalId && events[j].digest == p.proposalDigest
    && FixtureWas(events[i].env, c.payload.fixture, c.payload.newSha256)
    && FixtureWas(events[j].env, c.payload.fixture, c.payload.newSha256)
  }

  /** What a successful rebuild says about the stores it met. */
  lemma RebuildUsesProposal(st: Stores, id: string, digest: string, env: Environment, h: Hashes)
    requires Candidate(st, id, digest, env, h).Ok?
    ensures var c := Candidate(st, id, digest, env, h).value;
            && id in st.proposals && BuiltFrom(c.payload, st.proposals[id])
            && digest == st.proposals[id].proposalDigest
            && FixtureWas(env, c.payload.fixture, c.payload.newSha256)
  {
  }

  lemma ProposalFixesTarget(id: string, env: Environment, h: Hashes)
    requires Proposal(id, env, h).Ok?
    ensures id in env.scenarios && ProposesFix(Proposal(id, env, h).value.payload, env.scenarios[id], env)
  {
  }

  lemma CandidateProvenance(events: seq<Event>, h: Hashes, n: nat, id: string)
    returns (i: nat, j: nat, p: ProposalRecord)
    requires IsRun(events, h) && n <= |events| && id in StoresAt(events, n).candidates
    ensures j < n && Provenance(events, i, j, p, StoresAt(events, n).candidates[id])
    ensures p.proposalId in StoresAt(events, j).proposals && p == StoresAt(events, j).proposals[p.proposalId]
  {
    hide StoresAt, Proposal, Candidate, Reverification;
    var c := StoresAt(events, n).candidates[id];
    RecordsAreTraceable(events, n);
    assert RebuiltBefore(events, n, c);
    j :| j < n && RebuiltAt(events, j, c);
    var e, before := events[j], StoresAt(events, j);
    assert Answers(e, before, h);
    RebuildUsesProposal(before, e.proposalId, e.digest, e.env, h);
    RecordsAreTraceable(events, j);
    p := before.proposals[e.proposalId];
    assert ProposedBefore(events, j, p);
    i :| i < j && ProposedAt(events, i, p);
    assert Answers(events[i], StoresAt(events, i), h);
    ProposalFixesTarget(events[i].id, events[i].env, h);
  }

  lemma VerdictUsesCandidate(st: Stores, id: string, newSha: string, mode: Mode, env: Environment)
    requires Reverification(st, id, newSha, mode, env).Ok?
    ensures id in st.candidates
    ensures VerdictFor(st.candidates[id].payload, id, newSha, mode, env,
                       Reverification(st, id, newSha, mode, env).value)
  {
  }

  /** In every interleaving, a verdict is only ever returned after a successful proposal and a
      successful rebuild of it, for exactly the source they recorded, and only while the fixture
      still has that source. */
  lemma VerdictProvenance(events: seq<Event>, h: Hashes, n: nat)
    requires IsRun(events, h) && n < |events| && events[n].Reverify? && events[n].verdict.Ok?
    ensures var e := events[n];
            exists i: nat, j: nat, p: ProposalRecord, c: CandidateRecord ::
              && j < n && Provenance(events, i, j, p, c) && c.candidateId == e.candidateId
              && VerdictFor(c.payload, e.candidateId, e.newSha, e.mode, e.env, e.verdict.value)
  {
    hide StoresAt, Proposal, Candidate, Reverification, Provenance, VerdictFor;
    var e, st := events[n], StoresAt(events, n);
    assert Answers(e, st, h);
    VerdictUsesCandidate(st, e.candidateId, e.newSha, e.mode, e.env);
    RecordsAreTraceable(events, n);
    var i, j, p := CandidateProvenance(events, h, n, e.candidateId);
    assert Provenance(events, i, j, p, st.candidates[e.candidateId]);
  }

  // ----- Records never change -----

  /** No two different payloads of this run have the same truncated digest. */
  ghost predicate IdsDistinguish(events: seq<Event>) {
    && (forall i: nat, k: nat, p, q ::
          (ProposedAt(events, i, p) && ProposedAt(events, k, q) && p.proposalId == q.proposalId) ==>
            p.payload == q.payload)
    && (forall i: nat, k: nat, c, d ::
          (RebuiltAt(events, i, c) && RebuiltAt(events, k, d) && c.candidateId == d.candidateId) ==>
            c.payload == d.payload)
  }

  ghost predicate Extends(small: Stores, big: Stores) {
    && (forall id :: id in small.proposals ==> id in big.proposals && big.proposals[id] == small.proposals[id])
    && (forall id :: id in small.candidates ==> id in big.candidates && big.candidates[id] == small.candidates[id])
  }

  lemma StepExtends(events: seq<Event>, h: Hashes, n: nat)
    requires IsRun(events, h) && IdsDistinguish(events) && n < |events|
    ensures Extends(StoresAt(events, n), StoresAt(events, n + 1))
  {
    RecordsAreTraceable(events, n);
    StoresAtStep(events, n);
    hide StoresAt, IsRun, IdsDistinguish;
    var st, st' := StoresAt(events, n), StoresAt(events, n + 1);
    forall id | id in st.proposals
      ensures id in st'.proposals && st'.proposals[id] == st.proposals[id]
    {
      SameProposal(events, h, n, st.proposals[id]);
    }
    forall id | id in st.candidates
      ensures id in st'.candidates && st'.candidates[id] == st.candidates[id]
    {
      SameCandidate(events, n, st.candidates[id]);
    }
  }

  lemma ProposalDigestOf(events: seq<Event>, h: Hashes, i: nat, p: ProposalRecord)
    requires IsRun(events, h) && ProposedAt(events, i, p)
    ensures p.proposalDigest == h.proposal(p.payload)
  {
    hide StoresAt;
    assert Answers(events[i], StoresAt(events, i), h);
  }

  lemma SameProposal(events: seq<Event>, h: Hashes, n: nat, stored: ProposalRecord)
    requires IsRun(events, h) && IdsDistinguish(events) && ProposedBefore(events, n, stored)
    ensures forall p :: ProposedAt(events, n, p) && p.proposalId == stored.proposalId ==> p == stored
  {
    hide IsRun;
    var i: nat :| i < n && ProposedAt(events, i, stored);
    ProposalDigestOf(events, h, i, stored);
    forall p | ProposedAt(events, n, p) && p.proposalId == stored.proposalId
      ensures p == stored
    {
      ProposalDigestOf(events, h, n, p);
    }
  }

  lemma SameCandidate(events: seq<Event>, n: nat, stored: CandidateRecord)
    requires IdsDistinguish(events) && RebuiltBefore(events, n, stored)
    ensures forall c :: RebuiltAt(events, n, c) && c.candidateId == stored.candidateId ==> c == stored
  {
  }

  /** Stored records only accumulate and never change, as long as ids distinguish the payloads
      of the run. */
  lemma {:induction false} StoresOnlyGrow(events: seq<Event>, h: Hashes, m: nat, n: nat)
    requires IsRun(events, h) && IdsDistinguish(events) && m <= n <= |events|
    ensures Extends(StoresAt(events, m), StoresAt(events, n))
    decreases n
  {
    hide StoresAt, IdsDistinguish, IsRun;
    if m == n {
    } else {
      StoresOnlyGrow(events, h, m, n - 1);
      StepExtends(events, h, n - 1);
    }
  }

  /** At every moment each candidate agrees with the proposal stored under its proposal id. */
  lemma CandidatesAgreeWithProposals(events: seq<Event>, h: Hashes, n: nat, id: string)
    requires IsRun(events, h) && IdsDistinguish(events) && n <= |events|
    requires id in StoresAt(events, n).candidates
    ensures var c := StoresAt(events, n).candidates[id].payload;
            c.proposalId in StoresAt(events, n).proposals && BuiltFrom(c, StoresAt(events, n).proposals[c.proposalId])
  {
    hide StoresAt, IsRun, IdsDistinguish;
    var i, j, p := CandidateProvenance(events, h, n, id);
    StoresOnlyGrow(events, h, j, n);
  }

  /** A refused call changes nothing. */
  lemma RefusedCallsChangeNothing(events: seq<Event>, n: nat)
    requires n < |events|
    requires match events[n]
             case Propose(_, _, r) => r.Err?
             case Rebuild(_, _, _, r) => r.Err?
             case Reverify(_, _, _, _, _) => true
    ensures StoresAt(events, n + 1) == StoresAt(events, n)
  {
  }
}
