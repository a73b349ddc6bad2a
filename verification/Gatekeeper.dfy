/** The Go Gatekeeper (gatekeeper/internal/verdict/attestation.go, verdict.go). */
module Gatekeeper {
  import opened Wrappers
  import opened Sorting
  import opened Bytes
  import opened Hex
  import opened Evidence
  import opened Attestation

  /** The public half of the named key, and the key id that is trusted ("" trusts any id). */
  datatype Verifier = Verifier(publicKey: string, keyId: string)

  datatype AgentOpinion = AgentOpinion(agent: string, vote: string, note: string)

  datatype Request = Request(
    releaseId: string, sourceSha256: string, policySha256: string, signed: SignedBundle, opinions: seq<AgentOpinion>)

  datatype Code =
    | TRUST_ROOT_UNAVAILABLE
    | SCHEMA_INVALID
    | CONTEXT_MISSING
    | CONTEXT_MISMATCH
    | BUNDLE_INVALID
    | UNTRUSTED_ISSUER
    | DIGEST_MISMATCH
    | SIGNATURE_INVALID
    | NOT_YET_VALID
    | EVIDENCE_EXPIRED

  datatype Response = Response(
    accepted: bool, decision: Option<Decision>, llmPresent: bool, agentInfluence: int, ignoredAgentOpinions: nat,
    authoritativeBlockers: nat, authoritativeMedium: nat, evidenceVerified: bool, verifiedExecutionId: string,
    rejectionCode: Option<Code>)

  // ----- Verification -----

  /** Every result names a finding, with a digest, and no two name the same one. */
  ghost predicate ResultsValid(results: seq<CheckResult>) {
    && (forall i :: 0 <= i < |results| ==>
          results[i].findingId != "" && ValidSha256Hex(results[i].evidenceDigestSha256))
    && (forall i, j :: 0 <= i < j < |results| ==> results[i].findingId != results[j].findingId)
  }

  ghost predicate ContextPresent(req: Request) {
    req.releaseId != "" && req.sourceSha256 != "" && req.policySha256 != ""
  }

  /** The bundle was made for exactly the release, source and policy asked about. */
  ghost predicate ContextMatches(req: Request) {
    var bundle := req.signed.bundle;
    && req.releaseId == bundle.releaseId && req.sourceSha256 == bundle.sourceSha256
    && req.policySha256 == bundle.policySha256
  }

  ghost predicate FieldsValid(bundle: Bundle) {
    && ValidSha256Hex(bundle.sourceSha256) && ValidSha256Hex(bundle.policySha256)
    && bundle.executionId != "" && bundle.nonce != ""
  }

  ghost predicate IssuerTrusted(req: Request, v: Verifier) {
    v.keyId == "" || req.signed.keyId == v.keyId
  }

  ghost predicate DigestMatches(req: Request, c: Crypto) {
    EqualFold(req.signed.bundleSha256, ToHex(c.sha(c.goBytes(req.signed.bundle))))
  }

  ghost predicate SignatureHolds(req: Request, v: Verifier, c: Crypto) {
    req.signed.signature == Signed(v.publicKey, c.sha(c.goBytes(req.signed.bundle)))
  }

  ghost predicate NotFromFuture(bundle: Bundle, now: int) {
    bundle.issuedAtUnix <= now + 30
  }

  ghost predicate Fresh(bundle: Bundle, now: int) {
    now < bundle.expiresAtUnix <= bundle.issuedAtUnix + 900
  }

  ghost predicate ContentsValid(bundle: Bundle, c: Crypto) {
    bundle.executionCount >= 1 && ResultsValid(bundle.results) && 10 !in c.goBytes(bundle)
  }

  /** What acceptance means, independent of the order of the checks. */
  ghost predicate Verified(req: Request, v: Verifier, c: Crypto, now: int) {
    var bundle := req.signed.bundle;
    && bundle.schema == SCHEMA && ContextPresent(req) && ContextMatches(req) && FieldsValid(bundle)
    && Authentic(req, v, c) && NotFromFuture(bundle, now) && Fresh(bundle, now) && ContentsValid(bundle, c)
  }

  ghost predicate Authentic(req: Request, v: Verifier, c: Crypto) {
    IssuerTrusted(req, v) && DigestMatches(req, c) && SignatureHolds(req, v, c)
  }

  /** Acceptance, condition by condition: a bundle of this schema, for the release, source and
      policy asked about, under the trusted key, with the digest and the signature of what the
      Gatekeeper itself encodes, neither from the future nor expired nor valid for more than 15
      minutes, with at least one check and a list of well-formed results. */
  lemma AcceptanceMeaning(req: Request, v: Verifier, c: Crypto, now: int)
    ensures var b, raw := req.signed.bundle, c.goBytes(req.signed.bundle);
      Verified(req, v, c, now) <==>
        && b.schema == "release-sentinel.evidence-bundle.v1"
        && req.releaseId == b.releaseId && req.sourceSha256 == b.sourceSha256 && req.policySha256 == b.policySha256
        && req.releaseId != "" && ValidSha256Hex(req.sourceSha256) && ValidSha256Hex(req.policySha256)
        && b.executionId != "" && b.nonce != ""
        && (v.keyId != "" ==> req.signed.keyId == v.keyId)
        && EqualFold(req.signed.bundleSha256, ToHex(c.sha(raw)))
        && req.signed.signature == Signed(v.publicKey, c.sha(raw))
        && b.issuedAtUnix - 30 <= now < b.expiresAtUnix && b.expiresAtUnix - b.issuedAtUnix <= 900
        && b.executionCount >= 1 && 10 !in raw
        && forall i :: 0 <= i < |b.results| ==>
             && b.results[i].findingId != "" && ValidSha256Hex(b.results[i].evidenceDigestSha256)
             && forall j :: 0 <= j < i ==> b.results[j].findingId != b.results[i].findingId
  {
    hide EqualFold, ToHex;
    assert !ValidSha256Hex("");
    hide ValidSha256Hex;
  }

  /** Why a request is refused: `code` belongs to the first check that fails. */
  ghost predicate Explains(code: Code, req: Request, v: Verifier, c: Crypto, now: int) {
    var bundle := req.signed.bundle;
    var named := bundle.schema == SCHEMA && ContextPresent(req) && ContextMatches(req);
    var authentic := named && FieldsValid(bundle) && Authentic(req, v, c);
    match code
    case TRUST_ROOT_UNAVAILABLE => false
    case SCHEMA_INVALID => bundle.schema != SCHEMA
    case CONTEXT_MISSING => bundle.schema == SCHEMA && !ContextPresent(req)
    case CONTEXT_MISMATCH => bundle.schema == SCHEMA && ContextPresent(req) && !ContextMatches(req)
    case UNTRUSTED_ISSUER => named && FieldsValid(bundle) && !IssuerTrusted(req, v)
    case DIGEST_MISMATCH => named && FieldsValid(bundle) && IssuerTrusted(req, v) && !DigestMatches(req, c)
    case SIGNATURE_INVALID =>
      named && FieldsValid(bundle) && IssuerTrusted(req, v) && DigestMatches(req, c) && !SignatureHolds(req, v, c)
    case NOT_YET_VALID => authentic && !NotFromFuture(bundle, now)
    case EVIDENCE_EXPIRED => authentic && NotFromFuture(bundle, now) && !Fresh(bundle, now)
    case BUNDLE_INVALID =>
      || (named && !FieldsValid(bundle))
      || (authentic && NotFromFuture(bundle, now) && Fresh(bundle, now) && !ContentsValid(bundle, c))
  }

  /** A refusal has one explanation, and none when everything holds. */
  lemma OneExplanation(code: Code, other: Code, req: Request, v: Verifier, c: Crypto, now: int)
    requires Explains(code, req, v, c, now) && Explains(other, req, v, c, now)
    ensures code == other && !Verified(req, v, c, now)
  {
    hide ContextPresent, ContextMatches, FieldsValid, IssuerTrusted, DigestMatches, SignatureHolds, ContentsValid;
  }

  /** The loop over `bundle.Results` with its `seen` map. */
  method ScanResults(results: seq<CheckResult>) returns (valid: bool)
    ensures valid <==> ResultsValid(results)
  {
    hide ValidSha256Hex;
    var seen: set<string> := {};
    for i := 0 to |results|
      invariant forall j :: 0 <= j < i ==>
                  results[j].findingId != "" && ValidSha256Hex(results[j].evidenceDigestSha256)
      invariant forall j, k :: 0 <= j < k < i ==> results[j].findingId != results[k].findingId
      invariant forall id :: id in seen <==> exists j :: 0 <= j < i && results[j].findingId == id
    {
      var result := results[i];
      if result.findingId == "" || !ValidSha256Hex(result.evidenceDigestSha256) {
        return false;
      }
      if result.findingId in seen {
        return false;
      }
      seen := seen + {result.findingId};
    }
    return true;
  }

  /** The first failing check names the rejection; there is none exactly when all hold. */
  method Verify(req: Request, v: Verifier, c: Crypto, now: int) returns (code: Option<Code>)
    ensures code.None? <==> Verified(req, v, c, now)
    ensures code.Some? ==> Explains(code.value, req, v, c, now)
  {
    hide ToHex, EqualFold, ValidSha256Hex, ResultsValid;
    var signed := req.signed;
    var bundle := signed.bundle;
    if bundle.schema != SCHEMA {
      return Some(SCHEMA_INVALID);
    }
    if req.releaseId == "" || req.sourceSha256 == "" || req.policySha256 == "" {
      return Some(CONTEXT_MISSING);
    }
    if bundle.releaseId != req.releaseId || bundle.sourceSha256 != req.sourceSha256 ||
       bundle.policySha256 != req.policySha256
    {
      return Some(CONTEXT_MISMATCH);
    }
    if !ValidSha256Hex(bundle.sourceSha256) || !ValidSha256Hex(bundle.policySha256) ||
       bundle.executionId == "" || bundle.nonce == ""
    {
      return Some(BUNDLE_INVALID);
    }
    if v.keyId != "" && signed.keyId != v.keyId {
      return Some(UNTRUSTED_ISSUER);
    }
    var raw := c.goBytes(bundle);
    var digest := c.sha(raw);
    if !EqualFold(signed.bundleSha256, ToHex(digest)) {
      return Some(DIGEST_MISMATCH);
    }
    if signed.signature.NotBase64? || signed.signature.Empty? {
      return Some(SIGNATURE_INVALID);
    }
    if signed.signature != Signed(v.publicKey, digest) {
      return Some(SIGNATURE_INVALID);
    }
    if bundle.issuedAtUnix > now + 30 {
      return Some(NOT_YET_VALID);
    }
    if bundle.expiresAtUnix <= now || bundle.expiresAtUnix - bundle.issuedAtUnix > 900 {
      return Some(EVIDENCE_EXPIRED);
    }
    if bundle.executionCount < 1 {
      return Some(BUNDLE_INVALID);
    }
    var valid := ScanResults(bundle.results);
    if !valid {
      return Some(BUNDLE_INVALID);
    }
    if 10 in raw {
      return Some(BUNDLE_INVALID);
    }
    return None;
  }

  // ----- Decision -----

  predicate ResultBlocker(r: CheckResult) {
    r.failed && r.blockingEligible && (r.severity == "HIGH" || r.severity == "CRITICAL")
  }

  predicate ResultMedium(r: CheckResult) {
    r.failed && r.blockingEligible && r.severity == "MEDIUM"
  }

  function DecisionFor(blockers: nat, medium: nat): Decision {
    if blockers > 0 then NO_GO else if medium > 0 then CONDITIONAL_GO else GO
  }

  function Rejected(req: Request, code: Code): Response {
    Response(false, None, false, 0, |req.opinions|, 0, 0, false, "", Some(code))
  }

  /** The verdict as a function of the request; the opinions only set one informational count. */
  ghost function Verdict(req: Request, code: Option<Code>): Response {
    match code
    case Some(reason) => Rejected(req, reason)
    case None =>
      var results := req.signed.bundle.results;
      var blockers, medium := CountOf(results, ResultBlocker), CountOf(results, ResultMedium);
      Response(true, Some(DecisionFor(blockers, medium)), false, 0, |req.opinions|, blockers, medium, true,
               req.signed.bundle.executionId, None)
  }

  /** The two counters of `DecideVerified`. */
  method CountResults(results: seq<CheckResult>) returns (highCritical: nat, medium: nat)
    ensures highCritical == CountOf(results, ResultBlocker) && medium == CountOf(results, ResultMedium)
  {
    highCritical, medium := 0, 0;
    for i := 0 to |results|
      invariant highCritical == CountOf(results[..i], ResultBlocker)
      invariant medium == CountOf(results[..i], ResultMedium)
    {
      assert results[..i + 1] == results[..i] + [results[i]];
      CountOfConcat(results[..i], [results[i]], ResultBlocker);
      CountOfConcat(results[..i], [results[i]], ResultMedium);
      var result := results[i];
      if !result.failed || !result.blockingEligible {
        continue;
      }
      if result.severity == "HIGH" || result.severity == "CRITICAL" {
        highCritical := highCritical + 1;
      } else if result.severity == "MEDIUM" {
        medium := medium + 1;
      }
    }
    assert results[..|results|] == results;
  }

  /** The failed results of the given severities that may block. */
  ghost function Failing(results: seq<CheckResult>, severities: set<string>): set<nat> {
    set i: nat | i < |results| && results[i].failed && results[i].blockingEligible && results[i].severity in severities
  }

  lemma CountsAreSizes(results: seq<CheckResult>)
    ensures CountOf(results, ResultBlocker) == |Failing(results, {"HIGH", "CRITICAL"})|
    ensures CountOf(results, ResultMedium) == |Failing(results, {"MEDIUM"})|
  {
    CountOfIsSize(results, ResultBlocker);
    CountOfIsSize(results, ResultMedium);
    assert Failing(results, {"HIGH", "CRITICAL"}) == Places(results, ResultBlocker);
    assert Failing(results, {"MEDIUM"}) == Places(results, ResultMedium);
  }

  /** An accepted request is refused release for any failed high or critical result that may
      block, restricted for a medium one, and released otherwise. */
  ghost predicate Decides(resp: Response, bundle: Bundle) {
    var high, medium := Failing(bundle.results, {"HIGH", "CRITICAL"}), Failing(bundle.results, {"MEDIUM"});
    && resp.decision == Some(if high != {} then NO_GO else if medium != {} then CONDITIONAL_GO else GO)
    && resp.authoritativeBlockers == |high| && resp.authoritativeMedium == |medium|
    && resp.evidenceVerified && resp.verifiedExecutionId == bundle.executionId && resp.rejectionCode == None
  }

  method DecideVerified(req: Request, verifier: Option<Verifier>, c: Crypto, now: int) returns (resp: Response)
    ensures resp.accepted <==> verifier.Some? && Verified(req, verifier.value, c, now)
    ensures resp.accepted ==> resp == Verdict(req, None)
    ensures resp.accepted ==> Decides(resp, req.signed.bundle)
    ensures resp.ignoredAgentOpinions == |req.opinions| && resp.agentInfluence == 0 && !resp.llmPresent
    ensures !resp.accepted ==>
      && resp.decision == None && resp.rejectionCode.Some? && !resp.evidenceVerified
      && resp.authoritativeBlockers == resp.authoritativeMedium == 0 && resp.verifiedExecutionId == ""
    ensures !resp.accepted ==>
              exists code :: resp == Rejected(req, code) &&
                if verifier.None? then code == TRUST_ROOT_UNAVAILABLE else Explains(code, req, verifier.value, c, now)
  {
    hide Verified, Explains;
    if verifier.None? {
      return Rejected(req, TRUST_ROOT_UNAVAILABLE);
    }
    var code := Verify(req, verifier.value, c, now);
    if code.Some? {
      return Rejected(req, code.value);
    }
    var bundle := req.signed.bundle;
    var highCritical, medium := CountResults(bundle.results);
    CountsAreSizes(bundle.results);
    hide Failing;
    var decision := GO;
    if highCritical > 0 {
      decision := NO_GO;
    } else if medium > 0 {
      decision := CONDITIONAL_GO;
    }
    resp := Response(true, Some(decision), false, 0, |req.opinions|, highCritical, medium, true,
                     bundle.executionId, None);
  }

  // ----- Agreement with the judge -----

  /** Counting the attested results counts the judge's findings. */
  lemma {:induction false} ResultsMirrorFindings(findings: seq<Finding>, c: Crypto)
    ensures CountOf(MapSeq(findings, f => ResultOf(f, c)), ResultBlocker) == CountOf(findings, IsBlocker)
    ensures CountOf(MapSeq(findings, f => ResultOf(f, c)), ResultMedium) == CountOf(findings, IsMedium)
  {
    hide ToHex, Utf8;
    if findings == [] {
    } else {
      var results := MapSeq(findings, f => ResultOf(f, c));
      ResultsMirrorFindings(findings[1..], c);
      assert results[1..] == MapSeq(findings[1..], f => ResultOf(f, c));
      assert ResultBlocker(results[0]) <==> IsBlocker(findings[0]);
      assert ResultMedium(results[0]) <==> IsMedium(findings[0]);
    }
  }

  /** The Gatekeeper's counts and decision on attested results are the judge's on the findings. */
  lemma VerdictIsJudgement(findings: seq<Finding>, c: Crypto)
    ensures CountOf(ResultsOf(findings, c), ResultBlocker) == CountOf(findings, IsBlocker)
    ensures CountOf(ResultsOf(findings, c), ResultMedium) == CountOf(findings, IsMedium)
    ensures DecisionFor(CountOf(ResultsOf(findings, c), ResultBlocker), CountOf(ResultsOf(findings, c), ResultMedium))
            == Judge(findings)
  {
    var sorted := SortBy(findings, ByFindingId());
    FindingOrder();
    SortBySorts(findings, ByFindingId());
    ResultsMirrorFindings(sorted, c);
    CountOfMultiset(sorted, findings, IsBlocker);
    CountOfMultiset(sorted, findings, IsMedium);
  }

  // ----- The honest round trip -----

  lemma SortedIds(findings: seq<Finding>, c: Crypto)
    requires DigestsAre32Bytes(c)
    ensures ResultsValid(ResultsOf(findings, c)) <==>
              DistinctIds(findings) && forall i :: 0 <= i < |findings| ==> findings[i].findingId != ""
  {
    hide Utf8, ToHex;
    var sorted := SortBy(findings, ByFindingId());
    var results := ResultsOf(findings, c);
    FindingOrder();
    SortBySorts(findings, ByFindingId());
    assert forall i :: 0 <= i < |sorted| ==> results[i].findingId == sorted[i].findingId;
    forall i | 0 <= i < |results|
      ensures ValidSha256Hex(results[i].evidenceDigestSha256)
    {
      assert results[i] == ResultOf(sorted[i], c);
    }
    IdsOfPermutation(findings, sorted);
    IdsOfPermutation(sorted, findings);
  }

  lemma IdsOfPermutation(a: seq<Finding>, b: seq<Finding>)
    requires multiset(a) == multiset(b)
    ensures DistinctIds(a) ==> DistinctIds(b)
    ensures (forall i :: 0 <= i < |a| ==> a[i].findingId != "") ==> (forall i :: 0 <= i < |b| ==> b[i].findingId != "")
  {
    forall i | 0 <= i < |b|
      ensures b[i] in a
    {
      assert b[i] in multiset(b);
    }
    if DistinctIds(a) {
      forall f | f in b
        ensures multiset(b)[f] == 1
      {
        DistinctMultiset(a, f);
        assert f in multiset(b);
      }
      DistinctFromMultiset(b);
      forall i, j | 0 <= i < j < |b|
        ensures b[i].findingId != b[j].findingId
      {
        var k :| 0 <= k < |a| && a[k] == b[i];
        var l :| 0 <= l < |a| && a[l] == b[j];
        assert k != l;
      }
    }
  }

  /** A bundle built from a report, signed, and presented in its own context is accepted exactly
      while it is fresh, provided its digests are hexadecimal, its findings have distinct names,
      at least one check was executed, and the two encoders agree on it. */
  lemma HonestRoundTrip(
    report: Report, source: string, issued: int, ttl: int, executionId: string, nonce: string,
    key: string, keyId: string, opinions: seq<AgentOpinion>, c: Crypto, now: int)
    requires DigestsAre32Bytes(c) && Attestable(report, source, ttl, c) && executionId != "" && nonce != ""
    ensures var bundle := BundleOf(report, source, issued, ttl, executionId, nonce, c);
            var req := Request(report.releaseId, source, report.policySha256, Sign(bundle, key, keyId, c), opinions);
            && (Verified(req, Verifier(key, keyId), c, now) <==>
                  && issued - 30 <= now < issued + ttl
                  && report.releaseId != ""
                  && ValidSha256Hex(source) && ValidSha256Hex(report.policySha256)
                  && report.executionCount >= 1
                  && DistinctIds(report.findings)
                  && (forall i :: 0 <= i < |report.findings| ==> report.findings[i].findingId != "")
                  && c.sha(c.goBytes(bundle)) == c.sha(c.pythonBytes(bundle)) && 10 !in c.goBytes(bundle))
            && Verdict(req, None).decision == Some(Judge(report.findings))
            && Verdict(req, None).authoritativeBlockers == CountOf(report.findings, IsBlocker)
            && Verdict(req, None).authoritativeMedium == CountOf(report.findings, IsMedium)
  {
    hide ToHex, EqualFold, ValidSha256Hex, ResultsValid, ResultsOf, DistinctIds, CountOf, Judge;
    var bundle := BundleOf(report, source, issued, ttl, executionId, nonce, c);
    EqualFoldOfDigests(c.sha(c.pythonBytes(bundle)), c.sha(c.goBytes(bundle)));
    SortedIds(report.findings, c);
    VerdictIsJudgement(report.findings, c);
    EmptyIsNoDigest();
  }

  lemma EmptyIsNoDigest()
    ensures !ValidSha256Hex("")
  {
  }
}
