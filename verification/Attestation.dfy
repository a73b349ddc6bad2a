/** The evidence bundle and its signature (src/release_sentinel/operations/attestation.py,
    `finding_set_sha256` in src/release_sentinel/domain/evidence.py).

    The canonical JSON encoders and SHA-256 are parameters. The attestor encodes in Python and
    the Gatekeeper in Go, so the bundle has two encoders; nothing says that they agree. */
module Attestation {
  import opened Wrappers
  import opened Sorting
  import opened Bytes
  import opened Hex
  import opened Evidence

  const SCHEMA: string := "release-sentinel.evidence-bundle.v1"

  datatype CheckResult = CheckResult(
    findingId: string, severity: string, failed: bool, blockingEligible: bool, evidenceDigestSha256: string)

  datatype Bundle = Bundle(
    schema: string, releaseId: string, sourceSha256: string, executionId: string, nonce: string,
    issuedAtUnix: int, expiresAtUnix: int, policyId: string, policyRevision: int, policySha256: string,
    executionCount: int, results: seq<CheckResult>)

  /** Encoders and hash. */
  datatype Crypto = Crypto(
    findingText: Finding -> string,        // canonical JSON of one finding
    listBytes: seq<string> -> Bytes,       // canonical JSON of a list of strings
    pythonBytes: Bundle -> Bytes,          // canonical_bytes
    goBytes: Bundle -> Bytes,              // canonicalBundleBytes
    sha: Bytes -> Bytes)

  /** All that is assumed of the hash: its size. */
  ghost predicate DigestsAre32Bytes(c: Crypto) {
    forall b :: |c.sha(b)| == 32
  }

  datatype Report = Report(
    releaseId: string, findings: seq<Finding>, policyId: string, policyRevision: int, policySha256: string,
    executionCount: int, evidenceSha256: string)

  // ----- The evidence seal -----

  function MapSeq<A, B>(s: seq<A>, f: A -> B): (r: seq<B>)
    ensures |r| == |s| && forall i :: 0 <= i < |s| ==> r[i] == f(s[i])
  {
    seq(|s|, i requires 0 <= i < |s| => f(s[i]))
  }

  /** `finding_set_sha256` */
  function Seal(findings: seq<Finding>, c: Crypto): string {
    ToHex(c.sha(c.listBytes(SortBy(MapSeq(findings, c.findingText), TextLe))))
  }

  ghost function MapsTo<A, B>(f: A -> B, y: B): A -> bool { x => f(x) == y }

  lemma {:induction false} MapSeqCount<A, B>(s: seq<A>, f: A -> B, y: B)
    ensures multiset(MapSeq(s, f))[y] == CountOf(s, MapsTo(f, y))
  {
    if s == [] {
    } else {
      MapSeqCount(s[1..], f, y);
      assert MapSeq(s, f) == [f(s[0])] + MapSeq(s[1..], f);
    }
  }

  lemma MapSeqMultiset<A>(s: seq<A>, t: seq<A>, f: A -> string)
    requires multiset(s) == multiset(t)
    ensures multiset(MapSeq(s, f)) == multiset(MapSeq(t, f))
  {
    var a, b := multiset(MapSeq(s, f)), multiset(MapSeq(t, f));
    forall y: string
      ensures a[y] == b[y]
    {
      MapSeqCount(s, f, y);
      MapSeqCount(t, f, y);
      CountOfMultiset(s, t, MapsTo(f, y));
    }
    assert a == b;
  }

  /** The seal hashes the texts of all findings, in order. */
  lemma SealMeaning(findings: seq<Finding>, c: Crypto) returns (texts: seq<string>)
    ensures Sorted(texts, TextLe) && multiset(texts) == multiset(MapSeq(findings, c.findingText))
    ensures Seal(findings, c) == ToHex(c.sha(c.listBytes(texts)))
  {
    TextOrder();
    texts := SortBy(MapSeq(findings, c.findingText), TextLe);
    SortBySorts(MapSeq(findings, c.findingText), TextLe);
  }

  /** Equal seals are seals of the same texts, or two lists of texts are hashed alike. */
  lemma SealBinds(findings: seq<Finding>, other: seq<Finding>, c: Crypto)
    requires Seal(findings, c) == Seal(other, c)
    ensures || multiset(MapSeq(findings, c.findingText)) == multiset(MapSeq(other, c.findingText))
            || exists texts, others :: texts != others && c.sha(c.listBytes(texts)) == c.sha(c.listBytes(others))
  {
    var texts, others := MapSeq(findings, c.findingText), MapSeq(other, c.findingText);
    ToHexInjective(c.sha(c.listBytes(SortBy(texts, TextLe))), c.sha(c.listBytes(SortBy(others, TextLe))));
    if SortBy(texts, TextLe) == SortBy(others, TextLe) {
      TextOrder();
      SortBySorts(texts, TextLe);
      SortBySorts(others, TextLe);
    }
  }

  /** The seal does not depend on the order of the findings, duplicates included. */
  lemma SealOrderIndependent(findings: seq<Finding>, other: seq<Finding>, c: Crypto)
    requires multiset(findings) == multiset(other)
    ensures Seal(findings, c) == Seal(other, c)
  {
    MapSeqMultiset(findings, other, c.findingText);
    TextOrder();
    SortByOrderIndependent(MapSeq(findings, c.findingText), MapSeq(other, c.findingText), TextLe);
  }

  // ----- The bundle -----

  datatype AttestError = SourceNotADigest | TtlOutOfRange | EvidenceChanged

  function SeverityName(s: Severity): string {
    match s
    case INFO => "INFO"
    case LOW => "LOW"
    case MEDIUM => "MEDIUM"
    case HIGH => "HIGH"
    case CRITICAL => "CRITICAL"
  }

  function ResultOf(f: Finding, c: Crypto): CheckResult {
    CheckResult(f.findingId, SeverityName(f.severity), true, f.Blocking(), ToHex(c.sha(Utf8(c.findingText(f)))))
  }

  function ByFindingId(): (Finding, Finding) -> bool {
    (f: Finding, g: Finding) => TextLe(f.findingId, g.findingId)
  }

  lemma FindingOrder()
    ensures Total(ByFindingId()) && Transitive(ByFindingId())
  {
    TextOrder();
  }

  /** The result names the finding and its severity as it is, may block exactly if the finding has
      an item of the platform or of the organization's policy that may, and carries the digest of
      the finding's text. */
  ghost predicate ReportsOn(result: CheckResult, f: Finding, c: Crypto) {
    && result.findingId == f.findingId && result.failed
    && (result.severity == "INFO" <==> f.severity == INFO) && (result.severity == "LOW" <==> f.severity == LOW)
    && (result.severity == "MEDIUM" <==> f.severity == MEDIUM) && (result.severity == "HIGH" <==> f.severity == HIGH)
    && (result.severity == "CRITICAL" <==> f.severity == CRITICAL)
    && (result.blockingEligible <==>
          exists k :: 0 <= k < |f.evidence| && f.evidence[k].blockingEligible
                      && f.evidence[k].authority in {PLATFORM, ORGANIZATION_POLICY})
    && result.evidenceDigestSha256 == ToHex(c.sha(Utf8(c.findingText(f))))
  }

  lemma ResultReports(f: Finding, c: Crypto)
    ensures ReportsOn(ResultOf(f, c), f, c)
  {
    hide ToHex, Utf8;
  }

  /** Advisory items leave alone whether a result may block. */
  lemma AdviceLeavesResults(f: Finding, g: Finding, c: Crypto)
    requires DifferInAdvice(f, g)
    ensures ResultOf(f, c).blockingEligible == ResultOf(g, c).blockingEligible
    ensures ResultOf(f, c).severity == ResultOf(g, c).severity
  {
    AdviceNeverBlocks(f, g);
  }

  /** `results`, one per finding in the order of their ids. */
  function ResultsOf(findings: seq<Finding>, c: Crypto): seq<CheckResult> {
    MapSeq(SortBy(findings, ByFindingId()), f => ResultOf(f, c))
  }

  /** One result per finding, by ascending id, findings with the same id in the order given. */
  ghost predicate Lists(results: seq<CheckResult>, findings: seq<Finding>, c: Crypto) {
    exists order: seq<Finding> ::
      && multiset(order) == multiset(findings) && |order| == |results|
      && (forall i, j :: 0 <= i < j < |order| ==> TextLe(order[i].findingId, order[j].findingId))
      && (forall f :: Tying(order, f, ByFindingId()) == Tying(findings, f, ByFindingId()))
      && forall i :: 0 <= i < |order| ==> ReportsOn(results[i], order[i], c)
  }

  lemma ResultsMeaning(findings: seq<Finding>, c: Crypto)
    ensures Lists(ResultsOf(findings, c), findings, c)
  {
    hide ResultOf, ReportsOn, Tying, SortBy;
    var order := SortBy(findings, ByFindingId());
    FindingOrder();
    SortBySorts(findings, ByFindingId());
    forall f ensures Tying(order, f, ByFindingId()) == Tying(findings, f, ByFindingId()) {
      SortByIsStable(findings, f, ByFindingId());
    }
    forall i | 0 <= i < |order| ensures ReportsOn(ResultsOf(findings, c)[i], order[i], c) {
      ResultReports(order[i], c);
    }
    assert forall i, j :: 0 <= i < j < |order| ==> ByFindingId()(order[i], order[j]);
  }

  ghost function BundleOf(
    report: Report, source: string, now: int, ttl: int, executionId: string, nonce: string, c: Crypto): Bundle
  {
    Bundle(SCHEMA, report.releaseId, source, executionId, nonce, now, now + ttl, report.policyId,
           report.policyRevision, report.policySha256, report.executionCount, ResultsOf(report.findings, c))
  }

  /** `given or prefix + uuid4().hex` */
  function OrFresh(given: string, prefix: string, uuid: string): string {
    if given == "" then prefix + uuid else given
  }

  ghost predicate Attestable(report: Report, source: string, ttl: int, c: Crypto) {
    |source| == 64 && 30 <= ttl <= 900 && report.evidenceSha256 == Seal(report.findings, c)
  }

  method BuildEvidenceBundle(
    report: Report, source: string, now: int, ttl: int, executionId: string, nonce: string,
    executionUuid: string, nonceUuid: string, c: Crypto)
    returns (r: Result<Bundle, AttestError>)
    ensures r.Ok? <==> Attestable(report, source, ttl, c)
    ensures r.Ok? ==>
              r.value == BundleOf(report, source, now, ttl,
                                  OrFresh(executionId, "exec-", executionUuid), OrFresh(nonce, "nonce-", nonceUuid), c)
    ensures r.Ok? ==>
      && r.value.schema == SCHEMA && r.value.releaseId == report.releaseId && r.value.sourceSha256 == source
      && r.value.executionId == (if executionId == "" then "exec-" + executionUuid else executionId)
      && r.value.nonce == (if nonce == "" then "nonce-" + nonceUuid else nonce)
      && r.value.issuedAtUnix == now && r.value.expiresAtUnix - now == ttl
      && r.value.policyId == report.policyId && r.value.policyRevision == report.policyRevision
      && r.value.policySha256 == report.policySha256 && r.value.executionCount == report.executionCount
      && Lists(r.value.results, report.findings, c)
    ensures r == Err(SourceNotADigest) <==> |source| != 64
    ensures r == Err(TtlOutOfRange) <==> |source| == 64 && !(30 <= ttl <= 900)
    ensures r == Err(EvidenceChanged) <==>
              |source| == 64 && 30 <= ttl <= 900 && report.evidenceSha256 != Seal(report.findings, c)
  {
    hide SortBy, Seal, Utf8, ToHex, Lists;
    if |source| != 64 {
      return Err(SourceNotADigest);
    }
    if ttl < 30 || ttl > 900 {
      return Err(TtlOutOfRange);
    }
    if Seal(report.findings, c) != report.evidenceSha256 {
      return Err(EvidenceChanged);
    }
    var sorted := SortBy(report.findings, ByFindingId());
    var results: seq<CheckResult> := [];
    for i := 0 to |sorted|
      invariant |results| == i && forall j :: 0 <= j < i ==> results[j] == ResultOf(sorted[j], c)
    {
      var finding := sorted[i];
      results := results + [
        CheckResult(finding.findingId, SeverityName(finding.severity), true, finding.Blocking(),
                    ToHex(c.sha(Utf8(c.findingText(finding)))))];
    }
    assert results == ResultsOf(report.findings, c);
    ResultsMeaning(report.findings, c);
    return Ok(Bundle(
      SCHEMA, report.releaseId, source,
      OrFresh(executionId, "exec-", executionUuid), OrFresh(nonce, "nonce-", nonceUuid),
      now, now + ttl, report.policyId, report.policyRevision, report.policySha256, report.executionCount, results));
  }

  ghost predicate DistinctIds(findings: seq<Finding>) {
    forall i, j :: 0 <= i < j < |findings| ==> findings[i].findingId != findings[j].findingId
  }

  /** With distinct ids, permuting the findings leaves the whole bundle unchanged. */
  lemma BundleOrderIndependent(
    report: Report, other: Report, source: string, now: int, ttl: int, executionId: string, nonce: string, c: Crypto)
    requires DistinctIds(report.findings) && multiset(report.findings) == multiset(other.findings)
    requires other == report.(findings := other.findings)
    ensures BundleOf(report, source, now, ttl, executionId, nonce, c) ==
            BundleOf(other, source, now, ttl, executionId, nonce, c)
    ensures Attestable(report, source, ttl, c) <==> Attestable(other, source, ttl, c)
  {
    FindingOrder();
    SealOrderIndependent(report.findings, other.findings, c);
    forall f, g | f in report.findings && g in report.findings && ByFindingId()(f, g) && ByFindingId()(g, f)
      ensures f == g
    {
      TextLeAntisymmetric(f.findingId, g.findingId);
    }
    SortByOrderIndependent(report.findings, other.findings, ByFindingId());
  }

  // ----- Signatures -----

  /** What the signature field may carry. `Signed` can only be made with the private key of its
      name; `Other` verifies under no key. */
  datatype Signature = NotBase64 | Empty | Signed(key: string, digest: Bytes) | Other(raw: Bytes)

  datatype SignedBundle = SignedBundle(bundle: Bundle, bundleSha256: string, signature: Signature, keyId: string)

  /** `sign_evidence_bundle` with a signer holding `key`: ECDSA over the SHA-256 of the payload. */
  function Sign(bundle: Bundle, key: string, keyId: string, c: Crypto): SignedBundle {
    var digest := c.sha(c.pythonBytes(bundle));
    SignedBundle(bundle, ToHex(digest), Signed(key, digest), keyId)
  }
}
