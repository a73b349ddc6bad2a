/** Attestor, network and Gatekeeper as a transition system.

    The attestor signs only bundles it builds from reports. Whoever composes requests may mix
    any fields with any signature, except that a signature under the attestor's key must have
    been produced by the attestor. A run interleaves the two freely, with any clock readings. */
module ReleaseProtocol {
  import opened Wrappers
  import opened Bytes
  import opened Evidence
  import opened Attestation
  import opened Gatekeeper

  /** One call of the attestor: the report and the arguments it was attested with. */
  datatype Record = Record(report: Report, source: string, issued: int, ttl: int, executionId: string, nonce: string)

  /** One request answered by the Gatekeeper, and how many records existed at that moment. */
  datatype Answer = Answer(req: Request, now: int, response: Response, recordsBefore: nat)

  datatype World = World(records: seq<Record>, answers: seq<Answer>)

  datatype Setup = Setup(key: string, keyId: string, crypto: Crypto)

  ghost function BundleIn(r: Record, c: Crypto): Bundle {
    BundleOf(r.report, r.source, r.issued, r.ttl, r.executionId, r.nonce, c)
  }

  ghost function SignedDigest(r: Record, c: Crypto): Bytes {
    c.sha(c.pythonBytes(BundleIn(r, c)))
  }

  /** Unforgeability. */
  ghost predicate Composable(s: Signature, w: World, setup: Setup) {
    s.Signed? && s.key == setup.key ==>
      exists i :: 0 <= i < |w.records| && s.digest == SignedDigest(w.records[i], setup.crypto)
  }

  ghost predicate AttestStep(w: World, w': World, setup: Setup) {
    exists r: Record :: w' == w.(records := w.records + [r]) && Attestable(r.report, r.source, r.ttl, setup.crypto)
  }

  /** The contract of `DecideVerified`. */
  ghost predicate Answers(a: Answer, setup: Setup) {
    && (a.response.accepted <==> Verified(a.req, Verifier(setup.key, setup.keyId), setup.crypto, a.now))
    && (a.response.accepted ==> a.response == Verdict(a.req, None))
    && (!a.response.accepted ==>
          exists code :: a.response == Rejected(a.req, code) &&
                         Explains(code, a.req, Verifier(setup.key, setup.keyId), setup.crypto, a.now))
  }

  ghost predicate DeliverStep(w: World, w': World, setup: Setup) {
    exists a: Answer ::
      && w' == w.(answers := w.answers + [a])
      && a.recordsBefore == |w.records|
      && Composable(a.req.signed.signature, w, setup)
      && Answers(a, setup)
  }

  ghost predicate IsRun(run: seq<World>, setup: Setup) {
    && run != [] && run[0] == World([], [])
    && forall i :: 0 <= i < |run| - 1 ==>
         AttestStep(run[i], run[i + 1], setup) || DeliverStep(run[i], run[i + 1], setup)
  }

  // ----- The invariant -----

  ghost predicate SignatureIsOnRecord(a: Answer, w: World, setup: Setup) {
    a.req.signed.signature.Signed? && a.req.signed.signature.key == setup.key ==>
      exists i :: 0 <= i < a.recordsBefore <= |w.records| &&
                  a.req.signed.signature.digest == SignedDigest(w.records[i], setup.crypto)
  }

  ghost predicate Invariant(w: World, setup: Setup) {
    && (forall i :: 0 <= i < |w.records| ==>
          Attestable(w.records[i].report, w.records[i].source, w.records[i].ttl, setup.crypto))
    && (forall j :: 0 <= j < |w.answers| ==>
          && w.answers[j].recordsBefore <= |w.records|
          && Answers(w.answers[j], setup)
          && SignatureIsOnRecord(w.answers[j], w, setup))
  }

  lemma InvariantKept(w: World, w': World, setup: Setup)
    requires Invariant(w, setup) && (AttestStep(w, w', setup) || DeliverStep(w, w', setup))
    ensures Invariant(w', setup)
  {
    hide Answers, Attestable, SignedDigest;
    forall j | 0 <= j < |w.answers|
      ensures SignatureIsOnRecord(w.answers[j], w', setup)
    {
      var a := w.answers[j];
      assert SignatureIsOnRecord(a, w, setup);
      if a.req.signed.signature.Signed? && a.req.signed.signature.key == setup.key {
        var i :| 0 <= i < a.recordsBefore && a.req.signed.signature.digest == SignedDigest(w.records[i], setup.crypto);
        assert w'.records[i] == w.records[i];
      }
    }
  }

  lemma {:induction false} InvariantHolds(run: seq<World>, setup: Setup, n: nat)
    requires IsRun(run, setup) && n < |run|
    ensures Invariant(run[n], setup)
  {
    if n == 0 {
    } else {
      InvariantHolds(run, setup, n - 1);
      InvariantKept(run[n - 1], run[n], setup);
    }
  }

  // ----- The theorem -----

  /** Different encodings with the same digest. */
  ghost predicate HashCollides(attested: Bundle, presented: Bundle, c: Crypto) {
    c.pythonBytes(attested) != c.goBytes(presented) && c.sha(c.pythonBytes(attested)) == c.sha(c.goBytes(presented))
  }

  /** Different bundles that the Python and the Go encoder write alike: no fault of the hash. */
  ghost predicate EncodersConfuse(attested: Bundle, presented: Bundle, c: Crypto) {
    attested != presented && c.pythonBytes(attested) == c.goBytes(presented)
  }

  ghost predicate Mistaken(attested: Bundle, presented: Bundle, c: Crypto) {
    HashCollides(attested, presented, c) || EncodersConfuse(attested, presented, c)
  }

  /** The answer is the judge's decision on the findings of a report attested for exactly the
      release, source and policy of the request, inside its validity window. */
  ghost predicate BackedBy(a: Answer, r: Record, c: Crypto) {
    && a.req.signed.bundle == BundleIn(r, c)
    && a.response.decision == Some(Judge(r.report.findings))
    && a.response.authoritativeBlockers == CountOf(r.report.findings, IsBlocker)
    && a.response.authoritativeMedium == CountOf(r.report.findings, IsMedium)
    && a.req.releaseId == r.report.releaseId && a.req.sourceSha256 == r.source
    && a.req.policySha256 == r.report.policySha256
    && r.issued <= a.now + 30 && a.now < r.issued + r.ttl <= r.issued + 900
    && r.report.evidenceSha256 == Seal(r.report.findings, c)
  }

  lemma AcceptedIsBacked(a: Answer, r: Record, setup: Setup)
    requires Answers(a, setup) && a.response.accepted
    requires Attestable(r.report, r.source, r.ttl, setup.crypto)
    requires a.req.signed.signature.Signed? ==> a.req.signed.signature.digest == SignedDigest(r, setup.crypto)
    ensures BackedBy(a, r, setup.crypto) || Mistaken(BundleIn(r, setup.crypto), a.req.signed.bundle, setup.crypto)
  {
    hide ResultsOf, CountOf, Judge, Seal, FieldsValid, DigestMatches, ContentsValid;
    VerdictIsJudgement(r.report.findings, setup.crypto);
  }

  /** In every run every accepted answer is backed by an earlier record, unless the encodings of
      the bundle signed and the bundle presented differ and have the same digest, or the two
      encoders write two different bundles alike. */
  lemma AcceptedDecisionsAreJudgements(run: seq<World>, setup: Setup, n: nat, j: nat)
    requires IsRun(run, setup) && n < |run| && j < |run[n].answers| && run[n].answers[j].response.accepted
    ensures var a := run[n].answers[j];
            exists i :: 0 <= i < a.recordsBefore <= |run[n].records| &&
              (BackedBy(a, run[n].records[i], setup.crypto) ||
               Mistaken(BundleIn(run[n].records[i], setup.crypto), a.req.signed.bundle, setup.crypto))
  {
    InvariantHolds(run, setup, n);
    var w, a := run[n], run[n].answers[j];
    assert SignatureIsOnRecord(a, w, setup) && Answers(a, setup);
    assert SignatureHolds(a.req, Verifier(setup.key, setup.keyId), setup.crypto);
    var i :| 0 <= i < a.recordsBefore && a.req.signed.signature.digest == SignedDigest(w.records[i], setup.crypto);
    AcceptedIsBacked(a, w.records[i], setup);
  }

  lemma SameExplanation(code: Code, a: Request, b: Request, v: Verifier, c: Crypto, now: int)
    requires b == a.(opinions := b.opinions) && Explains(code, a, v, c, now)
    ensures Explains(code, b, v, c, now)
  {
  }

  /** Two answers to requests that differ only in the agents' opinions, accepted or not, agree on
      everything except how many opinions were ignored. */
  lemma OpinionsHaveNoInfluence(a: Answer, b: Answer, setup: Setup)
    requires Answers(a, setup) && Answers(b, setup) && a.now == b.now
    requires b.req == a.req.(opinions := b.req.opinions)
    ensures b.response == a.response.(ignoredAgentOpinions := |b.req.opinions|)
  {
    var v := Verifier(setup.key, setup.keyId);
    assert Verified(a.req, v, setup.crypto, a.now) <==> Verified(b.req, v, setup.crypto, b.now);
    hide Verified, Explains;
    if !a.response.accepted {
      var code :| a.response == Rejected(a.req, code) && Explains(code, a.req, v, setup.crypto, a.now);
      var other :| b.response == Rejected(b.req, other) && Explains(other, b.req, v, setup.crypto, b.now);
      SameExplanation(code, a.req, b.req, v, setup.crypto, a.now);
      OneExplanation(code, other, b.req, v, setup.crypto, b.now);
    }
  }
}
