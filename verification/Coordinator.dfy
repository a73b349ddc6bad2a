/** `RemediationCoordinator.run` (src/release_sentinel/remediation/service.py): an agent may
    propose code, and only a fresh evaluation of the resulting tree may decide about it. */
module Coordinator {
  import opened Wrappers
  import opened Sets
  import opened Bytes
  import opened Framing
  import opened Paths
  import opened FileTrees
  import opened Evidence
  import opened Repair
  import opened Materialize

  datatype Report = Report(decision: Decision, findings: seq<Finding>)

  /** What an advisory component may see of a finding. */
  datatype Projection = Projection(
    findingId: string, title: string, severity: Severity, source: string, claim: string, blockingEligible: bool)

  datatype RepairContext = RepairContext(releaseId: string, baseSourceSha256: string, findings: seq<Projection>)

  /** What a proposal commits to (src/release_sentinel/remediation/model.py); its authority is constant. */
  datatype Payload = Payload(releaseId: string, baseSha256: string, producer: string, files: map<string, string>)

  datatype RepairProposal = RepairProposal(payload: Payload, sha256: string)

  datatype Outcome = Outcome(
    releaseId: string, originalSha256: string, repairedSha256: Option<string>,
    before: Report, after: Option<Report>, proposal: Option<RepairProposal>, reevaluatedFromScratch: bool)

  /** A request for evaluation: a release id, the tree to evaluate and the commit it came from. */
  datatype Request = Request(releaseId: string, files: Files, commit: Option<string>)

  /** The constructor of `RepairProposal`: it refuses an empty patch and a base that is no digest. */
  function Propose(payload: Payload, digestOf: Payload -> string): (r: Result<RepairProposal, RepairError>)
    ensures r.Ok? <==> payload.files != map[] && |payload.baseSha256| == 64
  {
    if payload.files == map[] then Err(EmptyRepair)
    else if |payload.baseSha256| != 64 then Err(BadBaseDigest)
    else Ok(RepairProposal(payload, digestOf(payload)))
  }

  function AdvisoryProjection(findings: seq<Finding>): seq<Projection> {
    seq(|findings|, i requires 0 <= i < |findings| =>
      var f := findings[i];
      Projection(f.findingId, f.title, f.severity, f.source, f.claim, f.Blocking()))
  }

  /** The advisor learns of each finding its name, severity, source and claim, and whether it may
      block: exactly if an item of the platform or of the organization's policy may. */
  lemma ProjectionMeaning(findings: seq<Finding>)
    ensures |AdvisoryProjection(findings)| == |findings|
    ensures forall i :: 0 <= i < |findings| ==>
      var f, seen := findings[i], AdvisoryProjection(findings)[i];
      && seen.findingId == f.findingId && seen.title == f.title && seen.severity == f.severity
      && seen.source == f.source && seen.claim == f.claim
      && (seen.blockingEligible <==>
            exists k :: 0 <= k < |f.evidence| && f.evidence[k].blockingEligible
                        && f.evidence[k].authority in {PLATFORM, ORGANIZATION_POLICY})
  {
  }

  function RepairedId(releaseId: string, digest: string): string {
    releaseId + "-repair-" + if |digest| <= 12 then digest else digest[..12]
  }

  /** The first 12 characters of the digest name the repaired release. */
  lemma RepairedIdMeaning(releaseId: string, digest: string)
    ensures var id, prefix := RepairedId(releaseId, digest), releaseId + "-repair-";
      prefix <= id && id[|prefix|..] <= digest && |id| == |prefix| + if |digest| < 12 then |digest| else 12
  {
    var prefix := releaseId + "-repair-";
    var short := if |digest| <= 12 then digest else digest[..12];
    assert (prefix + short)[|prefix|..] == short;
  }

  /** The constructor normalises the allowlist and refuses an empty one. */
  ghost predicate IsAllowlist(allowed: set<string>) {
    allowed != {} && forall p :: p in allowed ==> NormalizeRelpath(p) == Ok(p)
  }

  lemma {:induction false} NormalizeAllowlist(order: seq<string>)
    requires forall p :: p in order ==> NormalizeRelpath(p) == Ok(p)
    ensures NormalizeAll(order) == Ok(Elements(order))
  {
    hide NormalizeRelpath;
    if order == [] {
      assert Elements(order) == {};
    } else {
      assert order == [order[0]] + order[1..];
      NormalizeAllowlist(order[1..]);
      assert Elements(order) == {order[0]} + Elements(order[1..]);
    }
  }

  method Items(m: map<string, string>) returns (items: Changes)
    ensures ItemsOf(items, m)
  {
    var order := Walk(m.Keys);
    items := seq(|order|, i requires 0 <= i < |order| && order[i] in m.Keys => (order[i], m[order[i]]));
    forall p | p in m
      ensures exists i :: 0 <= i < |items| && items[i].0 == p
    {
      var i :| 0 <= i < |order| && order[i] == p;
      assert items[i].0 == p;
    }
  }

  /** The temporary directory `tmp` is new, in a directory that exists. */
  ghost predicate IsTemporary(nodes: Nodes, tmp: Path) {
    tmp != [] && tmp !in nodes && PlainPath(tmp) && IsDir(nodes, Parent(tmp))
  }

  function Staged(tmp: Path): Path {
    tmp + ["repository"]
  }

  /** What a repair must be to be materialised. The temporary directory may not lie inside the
      source, for then the copy would contain itself. */
  ghost predicate GoodRepair(
    nodes: Nodes, source: Path, tmp: Path, changes: Changes, allowed: set<string>, sha: Bytes -> string)
  {
    && Acceptable(changes, allowed)
    && !(source <= tmp)
    && WritesFit(nodes, source, Collected(changes, allowed).Keys)
    && var repaired := Overlay(FilesAt(nodes, source), Collected(changes, allowed));
       FilesFit(repaired) && sha(TreeStream(repaired)) != sha(TreeStream(FilesAt(nodes, source)))
  }

  lemma TemporaryIsStable(nodes: Nodes, tmp: Path)
    requires ValidNodes(nodes) && IsTemporary(nodes, tmp)
    ensures ValidNodes(nodes[tmp := Dir]) && Staged(tmp) !in nodes[tmp := Dir] && PlainPath(Staged(tmp))
    ensures forall p :: p in nodes ==> !(tmp <= p)
    ensures forall p :: p < tmp ==> IsDir(nodes, p)
  {
    forall p | p in nodes ensures !(tmp <= p) {
      if tmp <= p {
        NothingBelow(nodes, tmp, p);
      }
    }
    forall p | p < tmp ensures IsDir(nodes, p) {
      assert p == Parent(tmp)[..|p|];
      if |p| < |Parent(tmp)| {
        AncestorsAreDirs(nodes, Parent(tmp), |p|);
      } else {
        assert p == Parent(tmp);
      }
    }
    assert PlainName("repository");
    assert tmp <= Staged(tmp);
  }

  lemma SameSource(nodes: Nodes, source: Path, tmp: Path)
    requires ValidNodes(nodes) && IsTemporary(nodes, tmp)
    ensures RepositoryAt(nodes[tmp := Dir], source) == RepositoryAt(nodes, source)
  {
    hide Split;
    forall q ensures Leaf(nodes[tmp := Dir], source + Split(q)) == Leaf(nodes, source + Split(q)) {
    }
    SameTree(nodes[tmp := Dir], source, nodes, source);
  }

  lemma StagePrefix(nodes: Nodes, tmp: Path, k: nat)
    requires ValidNodes(nodes) && IsTemporary(nodes, tmp) && k <= |tmp|
    ensures IsDir(nodes[tmp := Dir], Staged(tmp)[..k])
  {
    TemporaryIsStable(nodes, tmp);
    var p := Staged(tmp)[..k];
    assert p == tmp[..k];
    if k == |tmp| {
      assert p == tmp;
    } else {
      assert p < tmp;
      assert IsDir(nodes, p);
    }
  }

  /** The staging directory can receive a copy of the source exactly if it is not inside it. */
  lemma CanStage(nodes: Nodes, source: Path, tmp: Path)
    requires ValidNodes(nodes) && IsTemporary(nodes, tmp) && source in nodes
    ensures CanCopy(nodes[tmp := Dir], source, Staged(tmp)) <==> !(source <= tmp)
  {
    TemporaryIsStable(nodes, tmp);
    var created, staged := nodes[tmp := Dir], Staged(tmp);
    forall k | 0 <= k < |staged| ensures IsDir(created, staged[..k]) {
      StagePrefix(nodes, tmp, k);
    }
    assert staged[..|tmp|] == tmp;
    assert source <= tmp ==> source <= staged && |source| < |tmp| by {
      assert tmp[..|tmp|] == tmp;
    }
    assert source < staged ==> source <= tmp by {
      if source < staged {
        assert source == staged[..|source|];
        assert source == tmp[..|source|];
      }
    }
  }

  /** Inside `run` a good repair is exactly one that can be materialised. */
  lemma GoodIsAccepted(
    nodes: Nodes, source: Path, tmp: Path, changes: Changes, allowed: set<string>, sha: Bytes -> string)
    requires ValidNodes(nodes) && IsTemporary(nodes, tmp) && Readable(nodes, source) && Acceptable(changes, allowed)
    ensures Readable(nodes[tmp := Dir], source)
    ensures Stages(nodes[tmp := Dir], source, Staged(tmp), sha(TreeStream(FilesAt(nodes, source))),
                   Collected(changes, allowed), sha) <==>
            GoodRepair(nodes, source, tmp, changes, allowed, sha)
  {
    CanStage(nodes, source, tmp);
    SameSource(nodes, source, tmp);
    var created := nodes[tmp := Dir];
    assert RepositoryAt(created, source).files == RepositoryAt(nodes, source).files;
    assert RepositoryAt(created, source).links == RepositoryAt(nodes, source).links;
    hide CanCopy, FilesAt, LinksAt, Split, Collected, Overlay, FilesFit, TreeStream, Acceptable, Staged, WritesFit;
    if !(source <= tmp) {
      forall q ensures IsDir(created, source + Split(q)) <==> IsDir(nodes, source + Split(q)) {
      }
      SameFit(created, source, nodes, source, Collected(changes, allowed).Keys);
    }
  }

  /** What the remediator is asked, given the first evaluation. */
  function ContextOf(releaseId: string, digest: string, before: Report): RepairContext {
    RepairContext(releaseId, digest, AdvisoryProjection(before.findings))
  }

  lemma ContextMeaning(releaseId: string, digest: string, before: Report)
    ensures var seen := ContextOf(releaseId, digest, before);
      && seen.releaseId == releaseId && seen.baseSourceSha256 == digest && |seen.findings| == |before.findings|
      && forall i :: 0 <= i < |before.findings| ==>
           seen.findings[i].findingId == before.findings[i].findingId &&
           seen.findings[i].blockingEligible == before.findings[i].Blocking()
  {
  }

  /** A passing release is left alone. Otherwise a good repair leads to exactly one more
      evaluation, of exactly the source overridden at the validated paths and for the same
      commit, and the outcome carries that evaluation's report and the proposal; a bad one is
      never evaluated. The file system ends as it
      began, the temporary directory being removed. The second validation inside the
      materialisation never fails. */
  method Run(
    fs: FileSystem, releaseId: string, source: Path, commit: Option<string>, tmp: Path, debris: Nodes,
    evaluator: Request -> Report, remediator: RepairContext -> Changes, producer: string,
    allowed: set<string>, sha: Bytes -> string, digestOf: Payload -> string)
    returns (r: Result<Outcome, RepairError>, evaluated: seq<Request>)
    requires fs.Valid() && IsTemporary(fs.nodes, tmp) && HangsBelow(debris, Staged(tmp)) && IsAllowlist(allowed)
    modifies fs
    ensures fs.nodes == old(fs.nodes)
    ensures !Readable(fs.nodes, source) ==> r.Err? && evaluated == []
    ensures Readable(fs.nodes, source) ==>
              var files := FilesAt(fs.nodes, source);
              var digest := sha(TreeStream(files));
              var first := Request(releaseId, files, commit);
              var before := evaluator(first);
              var changes := remediator(ContextOf(releaseId, digest, before));
              var repaired := Overlay(files, Collected(changes, allowed));
              var second := Request(RepairedId(releaseId, sha(TreeStream(repaired))), repaired, commit);
              var payload := Payload(releaseId, digest, producer, Collected(changes, allowed));
              var proposal := RepairProposal(payload, digestOf(payload));
              var good := |digest| == 64 && GoodRepair(fs.nodes, source, tmp, changes, allowed, sha);
              && (before.decision.GO? ==>
                    && evaluated == [first]
                    && r == Ok(Outcome(releaseId, digest, None, before, None, None, false)))
              && (!before.decision.GO? && good ==>
                    && repaired != files
                    && evaluated == [first, second]
                    && r == Ok(Outcome(releaseId, digest, Some(sha(TreeStream(repaired))), before,
                                       Some(evaluator(second)), Some(proposal), true)))
              && (!before.decision.GO? && !good ==> r.Err? && evaluated == [first])
  {
    hide TreeStream, FilesAt, LinksAt, Collected, Acceptable, NormalizeAll, NormalizeRelpath, Overlay, ItemsOf, Lists;
    hide FilesFit, Stages, Readable, GoodRepair, ValidNodes, AddsAt;
    evaluated := [];
    var hashed := HashRoot(fs, source, sha);
    if hashed.Err? {
      return Err(hashed.error), evaluated;
    }
    var originalSha := hashed.value;
    var files := FilesAt(fs.nodes, source);
    var first := Request(releaseId, files, commit);
    var before := evaluator(first);
    evaluated := evaluated + [first];
    if before.decision.GO? {
      return Ok(Outcome(releaseId, originalSha, None, before, None, None, false)), evaluated;
    }
    var rawChanges := remediator(ContextOf(releaseId, originalSha, before));
    var validated := ValidateChanges(rawChanges, allowed);
    if validated.Err? {
      BadIsNotGood(fs.nodes, source, tmp, rawChanges, allowed, sha);
      return Err(validated.error), evaluated;
    }
    SomethingCollected(rawChanges, allowed);
    var proposal := Propose(Payload(releaseId, originalSha, producer, validated.value), digestOf);
    if proposal.Err? {
      return Err(proposal.error), evaluated;
    }
    var changes := Items(proposal.value.payload.files);
    var allowedPaths := Walk(allowed);
    ProposalAccepted(rawChanges, allowed, changes, allowedPaths);

    ghost var outside := fs.nodes;
    TemporaryIsStable(outside, tmp);
    SameSource(outside, source, tmp);
    GoodIsAccepted(outside, source, tmp, rawChanges, allowed, sha);
    fs.nodes := fs.nodes[tmp := Dir];
    ghost var created := fs.nodes;
    assert FilesAt(created, source) == RepositoryAt(created, source).files;
    assert RepositoryAt(outside, source).files == files;
    var repaired := MaterializeRepair(fs, source, Staged(tmp), originalSha, changes, allowedPaths, sha, debris);
    assert repaired.Ok? <==> GoodRepair(outside, source, tmp, rawChanges, allowed, sha);
    if repaired.Ok? {
      var tree := FilesAt(fs.nodes, Staged(tmp));
      assert tree == RepositoryAt(fs.nodes, Staged(tmp)).files;
      var second := Request(RepairedId(releaseId, repaired.value), tree, commit);
      var after := evaluator(second);
      evaluated := evaluated + [second];
      r := Ok(Outcome(releaseId, originalSha, Some(repaired.value), before, Some(after), Some(proposal.value), true));
    } else {
      r := Err(repaired.error);
    }
    // The temporary directory is removed on every way out.
    RemovingRestores(outside, fs.nodes, tmp);
    fs.nodes := map p | p in fs.nodes && !(tmp <= p) :: fs.nodes[p];
  }

  lemma SomethingCollected(changes: Changes, allowed: set<string>)
    requires Acceptable(changes, allowed)
    ensures Collected(changes, allowed) != map[]
  {
    var last := changes[|changes| - 1];
    assert CheckChange(last, allowed).Ok?;
    assert CheckChange(last, allowed).value in Collected(changes, allowed);
  }

  lemma BadIsNotGood(
    nodes: Nodes, source: Path, tmp: Path, changes: Changes, allowed: set<string>, sha: Bytes -> string)
    requires !Acceptable(changes, allowed)
    ensures !GoodRepair(nodes, source, tmp, changes, allowed, sha)
  {
  }

  lemma RemovingRestores(outside: Nodes, nodes: Nodes, tmp: Path)
    requires ValidNodes(outside) && IsTemporary(outside, tmp) && AddsAt(outside[tmp := Dir], nodes, Staged(tmp))
    ensures (map p | p in nodes && !(tmp <= p) :: nodes[p]) == outside
  {
    TemporaryIsStable(outside, tmp);
    forall p | p in nodes ensures tmp <= p || p in outside {
      NewIsTemporary(outside, nodes, tmp, p);
    }
    forall p | p in outside ensures p in nodes && nodes[p] == outside[p] && !(tmp <= p) {
      assert p in outside[tmp := Dir];
    }
  }

  lemma NewIsTemporary(outside: Nodes, nodes: Nodes, tmp: Path, p: Path)
    requires ValidNodes(outside) && IsTemporary(outside, tmp) && AddsAt(outside[tmp := Dir], nodes, Staged(tmp))
    requires p in nodes
    ensures tmp <= p || p in outside
  {
    TemporaryIsStable(outside, tmp);
    if p < Staged(tmp) {
      OnOnePath(p, tmp, Staged(tmp));
      if p <= tmp {
        StrictlyAbove(p, tmp);
      }
      assert p < tmp ==> IsDir(outside, p);
    } else if Staged(tmp) <= p {
      assert p[..|tmp|] == Staged(tmp)[..|tmp|] == tmp;
    }
  }

  lemma StrictlyAbove(p: Path, q: Path)
    requires p <= q
    ensures p < q || q <= p
  {
    assert p == q[..|p|] && q[..|q|] == q;
  }

  lemma ProposalAccepted(changes: Changes, allowed: set<string>, proposal: Changes, allowedPaths: seq<string>)
    requires IsAllowlist(allowed) && Acceptable(changes, allowed)
    requires ItemsOf(proposal, Collected(changes, allowed)) && Lists(allowedPaths, allowed)
    ensures NormalizeAll(allowedPaths) == Ok(allowed)
    ensures Acceptable(proposal, allowed) && Collected(proposal, allowed) == Collected(changes, allowed)
  {
    hide NormalizeRelpath, NormalizeAll, Collected, Acceptable, ItemsOf;
    NormalizeAllowlist(allowedPaths);
    assert Elements(allowedPaths) == allowed;
    ValidationIdempotent(changes, allowed, proposal);
  }
}
