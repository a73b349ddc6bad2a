/** Applying a repair to a copy of the source tree (`materialize_repair` in
    src/release_sentinel/remediation/service.py). Source and destination are resolved paths of
    one file system, so the destination may lie inside the source. The hash is a parameter. */
module Materialize {
  import opened Wrappers
  import opened Bytes
  import opened Framing
  import opened Paths
  import opened FileTrees
  import opened Repair

  class FileSystem {
    var nodes: Nodes

    ghost predicate Valid()
      reads this
    {
      ValidNodes(nodes)
    }
  }

  /** One path names a directory above another. */
  predicate Above(p: string, q: string) {
    Split(p) < Split(q)
  }

  /** No file is also a directory. */
  ghost predicate PrefixFree(paths: set<string>) {
    forall p, q :: p in paths && q in paths ==> !Above(p, q)
  }

  /** The tree with the changed files replaced or added. */
  function Overlay(files: Files, changes: map<string, string>): Files {
    files + map p | p in changes :: Utf8(changes[p])
  }

  /** The repaired tree, in terms of the changes proposed: under each path the content of the last
      accepted change of it, and what the source has where there is none. */
  lemma OverlayMeaning(files: Files, changes: Changes, allowed: set<string>, q: string)
    ensures var repaired := Overlay(files, Collected(changes, allowed));
      && (forall i: nat :: i < |changes| && LastFor(changes, allowed, i, q) ==>
            q in repaired && repaired[q] == Utf8(changes[i].1))
      && ((forall i: nat :: i < |changes| ==> !LastFor(changes, allowed, i, q)) ==>
            (q in repaired <==> q in files) && (q in files ==> repaired[q] == files[q]))
  {
    hide LastFor, Utf8;
    CollectedMeaning(changes, allowed, q);
  }

  /** A directory walk: each path once, in no particular order. */
  method Walk(paths: set<string>) returns (order: seq<string>)
    ensures Lists(order, paths)
  {
    order := [];
    var rest := paths;
    while rest != {}
      invariant Lists(order, paths - rest) && rest <= paths
      decreases rest
    {
      var p :| p in rest;
      order := order + [p];
      rest := rest - {p};
    }
    assert paths - rest == paths;
  }

  function NormalizeAll(paths: seq<string>): Result<set<string>, PathError> {
    if paths == [] then Ok({})
    else
      match NormalizeRelpath(paths[0])
      case Err(e) => Err(e)
      case Ok(p) =>
        match NormalizeAll(paths[1..])
        case Err(e) => Err(e)
        case Ok(rest) => Ok({p} + rest)
  }

  /** All paths must be acceptable, and become a set of their normal forms. */
  lemma {:induction false} NormalizeAllMeaning(paths: seq<string>)
    ensures NormalizeAll(paths).Ok? <==> forall i :: 0 <= i < |paths| ==> NormalizeRelpath(paths[i]).Ok?
    ensures NormalizeAll(paths).Ok? ==>
      forall p :: p in NormalizeAll(paths).value <==>
                  exists i :: 0 <= i < |paths| && NormalizeRelpath(paths[i]) == Ok(p)
  {
    hide NormalizeRelpath;
    if paths == [] {
    } else {
      var rest := paths[1..];
      NormalizeAllMeaning(rest);
      assert forall i :: 0 <= i < |rest| ==> rest[i] == paths[i + 1];
      assert forall i :: 0 < i < |paths| ==> paths[i] == rest[i - 1];
    }
  }

  /** A directory that `repository_sha256` can hash. */
  ghost predicate Readable(nodes: Nodes, root: Path) {
    IsDir(nodes, root) && LinksAt(nodes, root) == {} && FilesFit(FilesAt(nodes, root))
  }

  method HashRoot(fs: FileSystem, root: Path, sha: Bytes -> string) returns (r: Result<string, RepairError>)
    ensures r.Ok? <==> Readable(fs.nodes, root)
    ensures r.Ok? ==> r.value == sha(TreeStream(FilesAt(fs.nodes, root)))
    ensures r.Err? ==> r.error.BadRepository? || r.error.NotADirectory?
  {
    if !IsDir(fs.nodes, root) {
      return Err(NotADirectory);
    }
    var repo := RepositoryAt(fs.nodes, root);
    var walk := Walk(repo.files.Keys + repo.links);
    var hashed := RepositorySha256(repo, walk, sha);
    match hashed {
      case Ok(digest) => return Ok(digest);
      case Err(cause) => return Err(BadRepository(cause));
    }
  }

  // ----- Creating one node -----

  function Prefixes(p: Path): set<Path> {
    set k: nat | k < |p| :: p[..k]
  }

  /** `mkdir(parents=True, exist_ok=True)` of the parent. */
  function WithParents(nodes: Nodes, p: Path): Nodes {
    (map a | a in Prefixes(p) :: Dir) + nodes
  }

  function Placed(nodes: Nodes, p: Path, node: Node): Nodes {
    WithParents(nodes, p)[p := node]
  }

  /** Something on the way to `p` is no directory. */
  predicate Blocked(nodes: Nodes, p: Path) {
    exists k :: 0 <= k < |p| && p[..k] in nodes && !nodes[p[..k]].Dir?
  }

  predicate Writable(nodes: Nodes, p: Path) {
    !Blocked(nodes, p) && !IsDir(nodes, p)
  }

  lemma PrefixesOf(p: Path, a: Path)
    ensures a in Prefixes(p) <==> a < p
  {
    if a < p {
      assert a == p[..|a|];
    }
  }

  lemma PlacedValid(nodes: Nodes, p: Path, node: Node)
    requires ValidNodes(nodes) && PlainPath(p) && Writable(nodes, p)
    ensures ValidNodes(Placed(nodes, p, node))
  {
    var after := Placed(nodes, p, node);
    forall q | q in after
      ensures PlainPath(q)
      ensures q != [] ==> IsDir(after, Parent(q))
    {
      PrefixesOf(p, q);
      if q != [] {
        PrefixesOf(p, Parent(q));
        if q <= p {
          assert Parent(q) == p[..|q| - 1];
        }
      }
    }
  }

  /** A written file shows under its name, and nothing else changes in the tree. */
  lemma WriteShows(nodes: Nodes, root: Path, q: string, data: Bytes)
    requires Writable(nodes, root + Split(q))
    ensures var after := Placed(nodes, root + Split(q), File(data));
            && FilesAt(after, root) == FilesAt(nodes, root)[q := data]
            && LinksAt(after, root) == LinksAt(nodes, root) - {q}
  {
    hide FilesAt, LinksAt, Placed, Split, Writable;
    var after := Placed(nodes, root + Split(q), File(data));
    forall x
      ensures x in FilesAt(after, root) <==> x == q || x in FilesAt(nodes, root)
      ensures x in FilesAt(after, root) ==>
                FilesAt(after, root)[x] == if x == q then data else FilesAt(nodes, root)[x]
      ensures x in LinksAt(after, root) <==> x != q && x in LinksAt(nodes, root)
    {
      WriteShowsAt(nodes, root, q, data, x);
    }
    assert FilesAt(after, root) == FilesAt(nodes, root)[q := data];
    assert LinksAt(after, root) == LinksAt(nodes, root) - {q};
  }

  lemma WriteShowsAt(nodes: Nodes, root: Path, q: string, data: Bytes, x: string)
    requires Writable(nodes, root + Split(q))
    ensures var after := Placed(nodes, root + Split(q), File(data));
            && (x in FilesAt(after, root) <==> x == q || x in FilesAt(nodes, root))
            && (x in FilesAt(after, root) ==>
                  FilesAt(after, root)[x] == if x == q then data else FilesAt(nodes, root)[x])
            && (x in LinksAt(after, root) <==> x != q && x in LinksAt(nodes, root))
  {
    var p, place := root + Split(q), root + Split(x);
    hide FilesAt, LinksAt, Split;
    FileNamed(nodes, root, x);
    FileNamed(Placed(nodes, p, File(data)), root, x);
    PrefixesOf(p, place);
    if place < p {
      assert place == p[..|place|];
    }
    if place == p {
      assert Split(x) == place[|root|..] == Split(q);
      JoinOfSplit(x);
      JoinOfSplit(q);
    }
  }

  // ----- Writing the changes -----

  /** Only what is strictly below `root` differs. */
  ghost predicate OnlyBelow(before: Nodes, after: Nodes, root: Path) {
    forall p :: !(root < p) ==> (p in before <==> p in after) && (p in before ==> after[p] == before[p])
  }

  /** Writes one file below `root`. The target is resolved first; it never leaves the root, so
      neither the escape error nor the symlink error can occur. */
  method WriteFile(fs: FileSystem, root: Path, rel: string, content: string) returns (r: Result<(), RepairError>)
    requires fs.Valid() && IsDir(fs.nodes, root) && LinksAt(fs.nodes, root) == {}
    requires PlainParts(Split(rel))
    modifies fs
    ensures fs.Valid()
    ensures r.Ok? <==> !HasNul(rel) && Writable(old(fs.nodes), root + Split(rel))
    ensures r.Ok? ==> fs.nodes == Placed(old(fs.nodes), root + Split(rel), File(Utf8(content)))
    ensures r.Err? ==> (r.error.WriteConflict? || r.error.EmbeddedNul?) && fs.nodes == old(fs.nodes)
  {
    hide Utf8, Split, Placed;
    if HasNul(rel) {
      // `resolve` raises.
      return Err(EmbeddedNul);
    }
    var target := Resolve(root, Split(rel));
    ResolvePlain(root, Split(rel));
    if !(root <= target) {
      return Err(EscapedStagingRoot);
    }
    NoLinkBelow(fs.nodes, root, target);
    if IsLink(fs.nodes, target) {
      return Err(ReplacesSymlink);
    }
    if Blocked(fs.nodes, target) || IsDir(fs.nodes, target) {
      return Err(WriteConflict);
    }
    PlainTarget(fs.nodes, root, rel);
    PlacedValid(fs.nodes, target, File(Utf8(content)));
    fs.nodes := Placed(fs.nodes, target, File(Utf8(content)));
    return Ok(());
  }

  lemma NoLinkBelow(nodes: Nodes, root: Path, p: Path)
    requires ValidNodes(nodes) && LinksAt(nodes, root) == {} && root < p
    ensures !IsLink(nodes, p)
  {
    if p in nodes {
      EveryFileIsNamed(nodes, root, p);
    }
  }

  lemma PlainTarget(nodes: Nodes, root: Path, rel: string)
    requires ValidNodes(nodes) && root in nodes && PlainParts(Split(rel)) && !HasNul(rel)
    ensures PlainPath(root + Split(rel))
  {
    SplitHasNoSlash(rel);
    forall i | 0 <= i < |root + Split(rel)| ensures PlainName((root + Split(rel))[i]) {
      if i >= |root| {
        assert PlainComponent(Split(rel)[i - |root|]);
      }
    }
  }

  /** The files of `changes` named by `order`. */
  function Written(changes: map<string, string>, order: seq<string>): map<string, string> {
    map p | p in changes && p in order :: changes[p]
  }

  /** Directories only ever appear above a written file. */
  ghost predicate DirsFrom(start: Nodes, nodes: Nodes, root: Path, order: seq<string>) {
    && (forall p :: IsDir(start, p) ==> IsDir(nodes, p))
    && (forall p :: IsDir(nodes, p) ==> IsDir(start, p) || exists w :: w in order && p < root + Split(w))
  }

  /** What holds once the files named by `order` are written. */
  ghost predicate WrittenUpTo(
    start: Nodes, nodes: Nodes, root: Path, changes: map<string, string>, order: seq<string>)
  {
    && ValidNodes(nodes)
    && OnlyBelow(start, nodes, root)
    && LinksAt(nodes, root) == {}
    && FilesAt(nodes, root) == Overlay(FilesAt(start, root), Written(changes, order))
    && DirsFrom(start, nodes, root, order)
    && forall w :: w in order ==> !HasNul(w)
  }

  /** Together with the files already there the changes form a tree, and none of them names a
      directory or has a NUL in its name. */
  ghost predicate WritesFit(nodes: Nodes, root: Path, paths: set<string>) {
    && PrefixFree(FilesAt(nodes, root).Keys + paths)
    && forall q :: q in paths ==> !HasNul(q) && !IsDir(nodes, root + Split(q))
  }

  lemma WrittenNone(start: Nodes, root: Path, changes: map<string, string>)
    requires ValidNodes(start) && LinksAt(start, root) == {}
    ensures WrittenUpTo(start, start, root, changes, [])
  {
    assert Written(changes, []) == map[];
    assert Overlay(FilesAt(start, root), map[]) == FilesAt(start, root);
  }

  lemma WrittenOneMore(
    start: Nodes, nodes: Nodes, root: Path, changes: map<string, string>, order: seq<string>, q: string)
    requires WrittenUpTo(start, nodes, root, changes, order) && q in changes && PlainParts(Split(q))
    requires IsDir(start, root) && !HasNul(q) && Writable(nodes, root + Split(q))
    ensures WrittenUpTo(start, Placed(nodes, root + Split(q), File(Utf8(changes[q]))), root, changes, order + [q])
  {
    hide Placed, FilesAt, LinksAt, Utf8, Split, Writable, Overlay, Written;
    var target := root + Split(q);
    PlainTarget(nodes, root, q);
    PlacedValid(nodes, target, File(Utf8(changes[q])));
    WriteShows(nodes, root, q, Utf8(changes[q]));
    OverlayOneMore(FilesAt(start, root), changes, order, q);
    PlacedBelow(nodes, root, q, File(Utf8(changes[q])));
    DirsOneMore(start, nodes, root, order, q, File(Utf8(changes[q])));
    hide ValidNodes, DirsFrom, OnlyBelow;
    OnlyBelowTwice(start, nodes, Placed(nodes, target, File(Utf8(changes[q]))), root);
  }

  lemma OnlyBelowTwice(a: Nodes, b: Nodes, c: Nodes, root: Path)
    requires OnlyBelow(a, b, root) && OnlyBelow(b, c, root)
    ensures OnlyBelow(a, c, root)
  {
  }

  lemma DirsOneMore(start: Nodes, nodes: Nodes, root: Path, order: seq<string>, q: string, file: Node)
    requires DirsFrom(start, nodes, root, order) && Writable(nodes, root + Split(q)) && file.File?
    ensures DirsFrom(start, Placed(nodes, root + Split(q), file), root, order + [q])
  {
    hide Placed, Split, Writable;
    var target := root + Split(q);
    var after := Placed(nodes, target, file);
    assert q in order + [q];
    forall p
      ensures IsDir(start, p) ==> IsDir(after, p)
      ensures IsDir(after, p) ==> IsDir(start, p) || exists w :: w in order + [q] && p < root + Split(w)
    {
      PlacedDirs(nodes, target, file, p);
      if IsDir(nodes, p) && !IsDir(start, p) {
        var w :| w in order && p < root + Split(w);
        assert w in order + [q];
      }
    }
  }

  lemma PlacedDirs(nodes: Nodes, target: Path, file: Node, p: Path)
    requires Writable(nodes, target) && file.File?
    ensures IsDir(Placed(nodes, target, file), p) <==> IsDir(nodes, p) || p < target
  {
    PrefixesOf(target, p);
    if p < target {
      assert p == target[..|p|];
    }
  }

  lemma PlacedBelow(nodes: Nodes, root: Path, q: string, file: Node)
    requires IsDir(nodes, root) && ValidNodes(nodes) && Writable(nodes, root + Split(q))
    ensures OnlyBelow(nodes, Placed(nodes, root + Split(q), file), root)
  {
    var target := root + Split(q);
    forall p | !(root < p) && p < target ensures p in nodes {
      OnOnePath(p, root, target);
      assert p == root[..|p|];
      if |p| < |root| {
        AncestorsAreDirs(nodes, root, |p|);
      } else {
        assert root[..|p|] == root;
      }
    }
    forall p ensures p in Prefixes(target) <==> p < target {
      PrefixesOf(target, p);
    }
  }

  lemma OverlayOneMore(start: Files, changes: map<string, string>, order: seq<string>, q: string)
    requires q in changes
    ensures Overlay(start, Written(changes, order + [q])) ==
            Overlay(start, Written(changes, order))[q := Utf8(changes[q])]
  {
    hide Utf8;
    assert Written(changes, order + [q]) == Written(changes, order)[q := changes[q]];
  }

  lemma NoFileAbove(nodes: Nodes, root: Path, p: string, q: string)
    requires ValidNodes(nodes) && p in FilesAt(nodes, root) && q in FilesAt(nodes, root)
    ensures !Above(p, q)
  {
    hide FilesAt, Split;
    FileNamed(nodes, root, p);
    FileNamed(nodes, root, q);
    var above, below := root + Split(p), root + Split(q);
    if Above(p, q) {
      assert above == below[..|above|];
      AncestorsAreDirs(nodes, below, |above|);
    }
  }

  lemma ValidIsPrefixFree(nodes: Nodes, root: Path)
    requires ValidNodes(nodes)
    ensures PrefixFree(FilesAt(nodes, root).Keys)
  {
    hide FilesAt, Above;
    forall p, q | p in FilesAt(nodes, root) && q in FilesAt(nodes, root) ensures !Above(p, q) {
      NoFileAbove(nodes, root, p, q);
    }
  }

  /** A file that cannot be written is one that never fitted. */
  lemma ConflictIsFinal(
    start: Nodes, nodes: Nodes, root: Path, changes: map<string, string>, order: seq<string>, q: string)
    requires WrittenUpTo(start, nodes, root, changes, order) && q in changes && IsDir(start, root)
    requires forall w :: w in order ==> w in changes
    requires HasNul(q) || !Writable(nodes, root + Split(q))
    ensures !WritesFit(start, root, changes.Keys)
  {
    hide FilesAt, LinksAt, Split, Above, Written, PrefixFree, Overlay;
    var target := root + Split(q);
    if HasNul(q) {
    } else if IsDir(nodes, target) {
      if !IsDir(start, target) {
        var w :| w in order && target < root + Split(w);
        BothChanged(start, root, changes, q, w);
      }
    } else {
      var k :| 0 <= k < |target| && target[..k] in nodes && !nodes[target[..k]].Dir?;
      BlockedByFile(nodes, root, q, k);
      WasFileOrChange(start, root, changes, order, q, JoinPath(Split(q)[..k - |root|]));
    }
  }

  lemma BothChanged(start: Nodes, root: Path, changes: map<string, string>, q: string, w: string)
    requires q in changes && w in changes && root + Split(q) < root + Split(w)
    ensures !PrefixFree(FilesAt(start, root).Keys + changes.Keys)
  {
    assert Split(w) == (root + Split(w))[|root|..] && Split(q) == (root + Split(q))[|root|..];
    assert Above(q, w);
  }

  lemma WasFileOrChange(
    start: Nodes, root: Path, changes: map<string, string>, order: seq<string>, q: string, x: string)
    requires q in changes && x in Overlay(FilesAt(start, root), Written(changes, order)) && Above(x, q)
    ensures !PrefixFree(FilesAt(start, root).Keys + changes.Keys)
  {
    hide FilesAt, Above;
    assert x in FilesAt(start, root).Keys + changes.Keys;
  }

  lemma BlockedByFile(nodes: Nodes, root: Path, q: string, k: nat)
    requires ValidNodes(nodes) && IsDir(nodes, root) && LinksAt(nodes, root) == {}
    requires k < |root + Split(q)| && (root + Split(q))[..k] in nodes && !IsDir(nodes, (root + Split(q))[..k])
    ensures k > |root|
    ensures var x := JoinPath(Split(q)[..k - |root|]); x in FilesAt(nodes, root) && Above(x, q)
  {
    hide FilesAt, LinksAt, Split;
    var place := (root + Split(q))[..k];
    assert k <= |root| ==> place == root[..k];
    assert root[..|root|] == root;
    if k < |root| {
      AncestorsAreDirs(nodes, root, k);
    }
    assert place == root + Split(q)[..k - |root|];
    assert place[|root|..] == Split(q)[..k - |root|];
    NoLinkBelow(nodes, root, place);
    EveryFileIsNamed(nodes, root, place);
    assert forall i :: 0 <= i < k - |root| ==> Split(q)[i] == place[|root| + i];
    SplitJoin(Split(q)[..k - |root|]);
  }

  /** Once everything is written it fitted. */
  lemma AllWrittenFits(start: Nodes, nodes: Nodes, root: Path, changes: map<string, string>, order: seq<string>)
    requires WrittenUpTo(start, nodes, root, changes, order) && Lists(order, changes.Keys)
    ensures WritesFit(start, root, changes.Keys)
    ensures FilesAt(nodes, root) == Overlay(FilesAt(start, root), changes)
  {
    assert Written(changes, order) == changes;
    ValidIsPrefixFree(nodes, root);
    OverlayKeys(FilesAt(start, root), changes);
    forall q | q in changes ensures !HasNul(q) && !IsDir(start, root + Split(q)) {
      FileNamed(nodes, root, q);
    }
  }

  lemma OverlayKeys(files: Files, changes: map<string, string>)
    ensures Overlay(files, changes).Keys == files.Keys + changes.Keys
  {
  }

  /** Writes every change below `root`; it fails exactly when a name has a NUL or the outcome is
      no directory tree. */
  method WriteChanges(fs: FileSystem, root: Path, changes: map<string, string>) returns (r: Result<(), RepairError>)
    requires fs.Valid() && IsDir(fs.nodes, root) && LinksAt(fs.nodes, root) == {}
    requires forall p :: p in changes ==> PlainParts(Split(p))
    modifies fs
    ensures fs.Valid() && OnlyBelow(old(fs.nodes), fs.nodes, root)
    ensures r.Ok? <==> WritesFit(old(fs.nodes), root, changes.Keys)
    ensures r.Ok? ==> RepositoryAt(fs.nodes, root) == Repository(Overlay(FilesAt(old(fs.nodes), root), changes), {})
    ensures r.Err? ==> r.error.WriteConflict? || r.error.EmbeddedNul?
  {
    hide Split, Utf8, PlainParts, Above, PrefixFree, FilesAt, LinksAt, Overlay, Written, Placed, Writable, WritesFit;
    hide Lists;
    var order := Walk(changes.Keys);
    ghost var start := fs.nodes;
    WrittenNone(start, root, changes);
    for i := 0 to |order|
      invariant WrittenUpTo(start, fs.nodes, root, changes, order[..i])
    {
      InOrder(order, changes, i);
      ghost var before := fs.nodes;
      var written := WriteFile(fs, root, order[i], changes[order[i]]);
      if written.Err? {
        ConflictIsFinal(start, fs.nodes, root, changes, order[..i], order[i]);
        return Err(written.error);
      }
      WrittenOneMore(start, before, root, changes, order[..i], order[i]);
    }
    assert order[..|order|] == order;
    AllWrittenFits(start, fs.nodes, root, changes, order);
    return Ok(());
  }

  lemma InOrder(order: seq<string>, changes: map<string, string>, i: nat)
    requires Lists(order, changes.Keys) && i < |order|
    ensures order[i] in changes && (forall w :: w in order[..i] ==> w in changes)
    ensures order[..i + 1] == order[..i] + [order[i]]
  {
  }

  // ----- Copying the source -----

  /** `shutil.copytree` lists a directory before it creates the copy of it. A destination whose
      first component below the source is new is therefore no part of what is copied; one inside
      an existing subdirectory is, and its copy contains a copy of it, without end. */
  predicate Endless(source: Path, destination: Path, nodes: Nodes) {
    source < destination && destination[..|source| + 1] in nodes
  }

  predicate CanCopy(nodes: Nodes, source: Path, destination: Path) {
    destination !in nodes && !Blocked(nodes, destination) && !Endless(source, destination, nodes)
  }

  function CopyOf(nodes: Nodes, source: Path, destination: Path): Nodes {
    map p | p in (set q | q in nodes && source < q :: destination + q[|source|..]) &&
            destination <= p && source + p[|destination|..] in nodes ::
      nodes[source + p[|destination|..]]
  }

  function Copied(nodes: Nodes, source: Path, destination: Path): Nodes {
    Placed(nodes, destination, Dir) + CopyOf(nodes, source, destination)
  }

  /** A tree of nodes strictly below `place`. */
  ghost predicate HangsBelow(nodes: Nodes, place: Path) {
    forall p :: p in nodes ==> place < p && PlainPath(p) && (Parent(p) == place || IsDir(nodes, Parent(p)))
  }

  lemma PlacedAdds(nodes: Nodes, place: Path)
    requires ValidNodes(nodes) && PlainPath(place) && place !in nodes && !Blocked(nodes, place)
    ensures ValidNodes(Placed(nodes, place, Dir)) && IsDir(Placed(nodes, place, Dir), place)
    ensures AddsAt(nodes, Placed(nodes, place, Dir), place)
    ensures forall p :: p in Placed(nodes, place, Dir) ==> !(place < p)
  {
    var base := Placed(nodes, place, Dir);
    PlacedValid(nodes, place, Dir);
    forall p | p in base
      ensures !(place < p)
      ensures p !in nodes ==> p == place || (p < place && base[p].Dir?)
    {
      PrefixesOf(place, p);
      if place < p {
        NothingBelow(nodes, place, p);
      }
    }
  }

  lemma AddedValid(nodes: Nodes, place: Path, more: Nodes)
    requires ValidNodes(nodes) && PlainPath(place) && place !in nodes && !Blocked(nodes, place)
    requires HangsBelow(more, place)
    ensures ValidNodes(Placed(nodes, place, Dir) + more)
    ensures AddsAt(nodes, Placed(nodes, place, Dir) + more, place)
  {
    PlacedAdds(nodes, place);
    hide Placed, Blocked, PlainPath;
    BothValid(nodes, Placed(nodes, place, Dir), place, more);
  }

  lemma BothValid(nodes: Nodes, base: Nodes, place: Path, more: Nodes)
    requires ValidNodes(base) && IsDir(base, place) && AddsAt(nodes, base, place) && HangsBelow(more, place)
    requires forall p :: p in base ==> !(place < p)
    ensures ValidNodes(base + more) && AddsAt(nodes, base + more, place)
  {
    hide PlainPath;
    forall p | p in base + more
      ensures PlainPath(p)
      ensures p != [] ==> IsDir(base + more, Parent(p))
    {
      if p in more {
        assert Parent(p) == place ==> place !in more;
      } else if p != [] {
        assert IsDir(base, Parent(p));
      }
    }
  }

  /** What the copy holds at each place. */
  lemma CopyHolds(nodes: Nodes, source: Path, destination: Path, tail: Path)
    requires tail != []
    ensures destination + tail in CopyOf(nodes, source, destination) <==> source + tail in nodes
    ensures source + tail in nodes ==>
              CopyOf(nodes, source, destination)[destination + tail] == nodes[source + tail]
  {
    assert (destination + tail)[|destination|..] == tail;
    if source + tail in nodes {
      assert source < source + tail && (source + tail)[|source|..] == tail;
    }
  }

  lemma CopyHangs(nodes: Nodes, source: Path, destination: Path)
    requires ValidNodes(nodes) && PlainPath(destination)
    ensures HangsBelow(CopyOf(nodes, source, destination), destination)
  {
    hide PlainPath;
    var copy := CopyOf(nodes, source, destination);
    forall p | p in copy
      ensures destination < p && PlainPath(p)
      ensures Parent(p) == destination || IsDir(copy, Parent(p))
    {
      var q :| q in nodes && source < q && p == destination + q[|source|..];
      assert q == source + q[|source|..];
      CopyHangsAt(nodes, source, destination, q[|source|..]);
    }
  }

  lemma CopyHangsAt(nodes: Nodes, source: Path, destination: Path, tail: Path)
    requires ValidNodes(nodes) && PlainPath(destination) && tail != [] && source + tail in nodes
    ensures PlainPath(destination + tail)
    ensures Parent(destination + tail) == destination ||
            IsDir(CopyOf(nodes, source, destination), Parent(destination + tail))
  {
    hide CopyOf;
    assert forall i :: 0 <= i < |tail| ==> tail[i] == (source + tail)[|source| + i];
    assert Parent(destination + tail) == destination + Parent(tail);
    assert Parent(source + tail) == source + Parent(tail);
    if Parent(tail) == [] {
      assert destination + [] == destination;
    } else {
      CopyHolds(nodes, source, destination, Parent(tail));
    }
  }

  /** The copy is the same tree; below it are the same directories. */
  lemma CopiedIsSame(nodes: Nodes, source: Path, destination: Path)
    requires ValidNodes(nodes) && PlainPath(destination) && CanCopy(nodes, source, destination)
    ensures ValidNodes(Copied(nodes, source, destination)) && IsDir(Copied(nodes, source, destination), destination)
    ensures AddsAt(nodes, Copied(nodes, source, destination), destination)
    ensures RepositoryAt(Copied(nodes, source, destination), destination) == RepositoryAt(nodes, source)
    ensures forall q :: IsDir(Copied(nodes, source, destination), destination + Split(q)) <==>
                        IsDir(nodes, source + Split(q))
  {
    hide Split, CopyOf, Placed, HangsBelow, FilesAt, LinksAt, PlainPath;
    CopyHangs(nodes, source, destination);
    AddedValid(nodes, destination, CopyOf(nodes, source, destination));
    PlacedAdds(nodes, destination);
    forall q
      ensures Leaf(Copied(nodes, source, destination), destination + Split(q)) == Leaf(nodes, source + Split(q))
      ensures IsDir(Copied(nodes, source, destination), destination + Split(q)) <==> IsDir(nodes, source + Split(q))
    {
      CopiedAt(nodes, source, destination, Split(q));
    }
    assert IsDir(Copied(nodes, source, destination), destination) by {
      CopyNotAtRoot(nodes, source, destination);
    }
    hide Copied, Leaf, IsDir;
    SameTree(Copied(nodes, source, destination), destination, nodes, source);
  }

  lemma CopyNotAtRoot(nodes: Nodes, source: Path, destination: Path)
    ensures destination !in CopyOf(nodes, source, destination)
  {
  }

  lemma CopiedAt(nodes: Nodes, source: Path, destination: Path, tail: Path)
    requires ValidNodes(nodes) && CanCopy(nodes, source, destination) && tail != []
    ensures destination + tail in Copied(nodes, source, destination) <==> source + tail in nodes
    ensures source + tail in nodes ==>
              Copied(nodes, source, destination)[destination + tail] == nodes[source + tail]
  {
    CopyHolds(nodes, source, destination, tail);
    NothingBelow(nodes, destination, destination + tail);
    PrefixesOf(destination, destination + tail);
  }

  /** `shutil.copytree`. `debris` is whatever an endless copy leaves behind when it runs into a
      limit. */
  method CopyTree(fs: FileSystem, source: Path, destination: Path, debris: Nodes)
    returns (r: Result<(), RepairError>)
    requires fs.Valid() && PlainPath(destination) && destination !in fs.nodes
    requires HangsBelow(debris, destination)
    modifies fs
    ensures fs.Valid() && AddsAt(old(fs.nodes), fs.nodes, destination)
    ensures r.Ok? <==> CanCopy(old(fs.nodes), source, destination)
    ensures r.Ok? ==> fs.nodes == Copied(old(fs.nodes), source, destination)
    ensures r.Err? ==> r.error.CopyFailed?
  {
    hide Placed, CopyOf;
    if Blocked(fs.nodes, destination) {
      return Err(CopyFailed);
    }
    if Endless(source, destination, fs.nodes) {
      AddedValid(fs.nodes, destination, debris);
      fs.nodes := Placed(fs.nodes, destination, Dir) + debris;
      return Err(CopyFailed);
    }
    CopiedIsSame(fs.nodes, source, destination);
    fs.nodes := Copied(fs.nodes, source, destination);
    return Ok(());
  }

  // ----- The repair -----

  /** What it takes for validated changes to be staged. */
  ghost predicate Stages(
    nodes: Nodes, source: Path, destination: Path, base: string, changes: map<string, string>, sha: Bytes -> string)
  {
    var repaired := Overlay(FilesAt(nodes, source), changes);
    && CanCopy(nodes, source, destination)
    && WritesFit(nodes, source, changes.Keys)
    && FilesFit(repaired) && sha(TreeStream(repaired)) != base
  }

  lemma SameFit(a: Nodes, root: Path, b: Nodes, other: Path, paths: set<string>)
    requires FilesAt(a, root) == FilesAt(b, other)
    requires forall q :: IsDir(a, root + Split(q)) <==> IsDir(b, other + Split(q))
    ensures WritesFit(a, root, paths) <==> WritesFit(b, other, paths)
  {
    hide FilesAt, PrefixFree, Split, IsDir, HasNul;
  }

  lemma WritesFitCopied(nodes: Nodes, source: Path, destination: Path, paths: set<string>)
    requires ValidNodes(nodes) && PlainPath(destination) && CanCopy(nodes, source, destination)
    ensures WritesFit(Copied(nodes, source, destination), destination, paths) <==> WritesFit(nodes, source, paths)
  {
    hide FilesAt, LinksAt, Copied, PrefixFree, Split, IsDir, WritesFit, CanCopy, PlainPath, ValidNodes, AddsAt;
    CopiedIsSame(nodes, source, destination);
    var copied := Copied(nodes, source, destination);
    assert FilesAt(copied, destination) == RepositoryAt(copied, destination).files == FilesAt(nodes, source);
    SameFit(copied, destination, nodes, source, paths);
  }

  lemma AddsThenWrites(before: Nodes, copied: Nodes, after: Nodes, place: Path)
    requires ValidNodes(before) && place !in before
    requires AddsAt(before, copied, place) && OnlyBelow(copied, after, place)
    ensures AddsAt(before, after, place)
  {
    forall p | p in before ensures p in after && after[p] == before[p] {
      if place < p {
        NothingBelow(before, place, p);
      }
    }
  }

  /** From the copy to the hash of the repaired tree. */
  method StageRepair(
    fs: FileSystem, source: Path, destination: Path, base: string, changes: map<string, string>,
    sha: Bytes -> string, debris: Nodes)
    returns (r: Result<string, RepairError>)
    requires fs.Valid() && Readable(fs.nodes, source)
    requires PlainPath(destination) && destination !in fs.nodes && HangsBelow(debris, destination)
    requires forall p :: p in changes ==> PlainParts(Split(p))
    modifies fs
    ensures fs.Valid() && AddsAt(old(fs.nodes), fs.nodes, destination)
    ensures r.Ok? <==> Stages(old(fs.nodes), source, destination, base, changes, sha)
    ensures r.Ok? ==>
              var repaired := Overlay(FilesAt(old(fs.nodes), source), changes);
              && RepositoryAt(fs.nodes, destination) == Repository(repaired, {})
              && r.value == sha(TreeStream(repaired)) != base
    ensures r.Err? ==> !r.error.EscapedStagingRoot? && !r.error.ReplacesSymlink?
  {
    hide Utf8, TreeStream, FilesFit, PlainParts, Split, PrefixFree, HangsBelow, CanCopy;
    hide FilesAt, LinksAt, Copied, Overlay, WritesFit, OnlyBelow, AddsAt, ValidNodes;
    ghost var before := fs.nodes;
    var copied := CopyTree(fs, source, destination, debris);
    if copied.Err? {
      return Err(copied.error);
    }
    CopiedIsSame(before, source, destination);
    WritesFitCopied(before, source, destination, changes.Keys);
    ghost var copy := fs.nodes;
    assert RepositoryAt(copy, destination) == RepositoryAt(before, source);
    var written := WriteChanges(fs, destination, changes);
    AddsThenWrites(before, copy, fs.nodes, destination);
    if written.Err? {
      return Err(written.error);
    }
    assert FilesAt(fs.nodes, destination) == RepositoryAt(fs.nodes, destination).files;
    assert LinksAt(fs.nodes, destination) == RepositoryAt(fs.nodes, destination).links;
    RootKept(copy, fs.nodes, destination);
    var repaired := HashRoot(fs, destination, sha);
    if repaired.Err? {
      return Err(repaired.error);
    }
    if repaired.value == base {
      return Err(NoSourceChange);
    }
    return Ok(repaired.value);
  }

  lemma RootKept(before: Nodes, after: Nodes, root: Path)
    requires OnlyBelow(before, after, root) && IsDir(before, root)
    ensures IsDir(after, root)
  {
  }

  /** The conditions under which a repair of `source` is accepted. */
  ghost predicate RepairAccepted(
    nodes: Nodes, source: Path, destination: Path, base: string, changes: Changes,
    allowed: Result<set<string>, PathError>, sha: Bytes -> string)
  {
    && allowed.Ok?
    && Readable(nodes, source) && sha(TreeStream(FilesAt(nodes, source))) == base
    && Acceptable(changes, allowed.value)
    && Stages(nodes, source, destination, base, Collected(changes, allowed.value), sha)
  }

  /** An accepted repair is the hash of exactly the source overridden at the validated paths.

      In every case nothing that existed is altered or removed, and what is new is the
      destination, what is below it, and directories above it. So no tree changes unless the
      destination lies below its root; after an accepted repair exactly those trees did, the
      source among them if the destination is inside it. */
  method MaterializeRepair(
    fs: FileSystem, source: Path, destination: Path, base: string, changes: Changes,
    allowedPaths: seq<string>, sha: Bytes -> string, debris: Nodes)
    returns (r: Result<string, RepairError>)
    requires fs.Valid() && PlainPath(destination) && HangsBelow(debris, destination)
    modifies fs
    ensures fs.Valid() && AddsAt(old(fs.nodes), fs.nodes, destination)
    ensures destination in old(fs.nodes) ==> fs.nodes == old(fs.nodes)
    ensures r.Ok? <==>
              RepairAccepted(old(fs.nodes), source, destination, base, changes, NormalizeAll(allowedPaths), sha)
    ensures r.Ok? ==>
              var before := FilesAt(old(fs.nodes), source);
              var repaired := Overlay(before, Collected(changes, NormalizeAll(allowedPaths).value));
              && RepositoryAt(fs.nodes, destination) == Repository(repaired, {})
              && r.value == sha(TreeStream(repaired)) && repaired != before
    ensures forall root :: root in old(fs.nodes) && !(root <= destination) ==>
              RepositoryAt(fs.nodes, root) == RepositoryAt(old(fs.nodes), root)
    ensures r.Ok? ==> forall root :: root in old(fs.nodes) ==>
              (FilesAt(fs.nodes, root) == FilesAt(old(fs.nodes), root) <==> !(root <= destination))
    ensures r.Err? ==> !r.error.EscapedStagingRoot? && !r.error.ReplacesSymlink?
  {
    hide Utf8, TreeStream, FilesFit, Collected, Acceptable, NormalizeAll, PlainParts, Split, PrefixFree;
    hide FilesAt, LinksAt, Overlay, Stages, HangsBelow, AddsAt, ValidNodes;
    AddsNothing(fs.nodes, destination);
    var normalized := NormalizeAll(allowedPaths);
    if normalized.Err? {
      return Err(BadPath(normalized.error));
    }
    var allowed := normalized.value;
    var current := HashRoot(fs, source, sha);
    if current.Err? {
      return Err(current.error);
    }
    if current.value != base {
      return Err(BaseMismatch);
    }
    var validated := ValidateChanges(changes, allowed);
    if validated.Err? {
      ValidationErrors(changes, allowed, validated.error);
      return Err(validated.error);
    }
    if destination in fs.nodes {
      OccupiedRefused(fs.nodes, source, destination, base, validated.value, sha);
      return Err(DestinationExists);
    }
    forall p | p in validated.value ensures PlainParts(Split(p)) {
      CollectedAllowed(changes, allowed, p);
    }
    ghost var before := fs.nodes;
    r := StageRepair(fs, source, destination, base, validated.value, sha, debris);
    TreesOutside(before, fs.nodes, destination);
    if r.Ok? {
      RepairChanged(FilesAt(before, source), validated.value, base, r.value, sha);
      SomethingCollected(changes, allowed);
      SomethingWritten(FilesAt(before, source), validated.value);
      assert FilesAt(fs.nodes, destination) == RepositoryAt(fs.nodes, destination).files;
      TreesAround(before, fs.nodes, destination);
    }
  }

  /** Nothing stops a destination inside the source, and then already the copy changes it. */
  lemma CopyInsideChangesSource(nodes: Nodes, source: Path, destination: Path)
    requires ValidNodes(nodes) && IsDir(nodes, source) && FilesAt(nodes, source) != map[]
    requires PlainPath(destination) && CanCopy(nodes, source, destination) && source < destination
    ensures FilesAt(Copied(nodes, source, destination), source) != FilesAt(nodes, source)
  {
    CopiedIsSame(nodes, source, destination);
    hide FilesAt, Copied;
    var copied := Copied(nodes, source, destination);
    assert FilesAt(copied, destination) == RepositoryAt(copied, destination).files;
    UnchangedExactlyWhen(nodes, copied, destination, source);
  }

  /** A repair that is accepted at some destination is accepted at any new name inside the
      source as well. */
  lemma InsideIsAccepted(
    nodes: Nodes, source: Path, elsewhere: Path, name: string, base: string, changes: Changes,
    allowed: Result<set<string>, PathError>, sha: Bytes -> string)
    requires ValidNodes(nodes) && RepairAccepted(nodes, source, elsewhere, base, changes, allowed, sha)
    requires source + [name] !in nodes
    ensures RepairAccepted(nodes, source, source + [name], base, changes, allowed, sha)
  {
    hide FilesAt, LinksAt, Overlay, Collected, WritesFit, FilesFit, TreeStream, Acceptable;
    var inside := source + [name];
    forall k | 0 <= k < |inside| ensures IsDir(nodes, inside[..k]) {
      if k < |source| {
        AncestorsAreDirs(nodes, source, k);
        assert inside[..k] == source[..k];
      } else {
        assert inside[..k] == source;
      }
    }
    assert inside[..|source| + 1] == inside;
  }

  function SmallRepository(): Nodes {
    map[[] := Dir, ["repo"] := Dir, ["repo", "a"] := File([])]
  }

  lemma SmallIsValid()
    ensures ValidNodes(SmallRepository())
  {
    var nodes := SmallRepository();
    assert PlainName("repo") && PlainName("a");
    assert Parent(["repo"]) == [] && Parent(["repo", "a"]) == ["repo"];
  }

  /** "/repo/out" is such a destination for "/repo". */
  lemma RepoOutChangesRepo()
    ensures ValidNodes(SmallRepository()) && CanCopy(SmallRepository(), ["repo"], ["repo", "out"])
    ensures FilesAt(Copied(SmallRepository(), ["repo"], ["repo", "out"]), ["repo"]) !=
            FilesAt(SmallRepository(), ["repo"])
  {
    hide FilesAt, Copied;
    var nodes, source, destination := SmallRepository(), ["repo"], ["repo", "out"];
    SmallIsValid();
    assert destination[..0] == [] && destination[..1] == source && destination[..2] == destination;
    assert PlainName("repo") && PlainName("out");
    EveryFileIsNamed(nodes, source, ["repo", "a"]);
    CopyInsideChangesSource(nodes, source, destination);
  }

  lemma SplitA()
    ensures Split("a") == ["a"]
  {
    SplitPrefix("a", "");
  }

  lemma OnlyA(q: string)
    ensures Leaf(SmallRepository(), ["repo"] + Split(q)) == if q == "a" then Some(File([])) else None
  {
    SplitA();
    JoinOfSplit(q);
    JoinOfSplit("a");
    hide Split, JoinPath;
    var p := ["repo"] + Split(q);
    assert p[1..] == Split(q);
    assert ["repo", "a"] == ["repo"] + ["a"] && ["repo", "a"][1..] == ["a"];
    if p == ["repo", "a"] {
      assert Split(q) == ["a"];
    }
  }

  lemma SmallTree()
    ensures RepositoryAt(SmallRepository(), ["repo"]) == Repository(map["a" := []], {})
  {
    hide FilesAt, LinksAt, Split, SmallRepository;
    var files, links := FilesAt(SmallRepository(), ["repo"]), LinksAt(SmallRepository(), ["repo"]);
    forall q
      ensures q in files <==> q == "a"
      ensures q in files ==> files[q] == []
      ensures q !in links
    {
      OnlyA(q);
      FileNamed(SmallRepository(), ["repo"], q);
    }
    assert files == map["a" := []];
    assert links == {};
  }

  lemma FitsSmall(data: Bytes)
    requires |data| <= 4
    ensures FilesFit(map["a" := data])
  {
    assert |Utf8Char('a')| <= 4 && Utf8("a") == Utf8Char('a') + [];
    Pow256Large();
  }

  lemma Pow256Large()
    ensures Pow256(4) > 4 && Pow256(8) > 4
  {
    assert Pow256(1) == 256 && Pow256(2) == 256 * 256 && Pow256(3) == 256 * 256 * 256;
    assert Pow256(4) == 256 * Pow256(3);
    assert Pow256(5) == 256 * Pow256(4) && Pow256(6) == 256 * Pow256(5);
    assert Pow256(7) == 256 * Pow256(6) && Pow256(8) == 256 * Pow256(7);
  }

  lemma OneLetterFits(c: char)
    ensures |Utf8([c])| <= 4
  {
    assert [c][1..] == [];
    assert Utf8([c]) == Utf8Char(c) + [];
  }

  lemma SmallChange()
    ensures Acceptable([("a", "x")], {"a"})
    ensures Collected([("a", "x")], {"a"}) == map["a" := "x"]
  {
    SplitA();
    PlainIsNormal(["a"]);
    assert JoinPath(["a"]) == "a";
    OneLetterFits('x');
    assert CheckChange(("a", "x"), {"a"}) == Ok("a");
    hide CheckChange;
    var changes: Changes := [("a", "x")];
    assert changes[..0] == [];
    assert Collected([], {"a"}) == map[];
    assert Collected(changes, {"a"}) == map[]["a" := "x"];
  }

  lemma SmallWritesFit()
    ensures WritesFit(SmallRepository(), ["repo"], {"a"})
  {
    SmallTree();
    SplitA();
    OnlyA("a");
    assert FilesAt(SmallRepository(), ["repo"]) == RepositoryAt(SmallRepository(), ["repo"]).files;
    hide FilesAt, SmallRepository, Split;
    assert {"a"} + {"a"} == {"a"};
    assert !Above("a", "a");
  }

  lemma SmallIsReadable()
    ensures Readable(SmallRepository(), ["repo"]) && FilesAt(SmallRepository(), ["repo"]) == map["a" := []]
  {
    SmallTree();
    FitsSmall([]);
    hide FilesAt, LinksAt, FilesFit;
    var nodes := SmallRepository();
    assert FilesAt(nodes, ["repo"]) == RepositoryAt(nodes, ["repo"]).files;
    assert LinksAt(nodes, ["repo"]) == RepositoryAt(nodes, ["repo"]).links;
  }

  lemma SmallOverlay()
    ensures Overlay(map["a" := []], map["a" := "x"]) == map["a" := Utf8("x")]
    ensures FilesFit(map["a" := Utf8("x")])
  {
    OneLetterFits('x');
    FitsSmall(Utf8("x"));
    hide Utf8, FilesFit;
  }

  lemma SmallStages(sha: Bytes -> string)
    requires sha(TreeStream(map["a" := Utf8("x")])) != sha(TreeStream(map["a" := []]))
    ensures Stages(SmallRepository(), ["repo"], ["repo", "out"], sha(TreeStream(map["a" := []])), map["a" := "x"], sha)
  {
    hide FilesAt, Utf8, TreeStream, FilesFit, WritesFit, Overlay, CanCopy, SmallRepository, Copied, Readable;
    SmallIsReadable();
    SmallOverlay();
    SmallWritesFit();
    RepoOutChangesRepo();
    assert map["a" := "x"].Keys == {"a"};
  }

  /** There a repair is accepted whenever the hash tells the two trees apart. */
  lemma RepoOutIsAccepted(sha: Bytes -> string)
    requires sha(TreeStream(map["a" := Utf8("x")])) != sha(TreeStream(map["a" := []]))
    ensures RepairAccepted(SmallRepository(), ["repo"], ["repo", "out"], sha(TreeStream(map["a" := []])),
                           [("a", "x")], Ok({"a"}), sha)
  {
    hide FilesAt, Utf8, TreeStream, Collected, Acceptable, SmallRepository, Readable, Stages;
    SmallIsReadable();
    SmallChange();
    SmallStages(sha);
  }

  lemma AddsNothing(nodes: Nodes, place: Path)
    ensures AddsAt(nodes, nodes, place)
  {
  }

  lemma OccupiedRefused(
    nodes: Nodes, source: Path, destination: Path, base: string, changes: map<string, string>, sha: Bytes -> string)
    requires destination in nodes
    ensures !Stages(nodes, source, destination, base, changes, sha)
  {
  }

  lemma RepairChanged(before: Files, changes: map<string, string>, base: string, hash: string, sha: Bytes -> string)
    requires sha(TreeStream(before)) == base && hash == sha(TreeStream(Overlay(before, changes))) && hash != base
    ensures Overlay(before, changes) != before
  {
  }

  lemma SomethingWritten(files: Files, changes: map<string, string>)
    requires changes != map[]
    ensures Overlay(files, changes) != map[]
  {
    var p :| p in changes;
    assert p in Overlay(files, changes);
  }

  lemma TreesOutside(before: Nodes, after: Nodes, place: Path)
    requires ValidNodes(before) && place !in before && AddsAt(before, after, place)
    ensures forall root :: root in before && !(root <= place) ==>
              RepositoryAt(after, root) == RepositoryAt(before, root)
  {
    forall root | root in before && !(root <= place)
      ensures RepositoryAt(after, root) == RepositoryAt(before, root)
    {
      OutsideUnchanged(before, after, place, root);
    }
  }

  lemma TreesAround(before: Nodes, after: Nodes, place: Path)
    requires ValidNodes(before) && ValidNodes(after) && place !in before && AddsAt(before, after, place)
    requires FilesAt(after, place) != map[]
    ensures forall root :: root in before ==> (FilesAt(after, root) == FilesAt(before, root) <==> !(root <= place))
  {
    forall root | root in before ensures FilesAt(after, root) == FilesAt(before, root) <==> !(root <= place) {
      UnchangedExactlyWhen(before, after, place, root);
    }
  }

  lemma ValidationErrors(changes: Changes, allowed: set<string>, e: RepairError)
    requires changes == [] ==> e == EmptyRepair
    requires |changes| > MAX_CHANGED_FILES ==> e == TooManyFiles
    requires 0 < |changes| <= MAX_CHANGED_FILES ==>
               exists i :: 0 <= i < |changes| && CheckChange(changes[i], allowed) == Err(e)
                           && forall j :: 0 <= j < i ==> CheckChange(changes[j], allowed).Ok?
    ensures !e.EscapedStagingRoot? && !e.ReplacesSymlink?
  {
  }
}
