/** Directory trees by absolute component paths, so that one root may lie below another. */
module FileTrees {
  import opened Bytes
  import opened Framing
  import opened Paths
  import opened Wrappers

  /** The components of an absolute, resolved path. */
  type Path = seq<string>

  datatype Node = Dir | File(data: Bytes) | Link

  type Nodes = map<Path, Node>

  predicate HasNul(s: string) {
    '\0' in s
  }

  predicate PlainName(name: string) {
    name != "" && name != "." && name != ".." && '/' !in name && !HasNul(name)
  }

  predicate PlainPath(p: Path) {
    forall i :: 0 <= i < |p| ==> PlainName(p[i])
  }

  function Parent(p: Path): Path
    requires p != []
  {
    p[..|p| - 1]
  }

  predicate IsDir(nodes: Nodes, p: Path) {
    p in nodes && nodes[p].Dir?
  }

  predicate IsFile(nodes: Nodes, p: Path) {
    p in nodes && nodes[p].File?
  }

  predicate IsLink(nodes: Nodes, p: Path) {
    p in nodes && nodes[p].Link?
  }

  /** Whatever exists is in a directory. */
  ghost predicate ValidNodes(nodes: Nodes) {
    && (forall p :: p in nodes ==> PlainPath(p))
    && (forall p :: p in nodes && p != [] ==> IsDir(nodes, Parent(p)))
  }

  lemma {:induction false} AncestorsAreDirs(nodes: Nodes, p: Path, k: nat)
    requires ValidNodes(nodes) && p in nodes && k < |p|
    ensures IsDir(nodes, p[..k])
    decreases |p|
  {
    if k == |p| - 1 {
      assert p[..k] == Parent(p);
    } else {
      AncestorsAreDirs(nodes, Parent(p), k);
      assert Parent(p)[..k] == p[..k];
    }
  }

  // ----- The tree below a root -----

  /** The relative, slash-separated names of everything below `root`. */
  function NamesBelow(nodes: Nodes, root: Path): set<string> {
    set p | p in nodes && root < p :: JoinPath(p[|root|..])
  }

  function FilesAt(nodes: Nodes, root: Path): Files {
    map q | q in NamesBelow(nodes, root) && IsFile(nodes, root + Split(q)) :: nodes[root + Split(q)].data
  }

  function LinksAt(nodes: Nodes, root: Path): set<string> {
    set q | q in NamesBelow(nodes, root) && IsLink(nodes, root + Split(q))
  }

  /** What `repository_sha256` sees at `root`. */
  function RepositoryAt(nodes: Nodes, root: Path): Repository {
    Repository(FilesAt(nodes, root), LinksAt(nodes, root))
  }

  lemma Named(nodes: Nodes, root: Path, q: string)
    requires root + Split(q) in nodes
    ensures q in NamesBelow(nodes, root)
  {
    var p := root + Split(q);
    assert p[|root|..] == Split(q);
    JoinOfSplit(q);
    assert root < p;
  }

  /** A name is in the tree exactly if there is a file at its place. */
  lemma FileNamed(nodes: Nodes, root: Path, q: string)
    ensures q in FilesAt(nodes, root) <==> IsFile(nodes, root + Split(q))
    ensures q in FilesAt(nodes, root) ==> FilesAt(nodes, root)[q] == nodes[root + Split(q)].data
    ensures q in LinksAt(nodes, root) <==> IsLink(nodes, root + Split(q))
  {
    if root + Split(q) in nodes {
      Named(nodes, root, q);
    }
  }

  /** The name of a place below the root leads back to it. */
  lemma PlaceOf(root: Path, p: Path)
    requires root < p && PlainPath(p)
    ensures root + Split(JoinPath(p[|root|..])) == p
  {
    SplitJoin(p[|root|..]);
  }

  /** Every file below the root is in the tree under its name. */
  lemma EveryFileIsNamed(nodes: Nodes, root: Path, p: Path)
    requires ValidNodes(nodes) && p in nodes && root < p
    ensures nodes[p].File? ==>
      var name := JoinPath(p[|root|..]); name in FilesAt(nodes, root) && FilesAt(nodes, root)[name] == nodes[p].data
    ensures nodes[p].Link? ==> JoinPath(p[|root|..]) in LinksAt(nodes, root)
  {
    PlaceOf(root, p);
    FileNamed(nodes, root, JoinPath(p[|root|..]));
  }

  /** What the tree shows of a place: directories do not count. */
  function Leaf(nodes: Nodes, p: Path): Option<Node> {
    if p in nodes && !nodes[p].Dir? then Some(nodes[p]) else None
  }

  lemma SameName(a: Nodes, root: Path, b: Nodes, other: Path, q: string)
    requires Leaf(a, root + Split(q)) == Leaf(b, other + Split(q))
    ensures q in FilesAt(a, root) <==> q in FilesAt(b, other)
    ensures q in FilesAt(a, root) ==> FilesAt(a, root)[q] == FilesAt(b, other)[q]
    ensures q in LinksAt(a, root) <==> q in LinksAt(b, other)
  {
    hide FilesAt, LinksAt, Split;
    FileNamed(a, root, q);
    FileNamed(b, other, q);
  }

  /** Trees are equal when the places below their roots hold the same files and links. */
  lemma SameTree(a: Nodes, root: Path, b: Nodes, other: Path)
    requires forall q :: Leaf(a, root + Split(q)) == Leaf(b, other + Split(q))
    ensures RepositoryAt(a, root) == RepositoryAt(b, other)
  {
    hide FilesAt, LinksAt, Split, Leaf;
    forall q
      ensures q in FilesAt(a, root) <==> q in FilesAt(b, other)
      ensures q in FilesAt(a, root) ==> FilesAt(a, root)[q] == FilesAt(b, other)[q]
      ensures q in LinksAt(a, root) <==> q in LinksAt(b, other)
    {
      SameName(a, root, b, other, q);
    }
    assert FilesAt(a, root) == FilesAt(b, other);
    assert LinksAt(a, root) == LinksAt(b, other);
  }

  // ----- What an operation below `place` may do -----

  /** Nothing that existed is altered or removed; what is new is `place`, something below it, or
      a directory above it. */
  ghost predicate AddsAt(before: Nodes, after: Nodes, place: Path) {
    && (forall p :: p in before ==> p in after && after[p] == before[p])
    && (forall p :: p in after && p !in before ==> place <= p || (p < place && after[p].Dir?))
  }

  lemma NothingBelow(nodes: Nodes, place: Path, p: Path)
    requires ValidNodes(nodes) && place !in nodes && place <= p
    ensures p !in nodes
  {
    assert p[..|place|] == place && p[..|p|] == p;
    if p in nodes && |place| < |p| {
      AncestorsAreDirs(nodes, p, |place|);
    }
  }

  lemma OnOnePath(a: Path, b: Path, p: Path)
    requires a <= p && b <= p
    ensures a <= b || b <= a
  {
    assert a == p[..|a|] && b == p[..|b|];
    if |a| <= |b| {
      assert b[..|a|] == a;
    } else {
      assert a[..|b|] == b;
    }
  }

  /** A tree whose root is not above the place stays as it is. */
  lemma OutsideUnchanged(before: Nodes, after: Nodes, place: Path, root: Path)
    requires AddsAt(before, after, place) && root in before && place !in before && ValidNodes(before)
    requires !(root <= place)
    ensures RepositoryAt(after, root) == RepositoryAt(before, root)
  {
    forall q ensures Leaf(after, root + Split(q)) == Leaf(before, root + Split(q)) {
      var p := root + Split(q);
      if place <= p {
        OnOnePath(place, root, p);
        NothingBelow(before, place, root);
        assert false;
      }
    }
    SameTree(after, root, before, root);
  }

  /** An existing tree is unchanged exactly when the place is not below its root, provided that
      the place now holds a file. */
  lemma UnchangedExactlyWhen(before: Nodes, after: Nodes, place: Path, root: Path)
    requires AddsAt(before, after, place) && ValidNodes(before) && ValidNodes(after)
    requires root in before && place !in before && FilesAt(after, place) != map[]
    ensures FilesAt(after, root) == FilesAt(before, root) <==> !(root <= place)
  {
    if root <= place {
      var q :| q in FilesAt(after, place);
      NewFileShows(before, after, place, root, q);
    } else {
      OutsideUnchanged(before, after, place, root);
      assert RepositoryAt(after, root).files == RepositoryAt(before, root).files;
    }
  }

  lemma NewFileShows(before: Nodes, after: Nodes, place: Path, root: Path, q: string)
    requires ValidNodes(before) && ValidNodes(after) && place !in before && root <= place && q in FilesAt(after, place)
    ensures exists name :: name in FilesAt(after, root) && name !in FilesAt(before, root)
  {
    FileNamed(after, place, q);
    var p := place + Split(q);
    NothingBelow(before, place, p);
    assert root < p;
    var name := JoinPath(p[|root|..]);
    EveryFileIsNamed(after, root, p);
    PlaceOf(root, p);
    FileNamed(before, root, name);
  }
}
