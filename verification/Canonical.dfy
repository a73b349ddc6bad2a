/** Hashing a repository tree with NUL delimiters (src/release_sentinel/coverage/canonical.py).

    `files` are the paths below the root for which `is_file()` holds, with their contents. */
module Canonical {
  import opened Wrappers
  import opened Sorting
  import opened Bytes
  import opened Paths
  import opened Framing

  // ----- The NUL-delimited framing -----

  function NulFrame(e: Entry): Bytes {
    e.path + [0] + e.data + [0]
  }

  function NulStream(entries: seq<Entry>): Bytes {
    if entries == [] then [] else NulFrame(entries[0]) + NulStream(entries[1..])
  }

  lemma {:induction false} NulStreamAppend(entries: seq<Entry>, e: Entry)
    ensures NulStream(entries + [e]) == NulStream(entries) + NulFrame(e)
  {
    if entries == [] {
      assert NulStream([e]) == NulFrame(e) + [];
    } else {
      NulStreamAppend(entries[1..], e);
      assert (entries + [e])[1..] == entries[1..] + [e];
    }
  }

  lemma NothingListed()
    ensures NulStream([]) == []
  {
  }

  predicate NulFree(e: Entry) {
    0 !in e.path && 0 !in e.data
  }

  /** A NUL-free field followed by NUL is determined by what it starts. */
  lemma NulField(a: Bytes, x: Bytes, b: Bytes, y: Bytes)
    requires 0 !in a && 0 !in b && a + [0] + x == b + [0] + y
    ensures a == b && x == y
  {
    var s := a + [0] + x;
    assert s[|a|] == 0 && s[|b|] == 0;
    assert a == s[..|a|] == b;
    assert x == s[|a| + 1..] == y;
  }

  lemma {:induction false} NulStreamInjective(a: seq<Entry>, b: seq<Entry>)
    requires forall e :: e in a || e in b ==> NulFree(e)
    requires NulStream(a) == NulStream(b)
    ensures a == b
  {
    if a == [] || b == [] {
    } else {
      assert a[0] in a && b[0] in b;
      var ra, rb := NulStream(a[1..]), NulStream(b[1..]);
      var xa, xb := a[0].data + [0] + ra, b[0].data + [0] + rb;
      assert NulStream(a) == a[0].path + [0] + xa;
      assert NulStream(b) == b[0].path + [0] + xb;
      NulField(a[0].path, xa, b[0].path, xb);
      NulField(a[0].data, ra, b[0].data, rb);
      NulStreamInjective(a[1..], b[1..]);
      assert a == [a[0]] + a[1..] && b == [b[0]] + b[1..];
    }
  }

  ghost predicate TreeNulFree(files: Files) {
    forall p :: p in files ==> '\0' !in p && 0 !in files[p]
  }

  /** The NUL-delimited framing is uniquely decodable too, as long as no file contains NUL. */
  lemma NulFramingInjective(order: seq<string>, files: Files, order': seq<string>, files': Files)
    requires Lists(order, files.Keys) && Lists(order', files'.Keys)
    requires TreeNulFree(files) && TreeNulFree(files')
    requires NulStream(EntriesIn(order, files)) == NulStream(EntriesIn(order', files'))
    ensures order == order' && files == files'
  {
    forall e | e in EntriesIn(order, files) || e in EntriesIn(order', files')
      ensures NulFree(e)
    {
      if e in EntriesIn(order, files) {
        var i :| 0 <= i < |order| && e == EntriesIn(order, files)[i];
        Utf8NulFree(order[i]);
        assert order[i] in files;
      } else {
        var i :| 0 <= i < |order'| && e == EntriesIn(order', files')[i];
        Utf8NulFree(order'[i]);
        assert order'[i] in files';
      }
    }
    NulStreamInjective(EntriesIn(order, files), EntriesIn(order', files'));
    EntriesDetermineTree(order, files, order', files');
  }

  // ----- Which files, in which order -----

  /** Paths compare component by component, not as texts. */
  predicate NamesLe(a: seq<string>, b: seq<string>) {
    a == [] || (b != [] && if a[0] == b[0] then NamesLe(a[1..], b[1..]) else TextLe(a[0], b[0]))
  }

  lemma {:induction false} NamesLeTotal(a: seq<string>, b: seq<string>)
    ensures NamesLe(a, b) || NamesLe(b, a)
    ensures NamesLe(a, b) && NamesLe(b, a) ==> a == b
  {
    if a == [] || b == [] {
    } else {
      TextOrder();
      NamesLeTotal(a[1..], b[1..]);
      assert a == [a[0]] + a[1..] && b == [b[0]] + b[1..];
    }
  }

  lemma {:induction false} NamesLeTransitive(a: seq<string>, b: seq<string>, c: seq<string>)
    requires NamesLe(a, b) && NamesLe(b, c)
    ensures NamesLe(a, c)
  {
    if a == [] {
    } else {
      TextOrder();
      if a[0] == b[0] == c[0] {
        NamesLeTransitive(a[1..], b[1..], c[1..]);
      }
    }
  }

  /** A path that begins another comes first, otherwise the smaller name at the first difference. */
  lemma {:induction false} NamesLeMeaning(a: seq<string>, b: seq<string>)
    ensures NamesLe(a, b) <==>
            a <= b || exists k :: 0 <= k < |a| && k < |b| && a[..k] == b[..k] && a[k] != b[k] && TextLe(a[k], b[k])
  {
    hide TextLe;
    if a == [] || b == [] {
    } else if a[0] == b[0] {
      NamesLeMeaning(a[1..], b[1..]);
      LaterDifference(a, b);
      assert a == [a[0]] + a[1..] && b == [b[0]] + b[1..];
      assert a <= b <==> a[1..] <= b[1..];
    } else {
      assert a[..0] == b[..0];
      forall k | 0 < k < |a| && k < |b| ensures a[..k] != b[..k] {
        assert a[..k][0] != b[..k][0];
      }
    }
  }

  lemma LaterDifference(a: seq<string>, b: seq<string>)
    requires a != [] && b != [] && a[0] == b[0]
    ensures (exists k :: 0 <= k < |a| && k < |b| && a[..k] == b[..k] && a[k] != b[k] && TextLe(a[k], b[k])) <==>
            exists k :: 0 <= k < |a[1..]| && k < |b[1..]| && a[1..][..k] == b[1..][..k] && a[1..][k] != b[1..][k] &&
                        TextLe(a[1..][k], b[1..][k])
  {
    hide TextLe;
    if k :| 0 <= k < |a| && k < |b| && a[..k] == b[..k] && a[k] != b[k] && TextLe(a[k], b[k]) {
      assert a[1..][..k - 1] == a[..k][1..] == b[..k][1..] == b[1..][..k - 1];
      assert a[1..][k - 1] != b[1..][k - 1];
    }
    if k :| 0 <= k < |a[1..]| && k < |b[1..]| && a[1..][..k] == b[1..][..k] && a[1..][k] != b[1..][k] &&
            TextLe(a[1..][k], b[1..][k]) {
      assert a[..k + 1] == [a[0]] + a[1..][..k] == b[..k + 1];
      assert a[k + 1] != b[k + 1];
    }
  }

  function ByComponents(): (string, string) -> bool {
    (p: string, q: string) => NamesLe(Split(p), Split(q))
  }

  lemma ComponentOrder()
    ensures Total(ByComponents()) && Transitive(ByComponents()) && Antisymmetric(ByComponents())
  {
    hide NamesLe, Split;
    forall p, q
      ensures ByComponents()(p, q) || ByComponents()(q, p)
      ensures ByComponents()(p, q) && ByComponents()(q, p) ==> p == q
    {
      NamesLeTotal(Split(p), Split(q));
      JoinOfSplit(p);
      JoinOfSplit(q);
    }
    forall p, q, r | ByComponents()(p, q) && ByComponents()(q, r) ensures ByComponents()(p, r) {
      NamesLeTransitive(Split(p), Split(q), Split(r));
    }
  }

  /** `suffix == ".pyc"`: a name that is nothing but the suffix has none. */
  predicate Compiled(name: string) {
    |name| > 4 && name[|name| - 4..] == ".pyc"
  }

  /** `parts` are those of the whole path, the root's included. */
  predicate Skipped(root: seq<string>, p: string) {
    "__pycache__" in root + Split(p) || Compiled(Split(p)[|Split(p)| - 1])
  }

  function Hashed(root: seq<string>, files: Files): Files {
    map p | p in files && !Skipped(root, p) :: files[p]
  }

  /** Left out is what lies in a directory called "__pycache__", the root's own parents included,
      and every file with a name before the suffix ".pyc". */
  lemma HashedMeaning(root: seq<string>, files: Files, p: string)
    ensures p in Hashed(root, files) <==>
      && p in files && "__pycache__" !in root && "__pycache__" !in Split(p)
      && !exists stem: string :: stem != "" && Split(p)[|Split(p)| - 1] == stem + ".pyc"
    ensures p in Hashed(root, files) ==> Hashed(root, files)[p] == files[p]
  {
    hide Split;
    var name := Split(p)[|Split(p)| - 1];
    if Compiled(name) {
      assert name == name[..|name| - 4] + ".pyc";
    }
  }

  ghost function Listing(paths: set<string>): seq<string> {
    SortBy(Enumerate(paths), ByComponents())
  }

  /** Sorting forgets the order of the walk. */
  lemma ListingOf(order: seq<string>, paths: set<string>)
    requires Lists(order, paths)
    ensures SortBy(order, ByComponents()) == Listing(paths)
    ensures Lists(Listing(paths), paths) && Sorted(Listing(paths), ByComponents())
  {
    ComponentOrder();
    hide NamesLe, Split, SortBy;
    var other := Enumerate(paths);
    SameElements(order, other, paths);
    SortByOrderIndependent(order, other, ByComponents());
    SortBySorts(other, ByComponents());
    SortByDistinct(other, ByComponents());
    var sorted := SortBy(other, ByComponents());
    forall p ensures p in sorted <==> p in paths {
      assert p in multiset(sorted) <==> p in multiset(other);
    }
  }

  lemma SameElements(order: seq<string>, other: seq<string>, paths: set<string>)
    requires Lists(order, paths) && Lists(other, paths)
    ensures multiset(order) == multiset(other)
  {
    forall p ensures multiset(order)[p] == multiset(other)[p] {
      DistinctMultiset(order, p);
      DistinctMultiset(other, p);
    }
  }

  /** What the digest is fed for a tree. */
  ghost function NulTreeStream(files: Files): Bytes {
    ListingOf(Enumerate(files.Keys), files.Keys);
    NulStream(EntriesIn(Listing(files.Keys), files))
  }

  datatype CanonicalError = NotADirectory

  /** The digest is the hash of the NUL-delimited framing of the files that are not skipped,
      whatever order the walk had. */
  method NulRepositorySha256(
    isDirectory: bool, root: seq<string>, files: Files, walk: seq<string>, sha: Bytes -> string)
    returns (r: Result<string, CanonicalError>)
    requires Lists(walk, files.Keys)
    ensures r == if isDirectory then Ok(sha(NulTreeStream(Hashed(root, files)))) else Err(NotADirectory)
  {
    if !isDirectory {
      return Err(NotADirectory);
    }
    hide NulStream, Utf8, Skipped, SortBy, TextLe, NamesLe, Split;
    var listed: seq<string> := [];
    for i := 0 to |walk|
      invariant Distinct(listed) && forall p :: p in listed <==> p in walk[..i] && !Skipped(root, p)
    {
      if !Skipped(root, walk[i]) {
        listed := listed + [walk[i]];
      }
    }
    assert walk[..|walk|] == walk;
    ghost var hashed := Hashed(root, files);
    assert Lists(listed, hashed.Keys);
    ListingOf(listed, hashed.Keys);
    var paths := SortBy(listed, ByComponents());
    var hash := HashListed(hashed, files, paths, sha);
    return Ok(hash);
  }

  method HashListed(ghost hashed: Files, files: Files, paths: seq<string>, sha: Bytes -> string) returns (hash: string)
    requires forall p :: p in paths ==> p in hashed
    requires forall p :: p in hashed ==> p in files && files[p] == hashed[p]
    ensures hash == sha(NulStream(EntriesIn(paths, hashed)))
  {
    hide NulStream, Utf8;
    ghost var entries := EntriesIn(paths, hashed);
    var digest: Bytes := [];
    NothingListed();
    for i := 0 to |paths|
      invariant digest == NulStream(entries[..i])
    {
      NulStreamAppend(entries[..i], entries[i]);
      assert entries[..i + 1] == entries[..i] + [entries[i]];
      digest := digest + (Utf8(paths[i]) + [0] + files[paths[i]] + [0]);
    }
    assert entries[..|paths|] == entries;
    return sha(digest);
  }

  // ----- What the digest determines -----

  lemma NulTreeStreamInjective(files: Files, files': Files)
    requires TreeNulFree(files) && TreeNulFree(files')
    ensures NulTreeStream(files) == NulTreeStream(files') <==> files == files'
  {
    ListingOf(Enumerate(files.Keys), files.Keys);
    ListingOf(Enumerate(files'.Keys), files'.Keys);
    if NulTreeStream(files) == NulTreeStream(files') {
      NulFramingInjective(Listing(files.Keys), files, Listing(files'.Keys), files');
    }
  }

  lemma {:induction false} NulStreamEnds(entries: seq<Entry>)
    requires entries != []
    ensures var s := NulStream(entries); s != [] && s[|s| - 1] == 0
  {
    if |entries| == 1 {
      assert NulStream(entries) == NulFrame(entries[0]) + [];
    } else {
      NulStreamEnds(entries[1..]);
    }
  }

  /** The first entry, with suitable contents, imitates any list of entries. */
  lemma FirstImitatesAll(entries: seq<Entry>) returns (data: Bytes)
    requires entries != []
    ensures NulStream([Entry(entries[0].path, data)]) == NulStream(entries)
  {
    var first, rest := entries[0], NulStream(entries[1..]);
    if |entries| == 1 {
      data := first.data;
      assert entries == [first];
    } else {
      NulStreamEnds(entries[1..]);
      data := first.data + [0] + rest[..|rest| - 1];
      assert rest == rest[..|rest| - 1] + [0];
      assert NulStream([Entry(first.path, data)]) == NulFrame(Entry(first.path, data)) + [];
      assert NulFrame(Entry(first.path, data)) == NulFrame(first) + rest;
    }
  }

  /** Once contents may contain NUL, every tree of two or more files has the digest of a tree
      with one file: the one the code lists first. */
  lemma EveryTreeIsImitated(files: Files) returns (path: string, data: Bytes)
    requires |files| >= 2
    ensures path in files && map[path := data] != files
    ensures path == Listing(files.Keys)[0]
    ensures NulTreeStream(map[path := data]) == NulTreeStream(files)
  {
    ListingOf(Enumerate(files.Keys), files.Keys);
    var order := Listing(files.Keys);
    ListedSome(order, files);
    path := order[0];
    data := FirstImitatesAll(EntriesIn(order, files));
    OneFileStream(path, data);
    assert |map[path := data]| == 1;
  }

  lemma ListedSome(order: seq<string>, files: Files)
    requires Lists(order, files.Keys) && |files| >= 2
    ensures order != [] && order[0] in files
  {
    assert |files.Keys| == |files|;
    var p :| p in files.Keys;
    assert p in order && order[0] in order;
  }

  lemma OneFileStream(path: string, data: Bytes)
    ensures NulTreeStream(map[path := data]) == NulStream([Entry(Utf8(path), data)])
  {
    var one: Files := map[path := data];
    assert Lists([path], one.Keys);
    ListingOf([path], one.Keys);
    assert SortBy([path], ByComponents()) == [path];
    assert EntriesIn([path], one) == [Entry(Utf8(path), data)];
  }

  /** Two files that the code lists as `p`, `q`, and the one that imitates them. */
  lemma NulFramingCollides(p: string, q: string, x: Bytes, y: Bytes)
    requires p != q && NamesLe(Split(p), Split(q))
    ensures var one: Files := map[p := x + [0] + Utf8(q) + [0] + y];
            var two: Files := map[p := x, q := y];
            one != two && Listing(two.Keys) == [p, q] && NulTreeStream(one) == NulTreeStream(two)
  {
    var two: Files := map[p := x, q := y];
    assert Lists([p, q], two.Keys);
    ListingOf([p, q], two.Keys);
    assert SortBy([q], ByComponents()) == [q];
    assert [p, q][1..] == [q];
    assert SortBy([p, q], ByComponents()) == [p, q];
    assert q in two && q !in map[p := x + [0] + Utf8(q) + [0] + y];
    assert EntriesIn([p, q], two) == [Entry(Utf8(p), x), Entry(Utf8(q), y)];
    OneFileStream(p, x + [0] + Utf8(q) + [0] + y);
    NulStreamsCollide(Utf8(p), Utf8(q), x, y);
  }

  // ----- Which digests determine their tree -----

  /** Paths on a file system have no NUL. */
  ghost predicate PathsNulFree(files: Files) {
    forall p :: p in files ==> '\0' !in p
  }

  /** No other tree has the stream of `files`. */
  ghost predicate Unmistakable(files: Files) {
    forall other :: PathsNulFree(other) && NulTreeStream(other) == NulTreeStream(files) ==> other == files
  }

  /** `data`, as the contents of `p`, reads as the contents of `p` followed by a file `q`. */
  ghost predicate Reads(p: string, data: Bytes, x: Bytes, q: string, y: Bytes) {
    p != q && '\0' !in q && NamesLe(Split(p), Split(q)) && data == x + [0] + Utf8(q) + [0] + y
  }

  ghost predicate ReadsAsTwo(p: string, data: Bytes) {
    exists x, q, y :: Reads(p, data, x, q, y)
  }

  lemma StreamOfFirst(entries: seq<Entry>)
    requires entries != []
    ensures NulStream(entries) == entries[0].path + [0] + (entries[0].data + [0] + NulStream(entries[1..]))
  {
  }

  lemma Unterminated(a: Bytes, b: Bytes)
    requires a + [0] == b + [0]
    ensures a == b
  {
    assert a == (a + [0])[..|a|] && b == (b + [0])[..|b|];
  }

  lemma SecondField(p: Bytes, data: Bytes, x: Bytes, q: Bytes, tail: Bytes) returns (y: Bytes)
    requires 0 !in p && tail != []
    requires p + [0] + (x + [0] + (q + [0] + tail)) == p + [0] + (data + [0] + [])
    ensures data == x + [0] + q + [0] + y
  {
    NulField(p, x + [0] + (q + [0] + tail), p, data + [0] + []);
    y := tail[..|tail| - 1];
    var head := x + [0] + (q + [0]);
    assert head + tail == x + [0] + (q + [0] + tail);
    assert data + [0] + [] == data + [0];
    LastByte(head, tail, data);
    assert head + y + [0] == x + [0] + q + [0] + y + [0];
    Unterminated(data, x + [0] + q + [0] + y);
  }

  lemma LastByte(head: Bytes, tail: Bytes, data: Bytes)
    requires tail != [] && head + tail == data + [0]
    ensures data + [0] == head + tail[..|tail| - 1] + [0]
  {
    assert tail[|tail| - 1] == (head + tail)[|head + tail| - 1] == 0;
    assert tail == tail[..|tail| - 1] + [0];
  }

  /** A tree of two or more files with the stream of the single file `p` shows in its contents. */
  lemma TwoShow(p: string, data: Bytes, entries: seq<Entry>, q: string) returns (y: Bytes)
    requires |entries| >= 2 && entries[0].path == Utf8(p) && entries[1].path == Utf8(q)
    requires 0 !in Utf8(p) && NulStream(entries) == NulStream([Entry(Utf8(p), data)])
    ensures data == entries[0].data + [0] + Utf8(q) + [0] + y
  {
    hide Utf8, NulStream;
    var rest := entries[1..];
    StreamOfFirst(entries);
    StreamOfFirst([Entry(Utf8(p), data)]);
    NothingListed();
    assert [Entry(Utf8(p), data)][1..] == [];
    StreamOfFirst(rest);
    y := SecondField(Utf8(p), data, entries[0].data, Utf8(q), rest[0].data + [0] + NulStream(rest[1..]));
  }

  lemma FirstPathsAgree(order: seq<string>, files: Files, p: string, data: Bytes)
    requires Lists(order, files.Keys) && PathsNulFree(files) && '\0' !in p
    requires NulStream(EntriesIn(order, files)) == NulStream([Entry(Utf8(p), data)])
    ensures order != [] && order[0] == p
  {
    NothingListed();
    NulStreamEnds([Entry(Utf8(p), data)]);
    var entries := EntriesIn(order, files);
    assert entries != [];
    assert order[0] in order;
    StreamOfFirst(entries);
    StreamOfFirst([Entry(Utf8(p), data)]);
    Utf8NulFree(p);
    Utf8NulFree(order[0]);
    NulField(Utf8(order[0]), entries[0].data + [0] + NulStream(entries[1..]),
             Utf8(p), data + [0] + NulStream([Entry(Utf8(p), data)][1..]));
    Utf8Injective(order[0], p);
  }

  /** What else has the stream of a tree with one file. */
  lemma OneFileMistaken(p: string, data: Bytes, other: Files)
    requires '\0' !in p && PathsNulFree(other)
    requires NulTreeStream(other) == NulTreeStream(map[p := data])
    ensures other == map[p := data] || ReadsAsTwo(p, data)
  {
    var order := Listing(other.Keys);
    ListingOf(Enumerate(other.Keys), other.Keys);
    OneFileStream(p, data);
    FirstPathsAgree(order, other, p, data);
    var entries := EntriesIn(order, other);
    if |order| == 1 {
      assert entries == [Entry(Utf8(p), other[p])];
      SameFile(p, data, other[p]);
      assert forall q :: q in other <==> q in order;
      assert other == map[p := data];
    } else {
      SecondFollows(order, other);
      Utf8NulFree(p);
      var y := TwoShow(p, data, entries, order[1]);
      assert Reads(p, data, entries[0].data, order[1], y);
    }
  }

  lemma SameFile(p: string, a: Bytes, b: Bytes)
    requires NulStream([Entry(Utf8(p), a)]) == NulStream([Entry(Utf8(p), b)])
    ensures a == b
  {
    hide Utf8;
    NulStreamOfOne(Entry(Utf8(p), a));
    NulStreamOfOne(Entry(Utf8(p), b));
    var prefix := Utf8(p) + [0];
    assert (prefix + (a + [0]))[|prefix|..] == a + [0] && (prefix + (b + [0]))[|prefix|..] == b + [0];
    assert prefix + (a + [0]) == Utf8(p) + [0] + a + [0] && prefix + (b + [0]) == Utf8(p) + [0] + b + [0];
    Unterminated(a, b);
  }

  lemma SecondFollows(order: seq<string>, files: Files)
    requires Lists(order, files.Keys) && order == Listing(files.Keys) && |order| >= 2 && PathsNulFree(files)
    ensures order[0] != order[1] && '\0' !in order[1] && NamesLe(Split(order[0]), Split(order[1]))
  {
    ComponentOrder();
    hide NamesLe, Split;
    SortBySorts(Enumerate(files.Keys), ByComponents());
    assert ByComponents()(order[0], order[1]);
    assert order[1] in order;
  }

  /** A digest determines its tree, up to collisions of the hash, exactly if the tree is empty or
      has one file whose contents do not read as those of two. */
  lemma UnmistakableExactlyWhen(files: Files)
    requires PathsNulFree(files)
    ensures Unmistakable(files) <==>
            files == map[] || exists p :: files.Keys == {p} && !ReadsAsTwo(p, files[p])
  {
    if |files| >= 2 {
      ManyAreMistaken(files);
    } else if |files| == 1 {
      OneFile(files);
    } else {
      assert |files.Keys| == 0;
      assert files == map[];
      EmptyIsUnmistakable();
    }
  }

  lemma ManyAreMistaken(files: Files)
    requires PathsNulFree(files) && |files| >= 2
    ensures !Unmistakable(files) && files != map[] && forall p :: files.Keys != {p}
  {
    var path, data := EveryTreeIsImitated(files);
    assert PathsNulFree(map[path := data]);
    assert |files.Keys| == |files|;
    assert forall p: string :: |{p}| == 1;
  }

  lemma OneFile(files: Files)
    requires PathsNulFree(files) && |files| == 1
    ensures files != map[]
    ensures Unmistakable(files) <==> exists p :: files.Keys == {p} && !ReadsAsTwo(p, files[p])
  {
    hide Unmistakable, ReadsAsTwo;
    assert |files.Keys| == |files|;
    var p :| p in files.Keys;
    Singleton(files.Keys, p);
    OneFileExactly(p, files[p]);
    assert files == map[p := files[p]];
    forall other | files.Keys == {other} ensures other == p {
      assert p in {other};
    }
  }

  lemma OneFileExactly(p: string, data: Bytes)
    requires '\0' !in p
    ensures Unmistakable(map[p := data]) <==> !ReadsAsTwo(p, data)
  {
    hide NulTreeStream, NamesLe, Split;
    if ReadsAsTwo(p, data) {
      var x, q, y :| Reads(p, data, x, q, y);
      NulFramingCollides(p, q, x, y);
      var two: Files := map[p := x, q := y];
      assert PathsNulFree(two) && q in two && q !in map[p := data];
    } else {
      forall other | PathsNulFree(other) && NulTreeStream(other) == NulTreeStream(map[p := data])
        ensures other == map[p := data]
      {
        OneFileMistaken(p, data, other);
      }
    }
  }

  lemma Singleton(s: set<string>, p: string)
    requires |s| == 1 && p in s
    ensures s == {p}
  {
    assert |s - {p}| == 0;
  }

  lemma EmptyIsUnmistakable()
    ensures Unmistakable(map[])
  {
    EmptyStream();
    forall other | PathsNulFree(other) && NulTreeStream(other) == NulTreeStream(map[]) ensures other == map[] {
      ListingOf(Enumerate(other.Keys), other.Keys);
      var order := Listing(other.Keys);
      if order != [] {
        NulStreamEnds(EntriesIn(order, other));
      }
      assert forall p :: p in other ==> p in order;
    }
  }

  lemma EmptyStream()
    ensures NulTreeStream(map[]) == []
  {
    var none: Files := map[];
    assert Lists([], none.Keys);
    ListingOf([], none.Keys);
    NothingListed();
    assert EntriesIn([], none) == [];
  }

  lemma NulStreamOfOne(e: Entry)
    ensures NulStream([e]) == NulFrame(e)
  {
  }

  lemma NulStreamOfTwo(e: Entry, f: Entry)
    ensures NulStream([e, f]) == NulFrame(e) + NulFrame(f)
  {
    assert [e, f][1..] == [f];
    NulStreamOfOne(f);
  }

  lemma NulStreamsCollide(p: Bytes, q: Bytes, x: Bytes, y: Bytes)
    ensures NulStream([Entry(p, x + [0] + q + [0] + y)]) == NulStream([Entry(p, x), Entry(q, y)])
  {
    NulStreamOfOne(Entry(p, x + [0] + q + [0] + y));
    NulStreamOfTwo(Entry(p, x), Entry(q, y));
    assert p + [0] + (x + [0] + q + [0] + y) + [0] == p + [0] + x + [0] + (q + [0] + y + [0]);
  }
}
