/** Hashing a repository tree with length prefixes (src/release_sentinel/remediation/service.py).

    A tree maps slash-separated relative paths to file contents. The hash function is a
    parameter; nothing is assumed of it. */
module Framing {
  import opened Wrappers
  import opened Sorting
  import opened Bytes

  // ----- Length-prefixed entries and their decoder -----

  datatype Entry = Entry(path: Bytes, data: Bytes)

  /** The lengths that fit their 4-byte and 8-byte prefixes. */
  predicate Fits(e: Entry) {
    |e.path| < Pow256(4) && |e.data| < Pow256(8)
  }

  function Frame(e: Entry): Bytes {
    BigEndian(|e.path|, 4) + e.path + BigEndian(|e.data|, 8) + e.data
  }

  function Stream(entries: seq<Entry>): Bytes {
    if entries == [] then [] else Frame(entries[0]) + Stream(entries[1..])
  }

  /** Reads a length of `width` bytes and that many bytes after it. */
  function ReadField(s: Bytes, width: nat): (r: Option<(Bytes, Bytes)>)
    ensures r.Some? ==> |r.value.1| + width <= |s|
  {
    if |s| < width then None
    else
      var n := ValueOf(s[..width]);
      if |s| - width < n then None
      else Some((s[width..][..n], s[width..][n..]))
  }

  function Decode(s: Bytes): Option<seq<Entry>>
    decreases |s|
  {
    if s == [] then Some([])
    else
      match ReadField(s, 4)
      case None => None
      case Some((path, s1)) =>
        match ReadField(s1, 8)
        case None => None
        case Some((data, s2)) =>
          match Decode(s2)
          case None => None
          case Some(rest) => Some([Entry(path, data)] + rest)
  }

  lemma ReadFieldInverts(field: Bytes, width: nat, rest: Bytes)
    requires |field| < Pow256(width)
    ensures ReadField(BigEndian(|field|, width) + field + rest, width) == Some((field, rest))
  {
    ValueOfBigEndian(|field|, width);
    var prefix := BigEndian(|field|, width);
    hide BigEndian, Pow256, ValueOf;
    var s := prefix + field + rest;
    assert s == prefix + (field + rest);
    assert s[..width] == prefix;
    assert s[width..] == field + rest;
  }

  lemma ReadFieldExact(s: Bytes, width: nat)
    requires ReadField(s, width).Some?
    ensures var (field, rest) := ReadField(s, width).value;
            |field| < Pow256(width) && s == BigEndian(|field|, width) + field + rest
  {
    BigEndianOfValue(s[..width]);
    var (field, rest) := ReadField(s, width).value;
    assert s == s[..width] + s[width..];
    assert s[width..] == field + rest;
  }

  lemma DecodeFrame(e: Entry, rest: Bytes)
    requires Fits(e) && Decode(rest).Some?
    ensures Decode(Frame(e) + rest) == Some([e] + Decode(rest).value)
  {
    FrameFields(e);
    hide BigEndian, Pow256, ReadField, Frame;
    var s := Frame(e) + rest;
    var tail := BigEndian(|e.data|, 8) + e.data + rest;
    assert s == BigEndian(|e.path|, 4) + e.path + tail;
    ReadFieldInverts(e.path, 4, tail);
    ReadFieldInverts(e.data, 8, rest);
  }

  /** The decoder inverts the framing. */
  lemma {:induction false} DecodeStream(entries: seq<Entry>)
    requires forall e :: e in entries ==> Fits(e)
    ensures Decode(Stream(entries)) == Some(entries)
  {
    hide Fits, Frame;
    if entries == [] {
    } else {
      assert entries[0] in entries;
      DecodeStream(entries[1..]);
      DecodeFrame(entries[0], Stream(entries[1..]));
      assert entries == [entries[0]] + entries[1..];
    }
  }

  /** The decoder accepts nothing but framings. */
  lemma {:induction false} StreamOfDecoded(s: Bytes)
    requires Decode(s).Some?
    ensures Stream(Decode(s).value) == s
    ensures forall e :: e in Decode(s).value ==> Fits(e)
    decreases |s|
  {
    if s == [] {
    } else {
      var (path, s1) := ReadField(s, 4).value;
      var (data, s2) := ReadField(s1, 8).value;
      ReadFieldExact(s, 4);
      ReadFieldExact(s1, 8);
      StreamOfDecoded(s2);
      var entries := Decode(s).value;
      assert entries[1..] == Decode(s2).value;
      assert s == Frame(entries[0]) + s2;
    }
  }

  // ----- Trees and their enumerations -----

  type Files = map<string, Bytes>

  /** `order` enumerates `paths`, each once. */
  ghost predicate Lists(order: seq<string>, paths: set<string>) {
    Distinct(order) && forall p :: p in order <==> p in paths
  }

  function EntriesIn(order: seq<string>, files: Files): (entries: seq<Entry>)
    requires forall p :: p in order ==> p in files
    ensures |entries| == |order|
    ensures forall i :: 0 <= i < |order| ==> entries[i] == Entry(Utf8(order[i]), files[order[i]])
  {
    seq(|order|, i requires 0 <= i < |order| => Entry(Utf8(order[i]), files[order[i]]))
  }

  ghost predicate FilesFit(files: Files) {
    forall p :: p in files ==> Fits(Entry(Utf8(p), files[p]))
  }

  ghost function Enumerate(paths: set<string>): (order: seq<string>)
    ensures Lists(order, paths)
  {
    if paths == {} then [] else var p :| p in paths; [p] + Enumerate(paths - {p})
  }

  ghost function SortedPaths(paths: set<string>): seq<string> {
    SortBy(Enumerate(paths), TextLe)
  }

  /** Sorting forgets the order in which the directory walk found the files. */
  lemma SortedPathsOf(order: seq<string>, paths: set<string>)
    requires Lists(order, paths)
    ensures SortBy(order, TextLe) == SortedPaths(paths)
    ensures Lists(SortedPaths(paths), paths) && Sorted(SortedPaths(paths), TextLe)
  {
    var other := Enumerate(paths);
    forall p
      ensures multiset(order)[p] == multiset(other)[p]
    {
      DistinctMultiset(order, p);
      DistinctMultiset(other, p);
    }
    assert multiset(order) == multiset(other);
    TextOrder();
    SortByOrderIndependent(order, other, TextLe);
    SortBySorts(other, TextLe);
    SortByDistinct(other, TextLe);
    forall p
      ensures p in SortedPaths(paths) <==> p in paths
    {
      assert p in SortedPaths(paths) <==> p in multiset(SortedPaths(paths));
      assert p in other <==> p in multiset(other);
    }
  }

  /** What `repository_sha256` feeds to the hash. */
  ghost function TreeStream(files: Files): Bytes {
    SortedPathsOf(Enumerate(files.Keys), files.Keys);
    Stream(EntriesIn(SortedPaths(files.Keys), files))
  }

  /** Equal entry lists come from equal trees. */
  lemma EntriesDetermineTree(order: seq<string>, files: Files, order': seq<string>, files': Files)
    requires Lists(order, files.Keys) && Lists(order', files'.Keys)
    requires EntriesIn(order, files) == EntriesIn(order', files')
    ensures order == order' && files == files'
  {
    var entries := EntriesIn(order, files);
    assert |order| == |entries| == |order'|;
    forall i | 0 <= i < |order|
      ensures order[i] == order'[i] && files[order[i]] == files'[order'[i]]
    {
      assert entries[i] == Entry(Utf8(order[i]), files[order[i]]) == Entry(Utf8(order'[i]), files'[order'[i]]);
      Utf8Injective(order[i], order'[i]);
    }
    assert order == order';
    forall p
      ensures p in files <==> p in files'
      ensures p in files && p in files' ==> files[p] == files'[p]
    {
      assert p in order <==> p in order';
      if p in files {
        var i :| 0 <= i < |order| && order[i] == p;
      }
    }
    assert files == files';
  }

  /** Uniquely decodable: whatever the two enumeration orders, equal streams mean equal trees. */
  lemma LengthFramingInjective(order: seq<string>, files: Files, order': seq<string>, files': Files)
    requires Lists(order, files.Keys) && Lists(order', files'.Keys)
    requires FilesFit(files) && FilesFit(files')
    requires Stream(EntriesIn(order, files)) == Stream(EntriesIn(order', files'))
    ensures order == order' && files == files'
  {
    DecodeStream(EntriesIn(order, files));
    DecodeStream(EntriesIn(order', files'));
    EntriesDetermineTree(order, files, order', files');
  }

  lemma TreeStreamInjective(files: Files, files': Files)
    requires FilesFit(files) && FilesFit(files')
    ensures TreeStream(files) == TreeStream(files') <==> files == files'
  {
    SortedPathsOf(Enumerate(files.Keys), files.Keys);
    SortedPathsOf(Enumerate(files'.Keys), files'.Keys);
    if TreeStream(files) == TreeStream(files') {
      LengthFramingInjective(SortedPaths(files.Keys), files, SortedPaths(files'.Keys), files');
    }
  }

  // ----- repository_sha256 -----

  datatype Repository = Repository(files: Files, links: set<string>)

  datatype HashError = ContainsSymlink(path: string) | LengthOverflow

  /** `_safe_files`: the walk order is arbitrary, the result is not. */
  method SafeFiles(repo: Repository, walk: seq<string>) returns (r: Result<seq<string>, HashError>)
    requires repo.files.Keys !! repo.links && Lists(walk, repo.files.Keys + repo.links)
    ensures r.Ok? <==> repo.links == {}
    ensures r.Ok? ==> r.value == SortedPaths(repo.files.Keys) && Lists(r.value, repo.files.Keys)
    ensures r.Err? ==> r.error.ContainsSymlink? && r.error.path in repo.links
  {
    var files: seq<string> := [];
    for i := 0 to |walk|
      invariant files == walk[..i]
      invariant forall j :: 0 <= j < i ==> walk[j] !in repo.links
    {
      if walk[i] in repo.links {
        return Err(ContainsSymlink(walk[i]));
      }
      if walk[i] in repo.files {
        files := files + [walk[i]];
      }
    }
    assert files == walk;
    assert forall p :: p in repo.links ==> p in walk;
    SortedPathsOf(files, repo.files.Keys);
    return Ok(SortBy(files, TextLe));
  }

  /** The digest is the hash of the tree's framing, whatever order the walk had. */
  method RepositorySha256(repo: Repository, walk: seq<string>, sha: Bytes -> string)
    returns (r: Result<string, HashError>)
    requires repo.files.Keys !! repo.links && Lists(walk, repo.files.Keys + repo.links)
    ensures r.Ok? <==> repo.links == {} && FilesFit(repo.files)
    ensures r.Ok? ==> r.value == sha(TreeStream(repo.files))
    ensures r.Err? ==> (r.error.ContainsSymlink? <==> repo.links != {})
  {
    hide Stream, Frame, BigEndian, Utf8, Pow256, TextLe, SortBy, Lists, FilesFit, SortedPaths;
    var listed := SafeFiles(repo, walk);
    if listed.Err? {
      return Err(listed.error);
    }
    var paths := listed.value;
    ListedPaths(paths, repo.files);
    ghost var entries := EntriesIn(paths, repo.files);
    var digest: Bytes := [];
    for i := 0 to |paths|
      invariant digest == Stream(entries[..i])
      invariant forall j :: 0 <= j < i ==> Fits(entries[j])
    {
      var rel := Utf8(paths[i]);
      var data := repo.files[paths[i]];
      if |rel| >= Pow256(4) || |data| >= Pow256(8) {
        TooLong(entries, i, paths, repo.files);
        return Err(LengthOverflow);
      }
      StreamAppend(entries[..i], entries[i]);
      assert entries[..i + 1] == entries[..i] + [entries[i]];
      digest := digest + BigEndian(|rel|, 4);
      digest := digest + rel;
      digest := digest + BigEndian(|data|, 8);
      digest := digest + data;
    }
    assert entries[..|paths|] == entries;
    AllFit(entries, paths, repo.files);
    return Ok(sha(digest));
  }

  lemma ListedPaths(paths: seq<string>, files: Files)
    requires Lists(paths, files.Keys)
    ensures forall p :: p in paths ==> p in files
    ensures paths == SortedPaths(files.Keys) ==> TreeStream(files) == Stream(EntriesIn(paths, files))
    ensures Stream([]) == []
  {
  }

  lemma TooLong(entries: seq<Entry>, i: nat, paths: seq<string>, files: Files)
    requires Lists(paths, files.Keys) && entries == EntriesIn(paths, files)
    requires i < |entries| && !Fits(entries[i])
    ensures !FilesFit(files)
  {
    assert paths[i] in files;
  }

  lemma AllFit(entries: seq<Entry>, paths: seq<string>, files: Files)
    requires Lists(paths, files.Keys) && entries == EntriesIn(paths, files)
    requires forall j :: 0 <= j < |entries| ==> Fits(entries[j])
    ensures FilesFit(files)
  {
    forall p | p in files
      ensures Fits(Entry(Utf8(p), files[p]))
    {
      assert p in paths;
      var i :| 0 <= i < |paths| && paths[i] == p;
      assert Fits(entries[i]);
    }
  }

  lemma {:induction false} StreamAppend(entries: seq<Entry>, e: Entry)
    ensures Stream(entries + [e]) == Stream(entries) + Frame(e)
    ensures Frame(e) == BigEndian(|e.path|, 4) + e.path + BigEndian(|e.data|, 8) + e.data
  {
    hide Frame;
    if entries == [] {
      assert Stream([e]) == Frame(e) + [];
    } else {
      StreamAppend(entries[1..], e);
      assert (entries + [e])[1..] == entries[1..] + [e];
    }
    assert Frame(e) == BigEndian(|e.path|, 4) + e.path + BigEndian(|e.data|, 8) + e.data by {
      FrameFields(e);
    }
  }

  lemma FrameFields(e: Entry)
    ensures Frame(e) == BigEndian(|e.path|, 4) + e.path + BigEndian(|e.data|, 8) + e.data
  {
  }
}
