/**
 The content-addressed archive (test.go): a recursive walk stores one compressed blob per content hash and an
 index from relative paths to blobs; extraction writes every indexed file. Hashing and compression are arbitrary
 functions; files are opened without truncation. A path is the list of its components.
 */
module Archive {
  import opened Files

  type Path = seq<string>
  type Sum = string

  datatype Node = File(content: Bytes) | Dir(entries: seq<Entry>)
  datatype Entry = Entry(name: string, node: Node)

  datatype Codec = Codec(hash: Bytes -> Sum, compress: Bytes -> Bytes, decompress: Bytes -> Bytes)

  /** Index, blobs, and the number of entries seen. */
  datatype Store = Store(index: map<Path, Sum>, blobs: map<Sum, Bytes>, count: nat)

  const EMPTY := Store(map[], map[], 0)

  /** The files of a directory with their relative paths, in the order of the walk. */
  function FilesIn(dir: Path, entries: seq<Entry>): seq<(Path, Bytes)>
    decreases entries
  {
    if entries == [] then [] else FilesOf(dir, entries[0]) + FilesIn(dir, entries[1..])
  }

  function FilesOf(dir: Path, e: Entry): seq<(Path, Bytes)>
    decreases e
  {
    match e.node
    case File(content) => [(dir + [e.name], content)]
    case Dir(inner) => FilesIn(dir + [e.name], inner)
  }

  function PriorBlob(s: Store, sum: Sum): Bytes {
    if sum in s.blobs then s.blobs[sum] else []
  }

  /** Storing one file: its blob is written over whatever the blob file held, and the path is indexed. */
  function Put(c: Codec, s: Store, path: Path, content: Bytes): Store {
    var sum := c.hash(content);
    s.(index := s.index[path := sum], blobs := s.blobs[sum := Overlay(PriorBlob(s, sum), c.compress(content))])
  }

  /** The effect of the walk over the entries of one directory. */
  function Walk(c: Codec, s: Store, dir: Path, entries: seq<Entry>): Store
    decreases entries
  {
    if entries == [] then s
    else
      var e := entries[0];
      var s1 := s.(count := s.count + 1);
      var s2 := match e.node
        case File(content) => Put(c, s1, dir + [e.name], content)
        case Dir(inner) => Walk(c, s1, dir + [e.name], inner);
      Walk(c, s2, dir, entries[1..])
  }

  /** An extracted file: the decompressed blob written over what the destination had at that path. */
  function Restored(c: Codec, s: Store, dest: map<Path, Bytes>, p: Path): Bytes
    requires p in s.index && s.index[p] in s.blobs
  {
    Overlay(if p in dest then dest[p] else [], c.decompress(s.blobs[s.index[p]]))
  }

  /** The destination once the given indexed paths have been extracted. */
  function ExtractedPaths(c: Codec, s: Store, dest: map<Path, Bytes>, paths: set<Path>): map<Path, Bytes>
    requires forall p :: p in paths ==> p in s.index && s.index[p] in s.blobs
  {
    dest + map p | p in paths :: Restored(c, s, dest, p)
  }

  lemma OneMorePath(c: Codec, s: Store, dest: map<Path, Bytes>, done: set<Path>, p: Path)
    requires forall q :: q in done ==> q in s.index && s.index[q] in s.blobs
    requires p !in done && p in s.index && s.index[p] in s.blobs
    ensures var before := ExtractedPaths(c, s, dest, done);
            && (p in before <==> p in dest) && (p in dest ==> before[p] == dest[p])
            && ExtractedPaths(c, s, dest, done + {p}) == before[p := Restored(c, s, dest, p)]
  {
    var before, after := ExtractedPaths(c, s, dest, done), ExtractedPaths(c, s, dest, done + {p});
    var updated := before[p := Restored(c, s, dest, p)];
    assert after.Keys == updated.Keys;
    forall q | q in after ensures after[q] == updated[q] {
      assert q in done + {p} <==> q in done || q == p;
    }
  }

  lemma NoPathYet(c: Codec, s: Store, dest: map<Path, Bytes>)
    ensures ExtractedPaths(c, s, dest, {}) == dest
  {
  }

  /** No indexed blob is missing. */
  predicate Complete(s: Store) {
    forall p :: p in s.index ==> s.index[p] in s.blobs
  }

  function Extracted(c: Codec, s: Store, dest: map<Path, Bytes>): map<Path, Bytes>
    requires Complete(s)
  {
    ExtractedPaths(c, s, dest, s.index.Keys)
  }

  class Archiver {
    const codec: Codec
    var ss: map<Path, Sum>
    var arc: map<Sum, Bytes>
    var count: nat

    constructor (codec: Codec)
      ensures this.codec == codec && Contents() == EMPTY
    {
      this.codec := codec;
      ss, arc, count := map[], map[], 0;
    }

    function Contents(): Store
      reads this
    {
      Store(ss, arc, count)
    }

    /** The recursive walk. */
    method ListFiles(dir: Path, entries: seq<Entry>)
      modifies this
      ensures Contents() == Walk(codec, old(Contents()), dir, entries)
      decreases entries
    {
      ghost var whole := Walk(codec, Contents(), dir, entries);
      var i := 0;
      while i < |entries|
        invariant 0 <= i <= |entries|
        invariant Walk(codec, Contents(), dir, entries[i..]) == whole
      {
        var e := entries[i];
        assert entries[i..][0] == e && entries[i..][1..] == entries[i + 1..];
        count := count + 1;
        match e.node {
          case Dir(inner) =>
            assert e in entries;
            ListFiles(dir + [e.name], inner);
          case File(content) =>
            var sum := codec.hash(content);
            arc := arc[sum := Overlay(if sum in arc then arc[sum] else [], codec.compress(content))];
            ss := ss[dir + [e.name] := sum];
        }
        i := i + 1;
      }
    }

    /** The extraction loop, over the index in any order; a missing blob ends it. */
    method Extract(dest: map<Path, Bytes>) returns (ext: map<Path, Bytes>, missing: bool)
      ensures missing <==> !Complete(Contents())
      ensures !missing ==> ext == Extracted(codec, Contents(), dest)
    {
      hide ExtractedPaths;
      ext := dest;
      NoPathYet(codec, Contents(), dest);
      ghost var store := Contents();
      ghost var done: set<Path> := {};
      var left := ss.Keys;
      while left != {}
        invariant done + left == ss.Keys && done !! left
        invariant forall p :: p in done ==> p in store.index && store.index[p] in store.blobs
        invariant ext == ExtractedPaths(codec, store, dest, done)
        decreases |left|
      {
        var p :| p in left;
        left := left - {p};
        if ss[p] !in arc {
          return ext, true;
        }
        OneMorePath(codec, store, dest, done, p);
        var prior := if p in ext then ext[p] else [];
        assert prior == if p in dest then dest[p] else [];
        ext := ext[p := Overlay(prior, codec.decompress(arc[ss[p]]))];
        done := done + {p};
      }
      assert done == ss.Keys;
      return ext, false;
    }
  }

  // ---------------------------------------------------------------- the walk as a list of files

  function PutList(c: Codec, s: Store, files: seq<(Path, Bytes)>): Store {
    if files == [] then s
    else
      var last := files[|files| - 1];
      Put(c, PutList(c, s, files[..|files| - 1]), last.0, last.1)
  }

  lemma {:induction false} PutListConcat(c: Codec, s: Store, a: seq<(Path, Bytes)>, b: seq<(Path, Bytes)>)
    ensures PutList(c, s, a + b) == PutList(c, PutList(c, s, a), b)
    decreases |b|
  {
    if b == [] {
      assert a + b == a;
    } else {
      assert (a + b)[..|a + b| - 1] == a + b[..|b| - 1];
      PutListConcat(c, s, a, b[..|b| - 1]);
    }
  }

  /** Equality up to the counter. */
  ghost predicate SameStore(a: Store, b: Store) {
    a.index == b.index && a.blobs == b.blobs
  }

  lemma {:induction false} PutListIgnoresCount(c: Codec, a: Store, b: Store, files: seq<(Path, Bytes)>)
    requires SameStore(a, b)
    ensures SameStore(PutList(c, a, files), PutList(c, b, files))
    decreases |files|
  {
    if files != [] {
      PutListIgnoresCount(c, a, b, files[..|files| - 1]);
    }
  }

  /** The recursive walk stores the files of the directory one after the other. */
  lemma {:induction false} WalkIsPutList(c: Codec, s: Store, dir: Path, entries: seq<Entry>)
    ensures SameStore(Walk(c, s, dir, entries), PutList(c, s, FilesIn(dir, entries)))
    decreases entries
  {
    if entries != [] {
      var e := entries[0];
      var s1 := s.(count := s.count + 1);
      var first, rest := FilesOf(dir, e), FilesIn(dir, entries[1..]);
      PutListConcat(c, s, first, rest);
      match e.node {
        case File(content) =>
          var s2 := Put(c, s1, dir + [e.name], content);
          WalkIsPutList(c, s2, dir, entries[1..]);
          assert first[..0] == [];
          assert PutList(c, s, first) == Put(c, PutList(c, s, []), first[0].0, first[0].1);
          PutListIgnoresCount(c, s2, PutList(c, s, first), rest);
        case Dir(inner) =>
          assert e in entries;
          var s2 := Walk(c, s1, dir + [e.name], inner);
          WalkIsPutList(c, s1, dir + [e.name], inner);
          WalkIsPutList(c, s2, dir, entries[1..]);
          PutListIgnoresCount(c, s1, s, first);
          PutListIgnoresCount(c, s2, PutList(c, s, first), rest);
      }
    }
  }

  // ---------------------------------------------------------------- paths

  /** Names in a directory are distinct, at every level. */
  ghost predicate DistinctNames(entries: seq<Entry>) {
    && (forall i, j :: 0 <= i < j < |entries| ==> entries[i].name != entries[j].name)
    && (forall i :: 0 <= i < |entries| && entries[i].node.Dir? ==> DistinctNames(entries[i].node.entries))
  }

  ghost predicate DistinctPaths(files: seq<(Path, Bytes)>) {
    forall i, j :: 0 <= i < j < |files| ==> files[i].0 != files[j].0
  }

  /** A path inside a directory that starts with the given name. */
  predicate Under(dir: Path, name: string, p: Path) {
    |p| > |dir| && p[..|dir|] == dir && p[|dir|] == name
  }

  ghost predicate Names(entries: seq<Entry>, name: string) {
    exists i :: 0 <= i < |entries| && entries[i].name == name
  }

  lemma {:induction false} PathsOfEntry(dir: Path, e: Entry, k: nat)
    requires k < |FilesOf(dir, e)|
    ensures Under(dir, e.name, FilesOf(dir, e)[k].0)
    decreases e
  {
    if e.node.Dir? {
      PathsBelow(dir + [e.name], e.node.entries, k);
      var p := FilesOf(dir, e)[k].0;
      assert p[..|dir| + 1] == dir + [e.name];
      assert p[..|dir|] == p[..|dir| + 1][..|dir|];
      assert p[|dir|] == p[..|dir| + 1][|dir|];
    }
  }

  lemma {:induction false} PathsBelow(dir: Path, entries: seq<Entry>, k: nat)
    requires k < |FilesIn(dir, entries)|
    ensures var p := FilesIn(dir, entries)[k].0;
            |p| > |dir| && p[..|dir|] == dir && Names(entries, p[|dir|])
    decreases entries
  {
    var first := FilesOf(dir, entries[0]);
    if k < |first| {
      PathsOfEntry(dir, entries[0], k);
    } else {
      PathsBelow(dir, entries[1..], k - |first|);
      var p := FilesIn(dir, entries)[k].0;
      var i :| 0 <= i < |entries[1..]| && entries[1..][i].name == p[|dir|];
      assert entries[i + 1].name == p[|dir|];
    }
  }

  lemma FirstNameApart(entries: seq<Entry>)
    requires entries != [] && DistinctNames(entries)
    ensures !Names(entries[1..], entries[0].name)
  {
    forall k | 0 <= k < |entries[1..]| ensures entries[1..][k].name != entries[0].name {
      assert entries[1..][k] == entries[k + 1];
    }
  }

  /** Distinct names make distinct paths over the whole tree. */
  lemma {:induction false} TreePathsDistinct(dir: Path, entries: seq<Entry>)
    requires DistinctNames(entries)
    ensures DistinctPaths(FilesIn(dir, entries))
    decreases entries
  {
    if entries != [] {
      var e := entries[0];
      var first, rest := FilesOf(dir, e), FilesIn(dir, entries[1..]);
      TreePathsDistinct(dir, entries[1..]);
      if e.node.Dir? {
        assert e in entries;
        TreePathsDistinct(dir + [e.name], e.node.entries);
      }
      forall i, j | 0 <= i < |first| && 0 <= j < |rest| ensures first[i].0 != rest[j].0 {
        PathsOfEntry(dir, e, i);
        PathsBelow(dir, entries[1..], j);
        FirstNameApart(entries);
      }
    }
  }

  // ---------------------------------------------------------------- round trip

  ghost function ContentsOf(files: seq<(Path, Bytes)>): set<Bytes> {
    set i | 0 <= i < |files| :: files[i].1
  }

  ghost predicate InjectiveOn(hash: Bytes -> Sum, contents: set<Bytes>) {
    forall a, b :: a in contents && b in contents && hash(a) == hash(b) ==> a == b
  }

  ghost predicate Lossless(c: Codec, contents: set<Bytes>) {
    forall a :: a in contents ==> c.decompress(c.compress(a)) == a
  }

  ghost function Sums(c: Codec, contents: set<Bytes>): set<Sum> {
    set a | a in contents :: c.hash(a)
  }

  /** Every file is indexed under its hash, and nothing else is indexed. */
  lemma {:induction false} Indexed(c: Codec, files: seq<(Path, Bytes)>)
    requires DistinctPaths(files)
    ensures var index := PutList(c, EMPTY, files).index;
            && (forall p :: p in index ==> IsPath(files, p))
            && (forall i :: 0 <= i < |files| ==> files[i].0 in index && index[files[i].0] == c.hash(files[i].1))
    decreases |files|
  {
    if files != [] {
      var n := |files| - 1;
      var init, last := files[..n], files[n];
      Indexed(c, init);
      var index := PutList(c, EMPTY, files).index;
      assert index == PutList(c, EMPTY, init).index[last.0 := c.hash(last.1)];
      forall i | 0 <= i < |files| ensures files[i].0 in index && index[files[i].0] == c.hash(files[i].1) {
        assert i < n ==> files[i] == init[i];
      }
      forall p | p in index ensures IsPath(files, p) {
        if p == last.0 {
          assert files[n].0 == p;
        } else {
          var i :| 0 <= i < |init| && init[i].0 == p;
          assert files[i].0 == p;
        }
      }
    }
  }

  ghost predicate IsPath(files: seq<(Path, Bytes)>, p: Path) {
    exists i :: 0 <= i < |files| && files[i].0 == p
  }

  /** The blobs are named by the hashes of the contents. */
  lemma {:induction false} BlobNames(c: Codec, files: seq<(Path, Bytes)>)
    ensures PutList(c, EMPTY, files).blobs.Keys == Sums(c, ContentsOf(files))
    decreases |files|
  {
    if files == [] {
      assert ContentsOf(files) == {};
    } else {
      var init, last := files[..|files| - 1], files[|files| - 1].1;
      BlobNames(c, init);
      ContentsSnoc(files);
      assert Sums(c, ContentsOf(init) + {last}) == Sums(c, ContentsOf(init)) + {c.hash(last)};
    }
  }

  lemma ContentsSnoc(files: seq<(Path, Bytes)>)
    requires files != []
    ensures ContentsOf(files) == ContentsOf(files[..|files| - 1]) + {files[|files| - 1].1}
  {
    var n := |files| - 1;
    var init := files[..n];
    forall a | a in ContentsOf(files) ensures a in ContentsOf(init) + {files[n].1} {
      var i :| 0 <= i < |files| && files[i].1 == a;
      assert i < n ==> init[i].1 == a;
    }
    forall a | a in ContentsOf(init) + {files[n].1} ensures a in ContentsOf(files) {
      if a in ContentsOf(init) {
        var i :| 0 <= i < |init| && init[i].1 == a;
        assert files[i].1 == a;
      }
    }
  }

  /** With an injective hash every blob is the compressed content, however often it was written. */
  lemma {:induction false} BlobsFaithful(c: Codec, files: seq<(Path, Bytes)>)
    requires InjectiveOn(c.hash, ContentsOf(files))
    ensures forall a :: a in ContentsOf(files) ==> FaithfulFor(c, PutList(c, EMPTY, files), a)
    decreases |files|
  {
    if files != [] {
      var n := |files| - 1;
      var init, last := files[..n], files[n].1;
      ContentsSnoc(files);
      BlobsFaithful(c, init);
      BlobNames(c, init);
      PutFaithful(c, PutList(c, EMPTY, init), ContentsOf(init), files[n].0, last);
    }
  }

  ghost predicate FaithfulFor(c: Codec, s: Store, a: Bytes) {
    c.hash(a) in s.blobs && s.blobs[c.hash(a)] == c.compress(a)
  }

  lemma PutFaithful(c: Codec, s: Store, contents: set<Bytes>, path: Path, content: Bytes)
    requires InjectiveOn(c.hash, contents + {content})
    requires forall a :: a in contents ==> FaithfulFor(c, s, a)
    requires s.blobs.Keys == Sums(c, contents)
    ensures forall a :: a in contents + {content} ==> FaithfulFor(c, Put(c, s, path, content), a)
  {
    if c.hash(content) in s.blobs {
      var a :| a in contents && c.hash(a) == c.hash(content);
      assert a == content && FaithfulFor(c, s, a);
    }
  }

  /** Extraction reproduces every file at its path, and nothing else. */
  ghost predicate Reproduces(ext: map<Path, Bytes>, files: seq<(Path, Bytes)>) {
    && (forall i :: 0 <= i < |files| ==> files[i].0 in ext && ext[files[i].0] == files[i].1)
    && (forall p :: p in ext ==> IsPath(files, p))
  }

  /**
   Archiving a directory tree and extracting into an empty destination reproduces every file at its path if and
   only if the hash is injective on the contents in the tree, provided decompression inverts compression.
   */
  lemma RoundTripIff(c: Codec, entries: seq<Entry>)
    requires DistinctNames(entries) && Lossless(c, ContentsOf(FilesIn([], entries)))
    ensures Complete(Walk(c, EMPTY, [], entries))
    ensures Reproduces(Extracted(c, Walk(c, EMPTY, [], entries), map[]), FilesIn([], entries))
            <==> InjectiveOn(c.hash, ContentsOf(FilesIn([], entries)))
  {
    var files := FilesIn([], entries);
    WalkIsPutList(c, EMPTY, [], entries);
    TreePathsDistinct([], entries);
    ListRoundTripIff(c, files);
    SameExtraction(c, Walk(c, EMPTY, [], entries), PutList(c, EMPTY, files));
  }

  lemma SameExtraction(c: Codec, a: Store, b: Store)
    requires SameStore(a, b) && Complete(b)
    ensures Complete(a) && Extracted(c, a, map[]) == Extracted(c, b, map[])
  {
  }

  /** The list archived and extracted into an empty destination. */
  function ThroughArchive(c: Codec, files: seq<(Path, Bytes)>): map<Path, Bytes>
    requires Complete(PutList(c, EMPTY, files))
  {
    Extracted(c, PutList(c, EMPTY, files), map[])
  }

  lemma ThroughArchiveAt(c: Codec, files: seq<(Path, Bytes)>)
    requires DistinctPaths(files)
    ensures Complete(PutList(c, EMPTY, files))
    ensures var s := PutList(c, EMPTY, files);
            forall i :: 0 <= i < |files| ==>
              && files[i].0 in ThroughArchive(c, files) && c.hash(files[i].1) in s.blobs
              && ThroughArchive(c, files)[files[i].0] == c.decompress(s.blobs[c.hash(files[i].1)])
    ensures forall p :: p in ThroughArchive(c, files) ==> IsPath(files, p)
  {
    hide PutList;
    var s := PutList(c, EMPTY, files);
    Indexed(c, files);
    BlobNames(c, files);
    forall i | 0 <= i < |files| ensures c.hash(files[i].1) in s.blobs {
      assert files[i].1 in ContentsOf(files);
    }
    forall p | p in s.index ensures s.index[p] in s.blobs {
      assert IsPath(files, p);
    }
  }

  lemma ListRoundTripIff(c: Codec, files: seq<(Path, Bytes)>)
    requires DistinctPaths(files) && Lossless(c, ContentsOf(files))
    ensures Complete(PutList(c, EMPTY, files))
    ensures Reproduces(ThroughArchive(c, files), files) <==> InjectiveOn(c.hash, ContentsOf(files))
  {
    ThroughArchiveAt(c, files);
    if InjectiveOn(c.hash, ContentsOf(files)) {
      BlobsFaithful(c, files);
      forall i | 0 <= i < |files| ensures ThroughArchive(c, files)[files[i].0] == files[i].1 {
        assert files[i].1 in ContentsOf(files);
        assert FaithfulFor(c, PutList(c, EMPTY, files), files[i].1);
      }
    }
    if Reproduces(ThroughArchive(c, files), files) {
      SameHashSameContent(c, files);
    }
  }

  lemma SameHashSameContent(c: Codec, files: seq<(Path, Bytes)>)
    requires DistinctPaths(files)
    requires Complete(PutList(c, EMPTY, files)) && Reproduces(ThroughArchive(c, files), files)
    ensures InjectiveOn(c.hash, ContentsOf(files))
  {
    ThroughArchiveAt(c, files);
    forall a, b | a in ContentsOf(files) && b in ContentsOf(files) && c.hash(a) == c.hash(b) ensures a == b {
      var i :| 0 <= i < |files| && files[i].1 == a;
      var j :| 0 <= j < |files| && files[j].1 == b;
      assert ThroughArchive(c, files)[files[i].0] == ThroughArchive(c, files)[files[j].0];
    }
  }

  /** With an injective hash the archive holds one blob per distinct content. */
  lemma OneBlobPerContent(c: Codec, entries: seq<Entry>)
    requires InjectiveOn(c.hash, ContentsOf(FilesIn([], entries)))
    ensures |Walk(c, EMPTY, [], entries).blobs| == |ContentsOf(FilesIn([], entries))|
  {
    var files := FilesIn([], entries);
    WalkIsPutList(c, EMPTY, [], entries);
    BlobNames(c, files);
    ImageSize(c, ContentsOf(files));
    var s := Walk(c, EMPTY, [], entries);
    assert |s.blobs| == |s.blobs.Keys|;
  }

  lemma {:induction false} ImageSize(c: Codec, contents: set<Bytes>)
    requires InjectiveOn(c.hash, contents)
    ensures |Sums(c, contents)| == |contents|
    decreases |contents|
  {
    if contents != {} {
      var a :| a in contents;
      var rest := contents - {a};
      ImageSize(c, rest);
      assert Sums(c, contents) == Sums(c, rest) + {c.hash(a)};
      assert c.hash(a) !in Sums(c, rest);
    } else {
      assert Sums(c, contents) == {};
    }
  }

  // ---------------------------------------------------------------- extracting over existing files

  /**
   Over a destination that holds files already, a file is restored exactly if nothing longer stood at its path;
   otherwise the end of the older file stays behind it. Paths that are not archived are left alone.
   */
  lemma OverDestination(c: Codec, s: Store, dest: map<Path, Bytes>)
    requires Complete(s)
    ensures var alone, ext := Extracted(c, s, map[]), Extracted(c, s, dest);
            && ext.Keys == dest.Keys + s.index.Keys
            && alone.Keys == s.index.Keys
            && (forall p :: p in dest && p !in s.index ==> ext[p] == dest[p])
            && (forall p :: p in s.index ==> (ext[p] == alone[p] <==> p !in dest || |dest[p]| <= |alone[p]|))
            && (forall p :: p in s.index && p in dest && |dest[p]| > |alone[p]| ==>
                  ext[p] == alone[p] + dest[p][|alone[p]|..])
  {
    var alone, ext := Extracted(c, s, map[]), Extracted(c, s, dest);
    forall p | p in s.index
      ensures ext[p] == alone[p] <==> p !in dest || |dest[p]| <= |alone[p]|
      ensures p in dest && |dest[p]| > |alone[p]| ==> ext[p] == alone[p] + dest[p][|alone[p]|..]
    {
      var content := c.decompress(s.blobs[s.index[p]]);
      assert alone[p] == content;
      OverlayExactIff(if p in dest then dest[p] else [], content);
    }
  }

  /** With an injective hash, what a whole tree becomes over an existing destination. */
  lemma TreeOverDestination(c: Codec, entries: seq<Entry>, dest: map<Path, Bytes>)
    requires DistinctNames(entries) && Lossless(c, ContentsOf(FilesIn([], entries)))
    requires InjectiveOn(c.hash, ContentsOf(FilesIn([], entries)))
    ensures var files, s := FilesIn([], entries), Walk(c, EMPTY, [], entries);
            && Complete(s)
            && forall i :: 0 <= i < |files| ==>
                 var p, content := files[i].0, files[i].1;
                 && p in Extracted(c, s, dest)
                 && (Extracted(c, s, dest)[p] == content <==> p !in dest || |dest[p]| <= |content|)
  {
    RoundTripIff(c, entries);
    hide FilesIn, Walk, Lossless, InjectiveOn, Extracted;
    OverDestination(c, Walk(c, EMPTY, [], entries), dest);
  }

  /**
   Storing a file writes its blob over the one with the same hash, whose end stays if it was longer; nothing else
   changes but the index entry of the path.
   */
  lemma BlobOverBlob(c: Codec, s: Store, path: Path, content: Bytes)
    ensures var s', sum, z := Put(c, s, path, content), c.hash(content), c.compress(content);
            && s'.index.Keys == s.index.Keys + {path} && s'.blobs.Keys == s.blobs.Keys + {sum}
            && s'.index[path] == sum
            && (forall p :: p in s.index && p != path ==> s'.index[p] == s.index[p])
            && (forall b :: b in s.blobs && b != sum ==> s'.blobs[b] == s.blobs[b])
            && (s'.blobs[sum] == z <==> sum !in s.blobs || |s.blobs[sum]| <= |z|)
            && (sum in s.blobs && |s.blobs[sum]| > |z| ==> s'.blobs[sum] == z + s.blobs[sum][|z|..])
  {
    OverlayExactIff(PriorBlob(s, c.hash(content)), c.compress(content));
  }

  // ---------------------------------------------------------------- what the walk finds

  /** Entries at all levels, directories included. */
  function Entries(entries: seq<Entry>): nat
    decreases entries
  {
    if entries == [] then 0 else EntriesOf(entries[0]) + Entries(entries[1..])
  }

  function EntriesOf(e: Entry): nat
    decreases e
  {
    match e.node
    case File(_) => 1
    case Dir(inner) => 1 + Entries(inner)
  }

  lemma {:induction false} WalkCounts(c: Codec, s: Store, dir: Path, entries: seq<Entry>)
    ensures Walk(c, s, dir, entries).count == s.count + Entries(entries)
    decreases entries
  {
    if entries != [] {
      var e := entries[0];
      var s1 := s.(count := s.count + 1);
      match e.node {
        case File(content) =>
          WalkCounts(c, Put(c, s1, dir + [e.name], content), dir, entries[1..]);
        case Dir(inner) =>
          assert e in entries;
          WalkCounts(c, s1, dir + [e.name], inner);
          WalkCounts(c, Walk(c, s1, dir + [e.name], inner), dir, entries[1..]);
      }
    }
  }

  /** The entry leads to a file of this content: by its name alone, or further down in its directory. */
  predicate LeadsTo(e: Entry, path: Path, content: Bytes)
    decreases e, 0
  {
    && path != [] && path[0] == e.name
    && match e.node
       case File(x) => |path| == 1 && x == content
       case Dir(inner) => Holds(inner, path[1..], content)
  }

  predicate Holds(entries: seq<Entry>, path: Path, content: Bytes)
    decreases entries
  {
    exists i :: 0 <= i < |entries| && LeadsTo(entries[i], path, content)
  }

  lemma {:induction false} FilesOfIff(dir: Path, e: Entry, path: Path, content: Bytes)
    ensures (dir + path, content) in FilesOf(dir, e) <==> LeadsTo(e, path, content)
    decreases e, 1
  {
    match e.node {
      case File(x) =>
        SamePath(dir, path, [e.name]);
      case Dir(inner) =>
        if path != [] && path[0] == e.name {
          FilesInIff(dir + [e.name], inner, path[1..], content);
          assert dir + path == dir + [e.name] + path[1..];
        } else if (dir + path, content) in FilesOf(dir, e) {
          var k :| 0 <= k < |FilesOf(dir, e)| && FilesOf(dir, e)[k] == (dir + path, content);
          PathsOfEntry(dir, e, k);
        }
    }
  }

  lemma SamePath(dir: Path, a: Path, b: Path)
    ensures dir + a == dir + b <==> a == b
  {
    if dir + a == dir + b {
      assert a == (dir + a)[|dir|..] && b == (dir + b)[|dir|..];
    }
  }

  /** The walk lists exactly the files that the tree holds, each under the names that lead to it. */
  lemma {:induction false} FilesInIff(dir: Path, entries: seq<Entry>, path: Path, content: Bytes)
    ensures (dir + path, content) in FilesIn(dir, entries) <==> Holds(entries, path, content)
    decreases entries
  {
    if entries != [] {
      assert entries[0] in entries;
      FilesOfIff(dir, entries[0], path, content);
      FilesInIff(dir, entries[1..], path, content);
      HoldsCons(entries, path, content);
    }
  }

  lemma HoldsCons(entries: seq<Entry>, path: Path, content: Bytes)
    requires entries != []
    ensures Holds(entries, path, content)
            <==> LeadsTo(entries[0], path, content) || Holds(entries[1..], path, content)
  {
    hide LeadsTo;
    assert forall i :: 0 <= i < |entries| - 1 ==> entries[1..][i] == entries[i + 1];
    if Holds(entries, path, content) {
      var i :| 0 <= i < |entries| && LeadsTo(entries[i], path, content);
      assert i > 0 ==> LeadsTo(entries[1..][i - 1], path, content);
    }
    if Holds(entries[1..], path, content) {
      var i :| 0 <= i < |entries[1..]| && LeadsTo(entries[1..][i], path, content);
      assert LeadsTo(entries[i + 1], path, content);
    }
  }
}
