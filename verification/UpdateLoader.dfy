/**
 The ungated variant of the upload protocol (service/maintenance.go): a receive loop over a stream, a fresh
 temporary file for every Info, and the same length and digest checks. Opening and writing the temporary file,
 and running the installer, are taken to succeed.
 */
module UpdateLoader {
  import opened Machine
  import opened Options
  import opened Files
  import opened Upload

  datatype Update = Installed(content: Bytes) | Rejected(result: Result)

  /** The announced size after a stretch of the stream: that of its last Info. */
  function TotalAfter(ms: seq<Message>): uint32 {
    if ms == [] then 0
    else if ms[|ms| - 1].Info? then ms[|ms| - 1].size
    else TotalAfter(ms[..|ms| - 1])
  }

  /** The temporary file after a stretch of the stream: the chunks since its last Info. */
  function FileAfter(ms: seq<Message>): Option<Bytes> {
    if ms == [] then None
    else
      var before := FileAfter(ms[..|ms| - 1]);
      match ms[|ms| - 1]
      case Info(_, _) => Some([])
      case Chunk(data) => if before.Some? then Some(before.value + data) else None
      case _ => before
  }

  /** The percentages reported along a stretch of the stream; the counter is not reset by a second Info. */
  function Reports(ms: seq<Message>): seq<int> {
    if ms == [] then []
    else
      var before, last := ms[..|ms| - 1], ms[|ms| - 1];
      var total := TotalAfter(before);
      Reports(before) + (if last.Chunk? && total != 0 then [|ChunkData(ms)| % TWO_32 * 100 / total] else [])
  }

  lemma Snoc(ms: seq<Message>, i: nat)
    requires i < |ms|
    ensures ms[..i + 1][..i] == ms[..i]
    ensures ms[i].Chunk? ==> |ChunkData(ms[..i + 1])| == |ChunkData(ms[..i])| + |ms[i].data|
    ensures !ms[i].Chunk? ==> ChunkData(ms[..i + 1]) == ChunkData(ms[..i])
  {
  }

  /** No message before h ends the session: no Hash, and no chunk while the announced size is zero. */
  ghost predicate Reaches(ms: seq<Message>, h: nat) {
    h <= |ms| && forall j: nat :: j < h ==> Harmless(ms, j)
  }

  ghost predicate Harmless(ms: seq<Message>, j: nat)
    requires j < |ms|
  {
    !ms[j].Hash? && (ms[j].Chunk? ==> TotalAfter(ms[..j]) != 0)
  }

  /** The session reaches a Hash at h whose checks the file passes. */
  ghost predicate Installs(ms: seq<Message>, digest: Bytes -> string, h: nat, content: Bytes) {
    && h < |ms| && Reaches(ms, h) && ms[h].Hash?
    && FileAfter(ms[..h]) == Some(content)
    && |content| == TotalAfter(ms[..h])
    && digest(content) == ms[h].sum
  }

  /** The session serves the first n messages and ends at the next, or at the end of the stream. */
  ghost predicate StopsBefore(ms: seq<Message>, n: nat) {
    Reaches(ms, n) && (n < |ms| ==> !Harmless(ms, n))
  }

  /** What becomes of a session that is about to end at message n. */
  function Ending(ms: seq<Message>, n: nat, digest: Bytes -> string): Update {
    if n >= |ms| then Rejected(RecvError)
    else
      var file, total := FileAfter(ms[..n]), TotalAfter(ms[..n]);
      if ms[n].Chunk? then Rejected(if file.None? then WriteError else Fault)
      else if file.None? then Rejected(SeekError)
      else if |file.value| != total then Rejected(SizeError)
      else if ms[n].Hash? && digest(file.value) == ms[n].sum then Installed(file.value)
      else Rejected(HashError)
  }

  /** Before the first Info there is no file, and the announced size is zero. */
  lemma {:induction false} NothingOpened(ms: seq<Message>)
    requires forall j: nat :: j < |ms| ==> !ms[j].Info?
    ensures FileAfter(ms) == None && TotalAfter(ms) == 0
    decreases |ms|
  {
    if ms != [] {
      NothingOpened(ms[..|ms| - 1]);
    }
  }

  /** The file written so far, told from the last Info at a and the chunks behind it. */
  lemma EndingIff(ms: seq<Message>, a: nat, size: uint32, path: string, n: nat, digest: Bytes -> string)
    requires a < n <= |ms| && ms[a] == Info(size, path)
    requires forall j: nat :: a < j < n ==> !ms[j].Info?
    ensures n == |ms| ==> Ending(ms, n, digest) == Rejected(RecvError)
    ensures n < |ms| && ms[n].Chunk? ==> Ending(ms, n, digest) == Rejected(Fault)
    ensures n < |ms| && ms[n].Hash? ==>
      var data := ChunkData(ms[a + 1..n]);
      && (Ending(ms, n, digest) == Rejected(SizeError) <==> |data| != size)
      && (Ending(ms, n, digest) == Rejected(HashError) <==> |data| == size && digest(data) != ms[n].sum)
      && (Ending(ms, n, digest) == Installed(data) <==> |data| == size && digest(data) == ms[n].sum)
  {
    InstalledIsSinceLastInfo(ms[..n], a, size, path);
    assert ms[..n][a + 1..] == ms[a + 1..n];
    hide FileAfter, TotalAfter, ChunkData;
  }

  /** Without an Info a chunk cannot be written, and a Hash finds nothing to read. */
  lemma EndingWithoutInfo(ms: seq<Message>, n: nat, digest: Bytes -> string)
    requires n <= |ms| && forall j: nat :: j < n ==> !ms[j].Info?
    ensures n == |ms| ==> Ending(ms, n, digest) == Rejected(RecvError)
    ensures n < |ms| && ms[n].Chunk? ==> Ending(ms, n, digest) == Rejected(WriteError)
    ensures n < |ms| && ms[n].Hash? ==> Ending(ms, n, digest) == Rejected(SeekError)
  {
    NothingOpened(ms[..n]);
  }

  /** A session stops at one place only. */
  lemma StopsOnce(ms: seq<Message>, h: nat, h': nat)
    requires h < |ms| && h' < |ms| && Reaches(ms, h) && Reaches(ms, h')
    requires !Harmless(ms, h) && !Harmless(ms, h')
    ensures h == h'
  {
  }

  /** An open temporary file goes with an Info, and a nonzero size with an open file. */
  lemma {:induction false} SizeNeedsFile(ms: seq<Message>)
    ensures TotalAfter(ms) != 0 ==> FileAfter(ms).Some?
    decreases |ms|
  {
    if ms != [] {
      SizeNeedsFile(ms[..|ms| - 1]);
    }
  }

  /** Size, file and reports after one more message that does not end the session. */
  lemma OneMore(ms: seq<Message>, i: nat)
    requires Reaches(ms, i) && i < |ms|
    ensures TotalAfter(ms[..i + 1]) == if ms[i].Info? then ms[i].size else TotalAfter(ms[..i])
    ensures ms[i].Info? ==> FileAfter(ms[..i + 1]) == Some([])
    ensures ms[i].Chunk? && FileAfter(ms[..i]).Some? ==>
      FileAfter(ms[..i + 1]) == Some(FileAfter(ms[..i]).value + ms[i].data)
    ensures !ms[i].Info? && !ms[i].Chunk? ==> FileAfter(ms[..i + 1]) == FileAfter(ms[..i])
    ensures Reports(ms[..i + 1]) == Reports(ms[..i]) +
      if ms[i].Chunk? && TotalAfter(ms[..i]) != 0
      then [|ChunkData(ms[..i + 1])| % TWO_32 * 100 / TotalAfter(ms[..i])] else []
    ensures Harmless(ms, i) ==> Reaches(ms, i + 1)
    ensures !Harmless(ms, i) ==> StopsBefore(ms, i)
  {
    Snoc(ms, i);
    hide ChunkData;
  }

  lemma NothingBefore(ms: seq<Message>)
    ensures Reaches(ms, 0)
  {
  }

  lemma EndOfStream(ms: seq<Message>)
    requires Reaches(ms, |ms|)
    ensures StopsBefore(ms, |ms|)
  {
  }

  lemma InstallsHere(ms: seq<Message>, digest: Bytes -> string, h: nat, content: Bytes)
    requires h < |ms| && Reaches(ms, h) && ms[h].Hash?
    requires FileAfter(ms[..h]) == Some(content) && |content| == TotalAfter(ms[..h]) && digest(content) == ms[h].sum
    ensures Installs(ms, digest, h, content)
  {
  }

  lemma NothingServed(ms: seq<Message>)
    ensures TotalAfter(ms[..0]) == 0 && FileAfter(ms[..0]) == None && Reports(ms[..0]) == [] && ChunkData(ms[..0]) == []
  {
  }

  /** The receive loop. The percentage it reports after a chunk divides by the announced size. */
  method Serve(ms: seq<Message>, digest: Bytes -> string) returns (update: Update, reports: seq<int>)
    ensures update.Installed? ==> exists h :: Installs(ms, digest, h, update.content)
    ensures forall h, c :: Installs(ms, digest, h, c) ==> update == Installed(c)
    ensures update == Rejected(Fault) ==>
      exists h: nat :: h < |ms| && Reaches(ms, h) && ms[h].Chunk? && TotalAfter(ms[..h]) == 0
    ensures exists n: nat :: StopsBefore(ms, n) && update == Ending(ms, n, digest) && reports == Reports(ms[..n])
  {
    hide FileAfter, TotalAfter, Reports, ChunkData, Reaches, StopsBefore, Installs;
    NothingServed(ms);
    NothingBefore(ms);
    var file: Option<Bytes> := None;
    var total: uint32 := 0;
    var received: uint32 := 0;
    var i := 0;
    reports := [];
    while i < |ms|
      invariant 0 <= i <= |ms|
      invariant Reaches(ms, i)
      invariant file == FileAfter(ms[..i]) && total == TotalAfter(ms[..i])
      invariant received == |ChunkData(ms[..i])| % TWO_32 && reports == Reports(ms[..i])
    {
      Snoc(ms, i);
      OneMore(ms, i);
      match ms[i] {
        case Info(size, _) =>
          total := size;
          file := Some([]);
        case Chunk(data) =>
          if file.None? {
            SizeNeedsFile(ms[..i]);
            OnlyStop(ms, digest, i);
            return Rejected(WriteError), reports;
          }
          file := Some(file.value + data);
          received := ToUint32(received + |data|);
          CounterStep(|ChunkData(ms[..i])|, |data|);
          if total == 0 {
            OnlyStop(ms, digest, i);
            return Rejected(Fault), reports;
          }
          reports := reports + [received * 100 / total];
        case Hash(sum) =>
          OnlyStop(ms, digest, i);
          if file.None? {
            return Rejected(SeekError), reports;
          }
          if |file.value| != total {
            return Rejected(SizeError), reports;
          }
          if digest(file.value) != sum {
            return Rejected(HashError), reports;
          }
          InstallsHere(ms, digest, i, file.value);
          return Installed(file.value), reports;
        case Unset =>
      }
      i := i + 1;
    }
    NoStop(ms, digest);
    EndOfStream(ms);
    assert i == |ms|;
    return Rejected(RecvError), reports;
  }

  lemma NoStop(ms: seq<Message>, digest: Bytes -> string)
    requires Reaches(ms, |ms|)
    ensures forall h, c :: !Installs(ms, digest, h, c)
  {
    forall h: nat, c ensures !Installs(ms, digest, h, c) {
      assert h < |ms| ==> Harmless(ms, h);
    }
  }

  /** Where the loop stops, no other place can install. */
  lemma OnlyStop(ms: seq<Message>, digest: Bytes -> string, i: nat)
    requires i < |ms| && Reaches(ms, i) && !Harmless(ms, i)
    ensures forall h, c :: Installs(ms, digest, h, c) ==>
      && h == i && ms[i].Hash? && FileAfter(ms[..i]) == Some(c)
      && |c| == TotalAfter(ms[..i]) && digest(c) == ms[i].sum
  {
    forall h, c | Installs(ms, digest, h, c) ensures h == i {
      StopsOnce(ms, h, i);
    }
  }

  /** What an installed file is: exactly the chunks since the last Info, as many bytes as it announced. */
  lemma {:induction false} InstalledIsSinceLastInfo(ms: seq<Message>, a: nat, size: uint32, path: string)
    requires a < |ms| && ms[a] == Info(size, path)
    requires forall j: nat :: a < j < |ms| ==> !ms[j].Info?
    ensures TotalAfter(ms) == size
    ensures FileAfter(ms) == Some(ChunkData(ms[a + 1..]))
    decreases |ms|
  {
    var init, last := ms[..|ms| - 1], ms[|ms| - 1];
    if a == |ms| - 1 {
      assert ms[a + 1..] == [];
    } else {
      InstalledIsSinceLastInfo(init, a, size, path);
      assert ms[a + 1..] == init[a + 1..] + [last];
      ChunkDataSnoc(init[a + 1..], last);
    }
  }

  /** For a stream of one Info, chunks and one Hash, the update is installed if and only if both checks hold. */
  lemma WellFormedInstallsIff(ms: seq<Message>, digest: Bytes -> string, size: uint32, path: string, sum: string)
    requires |ms| >= 2 && ms[0] == Info(size, path) && ms[|ms| - 1] == Hash(sum) && size > 0
    requires forall j: nat :: 0 < j < |ms| - 1 ==> ms[j].Chunk?
    ensures var data := ChunkData(ms[1..|ms| - 1]);
            (exists h, c :: Installs(ms, digest, h, c)) <==> |data| == size && digest(data) == sum
    ensures forall h, c :: Installs(ms, digest, h, c) ==> c == ChunkData(ms[1..|ms| - 1])
  {
    var h := |ms| - 1;
    var data := ChunkData(ms[1..h]);
    forall j: nat | j < h ensures Harmless(ms, j) {
      if j > 0 {
        InstalledIsSinceLastInfo(ms[..j], 0, size, path);
      }
    }
    InstalledIsSinceLastInfo(ms[..h], 0, size, path);
    assert ms[..h][1..] == ms[1..h];
    OnlyStop(ms, digest, h);
    if |data| == size && digest(data) == sum {
      assert Installs(ms, digest, h, data);
    }
  }

  /** Nonnegative, never going back, and ending at or below the given top. */
  ghost predicate Rising(r: seq<int>, top: int) {
    (forall i, j :: 0 <= i <= j < |r| ==> 0 <= r[i] <= r[j]) && (forall i :: 0 <= i < |r| ==> r[i] <= top)
  }

  lemma RisesFurther(r: seq<int>, top: int, x: int)
    requires Rising(r, top) && 0 <= top <= x
    ensures Rising(r + [x], x)
  {
  }

  /** The share of the announced size that has arrived, in percent. */
  function Share(ms: seq<Message>, size: uint32): int
    requires size > 0
  {
    |ChunkData(ms)| * 100 / size
  }

  lemma ReportsSnoc(ms: seq<Message>, size: uint32)
    requires ms != [] && size > 0 && ms[|ms| - 1].Chunk? && TotalAfter(ms[..|ms| - 1]) == size
    requires |ChunkData(ms)| <= size
    ensures Reports(ms) == Reports(ms[..|ms| - 1]) + [Share(ms, size)]
  {
    hide ChunkData, TotalAfter;
    InRange(|ChunkData(ms)|);
  }

  lemma InRange(n: nat)
    requires n < TWO_32
    ensures n % TWO_32 == n
  {
  }

  lemma ShareGrows(ms: seq<Message>, size: uint32)
    requires ms != [] && size > 0
    ensures 0 <= Share(ms[..|ms| - 1], size) <= Share(ms, size)
  {
    Snoc(ms, |ms| - 1);
    assert ms[..|ms| - 1 + 1] == ms;
    hide ChunkData;
    var n, n' := |ChunkData(ms[..|ms| - 1])|, |ChunkData(ms)|;
    DivMonotonic(0, n * 100, size);
    DivMonotonic(n * 100, n' * 100, size);
  }

  /**
   While one Info is followed by chunks that do not exceed its size, there is one report for each chunk, the
   reports never go back, and the last one is the share that has arrived, 100 for all of it.
   */
  lemma {:induction false} ReportsArePercentages(ms: seq<Message>, size: uint32, path: string)
    requires ms != [] && ms[0] == Info(size, path) && size > 0
    requires forall j: nat :: 0 < j < |ms| ==> ms[j].Chunk?
    requires |ChunkData(ms)| <= size
    ensures |Reports(ms)| == |ms| - 1
    ensures Rising(Reports(ms), Share(ms, size))
    ensures |ms| > 1 ==> Reports(ms)[|ms| - 2] == Share(ms, size)
    ensures |ChunkData(ms)| == size ==> Share(ms, size) == 100
    decreases |ms|
  {
    if |ms| == 1 {
      assert Reports(ms[..0]) == [];
    } else {
      hide Rising, TotalAfter, FileAfter, Share, Reports;
      var before := ms[..|ms| - 1];
      ReportsArePercentages(before, size, path);
      InstalledIsSinceLastInfo(before, 0, size, path);
      ReportsSnoc(ms, size);
      ShareGrows(ms, size);
      RisesFurther(Reports(before), Share(before, size), Share(ms, size));
    }
    if |ChunkData(ms)| == size {
      WholeShare(ms, size);
    }
  }

  lemma WholeShare(ms: seq<Message>, size: uint32)
    requires size > 0 && |ChunkData(ms)| == size
    ensures Share(ms, size) == 100
  {
  }
}
