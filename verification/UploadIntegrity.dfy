/** What an accepted upload guarantees about the destination, on every schedule and with any failures. */
module UploadIntegrity {
  import opened Machine
  import opened Options
  import opened Files
  import opened Upload

  ghost predicate Infos(ms: seq<Message>, i: nat, size: uint32, path: string) {
    && i < |ms| && ms[i] == Info(size, path)
    && forall j: nat :: j < |ms| && j != i ==> !ms[j].Info?
  }

  function Prior(files: map<string, Bytes>, path: string): Bytes {
    if path in files then files[path] else []
  }

  /** An upload with exactly one Info, of nonzero size. */
  datatype Job = Job(stream: seq<Message>, at: nat, size: uint32, path: string, files: map<string, Bytes>,
                     digest: Bytes -> string)
  {
    ghost predicate Valid() {
      size > 0 && Infos(stream, at, size, path)
    }

    /** The messages taken off the stream so far. */
    function Consumed(s: State): seq<Message> {
      if |s.inbox| <= |stream| then stream[..|stream| - |s.inbox|] else stream
    }
  }

  /** Before the Info nothing has been opened or counted. */
  ghost predicate BeforeInfo(j: Job, s: State) {
    && |j.stream| - |s.inbox| <= j.at
    && s.open.None? && s.files == j.files && s.total == 0 && s.received == 0 && s.progress == []
    && s.completions == []
    && ChunkData(j.Consumed(s)) == []
    && (s.receiver == Receiving || s.receiver.Locking? || s.receiver.Checking?)
    && (s.locked <==> s.receiver.Checking?)
  }

  /** After it the file is the data so far laid over the prior content, and the gate is tied to the counter. */
  ghost predicate AfterInfo(j: Job, s: State) {
    var w := ChunkData(j.Consumed(s));
    && |j.stream| - |s.inbox| > j.at
    && s.open == Some(Handle(j.path, |w|))
    && s.files == j.files[j.path := Overlay(Prior(j.files, j.path), w)]
    && s.total == j.size
    && s.received == |w| % TWO_32
    && (forall c :: c in s.completions ==> c <= |w| && c % TWO_32 == j.size)
    && (s.receiver in {Stopping, Unlocking} ==> s.received == s.total)
    && (s.completions == [] ==> s.locked)
    && (s.receiver.Checking? ==> s.completions != [])
    && !s.receiver.Returned?
  }

  /** What acceptance promises: the destination holds exactly the received data, of exactly the announced size. */
  ghost predicate Delivered(j: Job, s: State) {
    var w := ChunkData(j.Consumed(s));
    && |w| == j.size
    && s.files == j.files[j.path := w]
    && s.received == |w| == s.total
    && exists sum :: Hash(sum) in j.Consumed(s) && j.digest(w) == sum
  }

  ghost predicate Inv(j: Job, s: State) {
    && Sound(s)
    && |s.inbox| <= |j.stream| && s.inbox == j.stream[|j.stream| - |s.inbox|..]
    && (s.receiver.Locking? ==> Hash(s.receiver.sum) in j.Consumed(s))
    && (s.receiver.Checking? ==> Hash(s.receiver.sum) in j.Consumed(s))
    && (BeforeInfo(j, s) || AfterInfo(j, s)
        || (s.receiver.Returned? && (s.receiver.result == Accepted ==> Delivered(j, s))))
  }

  lemma InitInv(j: Job)
    requires j.Valid()
    ensures Inv(j, Init(j.stream, j.files))
  {
    assert j.Consumed(Init(j.stream, j.files)) == [];
  }

  /** The weak checks together: gate opened, equal length, hence no wrap and no older tail. */
  lemma GateAndLengthSuffice(prior: Bytes, w: Bytes, size: uint32, c: nat)
    requires c <= |w| && c % TWO_32 == size
    requires |Overlay(prior, w)| == size
    ensures |w| == size && Overlay(prior, w) == w
  {
    OverlayGrows(prior, w, []);
    assert c == size;
    OverlayExactIff(prior, w);
  }

  lemma CheckDelivers(j: Job, s: State)
    requires j.Valid() && Inv(j, s) && s.receiver.Checking?
    requires Verdict(s, j.digest, s.receiver.sum) == Accepted
    ensures Delivered(j, s)
  {
    assert AfterInfo(j, s);
    var w := ChunkData(j.Consumed(s));
    assert s.completions[0] in s.completions;
    GateAndLengthSuffice(Prior(j.files, j.path), w, j.size, s.completions[0]);
  }

  /** Taking one message moves it from the inbox to what has been consumed. */
  lemma Take(j: Job, s: State)
    requires |s.inbox| <= |j.stream| && s.inbox == j.stream[|j.stream| - |s.inbox|..] && s.inbox != []
    ensures var s' := s.(inbox := s.inbox[1..]);
            && s'.inbox == j.stream[|j.stream| - |s'.inbox|..]
            && j.Consumed(s') == j.Consumed(s) + [s.inbox[0]]
            && ChunkData(j.Consumed(s'))
               == (if s.inbox[0].Chunk? then ChunkData(j.Consumed(s)) + s.inbox[0].data else ChunkData(j.Consumed(s)))
            && s.inbox[0] == j.stream[|j.stream| - |s.inbox|]
  {
    var k := |j.stream| - |s.inbox|;
    assert j.stream[..k + 1] == j.stream[..k] + [s.inbox[0]];
    ChunkDataSnoc(j.Consumed(s), s.inbox[0]);
  }

  lemma InfoInv(j: Job, s: State)
    requires j.Valid() && Inv(j, s) && Enabled(s, Receive) && s.inbox != [] && s.inbox[0].Info?
    ensures Inv(j, Apply(s, Receive, j.digest))
  {
    Take(j, s);
    assert |j.stream| - |s.inbox| == j.at && !s.locked;
    assert BeforeInfo(j, s);
    ReceiveInfo(s, j.digest);
    hide Apply, Enabled, Dispatch;
    InfoState(j, s, Apply(s, Receive, j.digest));
  }

  lemma InfoState(j: Job, s: State, s': State)
    requires j.Valid() && BeforeInfo(j, s) && s.receiver == Receiving && s.inbox != []
    requires |s.inbox| <= |j.stream| && s.inbox == j.stream[|j.stream| - |s.inbox|..]
    requires |j.stream| - |s.inbox| == j.at
    requires s' == s.(
      inbox := s.inbox[1..], total := j.size, open := Some(Handle(j.path, 0)),
      files := if j.path in s.files then s.files else s.files[j.path := []],
      locked := true, progress := s.progress + [Selecting])
    ensures Inv(j, s')
  {
    Take(j, s);
    OverlayNothing(Prior(j.files, j.path));
    hide ChunkData, Overlay, Infos;
    assert j.Consumed(s') == j.Consumed(s.(inbox := s.inbox[1..]));
    assert s'.files == j.files[j.path := Prior(j.files, j.path)];
    assert AfterInfo(j, s');
  }

  lemma ChunkInv(j: Job, s: State)
    requires j.Valid() && Inv(j, s) && Enabled(s, Receive) && s.inbox != [] && s.inbox[0].Chunk?
    ensures Inv(j, Apply(s, Receive, j.digest))
  {
    ReceiveChunk(s, j.digest);
    StepSound(s, Receive, j.digest);
    ChunkState(j, s, Apply(s, Receive, j.digest));
  }

  lemma ChunkState(j: Job, s: State, s': State)
    requires j.Valid() && Inv(j, s) && s.receiver == Receiving && s.inbox != [] && s.inbox[0].Chunk?
    requires Sound(s') && s' == if s.open.None? then s.(inbox := s.inbox[1..], receiver := Returned(WriteError))
      else Written(s, s.inbox[0].data).(inbox := s.inbox[1..], receiver := Comparing,
                                        received := ToUint32(s.received + |s.inbox[0].data|))
    ensures Inv(j, s')
  {
    Take(j, s);
    assert j.Consumed(s') == j.Consumed(s.(inbox := s.inbox[1..]));
    if s.open.Some? {
      WrittenInv(j, s, s.inbox[0].data, s');
    }
  }

  /** The state after a write in terms of the data written before it. */
  lemma WrittenInv(j: Job, s: State, data: Bytes, s': State)
    requires j.Valid() && Sound(s) && AfterInfo(j, s)
    requires |s'.inbox| <= |s.inbox| <= |j.stream|
    requires ChunkData(j.Consumed(s')) == ChunkData(j.Consumed(s)) + data
    requires s' == Written(s, data).(inbox := s'.inbox, receiver := Comparing,
                                     received := ToUint32(s.received + |data|))
    requires s.receiver == Receiving
    ensures AfterInfo(j, s')
  {
    var w, prior := ChunkData(j.Consumed(s)), Prior(j.files, j.path);
    OverlayGrows(prior, w, data);
    CounterStep(|w|, |data|);
    assert s.files[j.path] == Overlay(prior, w);
    assert s'.files == j.files[j.path := Overlay(prior, w + data)];
  }

  lemma ReceiveInv(j: Job, s: State)
    requires j.Valid() && Inv(j, s) && Enabled(s, Receive)
    ensures Inv(j, Apply(s, Receive, j.digest))
  {
    if s.inbox == [] {
    } else if s.inbox[0].Info? {
      InfoInv(j, s);
    } else if s.inbox[0].Chunk? {
      ChunkInv(j, s);
    } else {
      OtherInv(j, s);
    }
  }

  lemma OtherInv(j: Job, s: State)
    requires j.Valid() && Inv(j, s) && Enabled(s, Receive)
    requires s.inbox != [] && (s.inbox[0].Hash? || s.inbox[0].Unset?)
    ensures Inv(j, Apply(s, Receive, j.digest))
  {
    ReceiveOther(s, j.digest);
    OtherState(j, s, Apply(s, Receive, j.digest));
  }

  lemma OtherState(j: Job, s: State, s': State)
    requires j.Valid() && Inv(j, s) && s.receiver == Receiving
    requires s.inbox != [] && (s.inbox[0].Hash? || s.inbox[0].Unset?)
    requires s' == s.(inbox := s.inbox[1..],
                      receiver := if s.inbox[0].Hash? then Locking(s.inbox[0].sum) else Receiving)
    ensures Inv(j, s')
  {
    hide ChunkData, Overlay;
    OtherTaken(j, s, s');
    assert |j.stream| - |s.inbox| != j.at;
    if BeforeInfo(j, s) {
      assert BeforeInfo(j, s');
    } else {
      assert AfterInfo(j, s');
    }
  }

  lemma OtherTaken(j: Job, s: State, s': State)
    requires |s.inbox| <= |j.stream| && s.inbox == j.stream[|j.stream| - |s.inbox|..]
    requires s.inbox != [] && !s.inbox[0].Chunk? && s'.inbox == s.inbox[1..]
    ensures s'.inbox == j.stream[|j.stream| - |s'.inbox|..]
    ensures s.inbox[0] in j.Consumed(s') && s.inbox[0] == j.stream[|j.stream| - |s.inbox|]
    ensures ChunkData(j.Consumed(s')) == ChunkData(j.Consumed(s))
  {
    Take(j, s);
    assert j.Consumed(s') == j.Consumed(s.(inbox := s.inbox[1..]));
  }

  lemma FailureInv(j: Job, s: State, step: Step)
    requires j.Valid() && Inv(j, s) && Enabled(s, step) && (step.OpenFails? || step.WriteFails?)
    ensures Inv(j, Apply(s, step, j.digest))
  {
    Take(j, s);
    StepSound(s, step, j.digest);
  }

  lemma GateInv(j: Job, s: State, step: Step)
    requires j.Valid() && Inv(j, s) && Enabled(s, step)
    requires step in {Compare, Unlock, Lock} || step.Handshake?
    ensures Inv(j, Apply(s, step, j.digest))
  {
    var s' := Apply(s, step, j.digest);
    assert j.Consumed(s') == j.Consumed(s);
    assert BeforeInfo(j, s) ==> BeforeInfo(j, s');
    if AfterInfo(j, s) {
      assert s'.receiver == Returned(Fault) || AfterInfo(j, s');
    }
  }

  /** A progress goroutine touches nothing that the invariant is about, unless it crashes the process. */
  lemma ProgressFrame(s: State, step: Step, digest: Bytes -> string)
    requires Sound(s) && Enabled(s, step)
    requires step.Poll? || step.Report? || step.Wake? || step.FinalReport?
    ensures var s' := Apply(s, step, digest);
            && s' == s.(progress := s'.progress, reports := s'.reports, receiver := s'.receiver)
            && s'.receiver in {s.receiver, Returned(Fault)}
            && (s.progress == [] ==> s'.progress == [])
  {
  }

  lemma ProgressInv(j: Job, s: State, s': State)
    requires j.Valid() && Inv(j, s)
    requires s' == s.(progress := s'.progress, reports := s'.reports, receiver := s'.receiver)
    requires s'.receiver in {s.receiver, Returned(Fault)}
    requires s.progress == [] ==> s'.progress == []
    ensures Inv(j, s')
  {
    assert j.Consumed(s') == j.Consumed(s);
    if s'.receiver == s.receiver {
      assert AfterInfo(j, s) ==> AfterInfo(j, s');
      assert BeforeInfo(j, s) ==> BeforeInfo(j, s');
    }
  }

  /** Every step of every schedule keeps the invariant. */
  lemma StepInv(j: Job, s: State, step: Step)
    requires j.Valid() && Inv(j, s) && Enabled(s, step)
    ensures Inv(j, Apply(s, step, j.digest))
  {
    hide ChunkData, Overlay, BeforeInfo, AfterInfo;
    match step {
      case Receive => ReceiveInv(j, s);
      case Check =>
        if Verdict(s, j.digest, s.receiver.sum) == Accepted {
          CheckDelivers(j, s);
        }
      case OpenFails => FailureInv(j, s, step);
      case WriteFails(_) => FailureInv(j, s, step);
      case Compare => GateInv(j, s, step);
      case Handshake(_) => GateInv(j, s, step);
      case Unlock => GateInv(j, s, step);
      case Lock => GateInv(j, s, step);
      case _ =>
        ProgressFrame(s, step, j.digest);
        ProgressInv(j, s, Apply(s, step, j.digest));
    }
  }

  lemma {:induction false} RunInv(j: Job, s: State, steps: seq<Step>, end: State)
    requires j.Valid() && Inv(j, s) && Leads(s, steps, end, j.digest)
    ensures Inv(j, end)
    decreases |steps|
  {
    if steps != [] {
      StepInv(j, s, steps[0]);
      RunInv(j, Apply(s, steps[0], j.digest), steps[1..], end);
    }
  }

  lemma {:induction false} PrefixNoLonger(ms: seq<Message>, k: nat)
    requires k <= |ms|
    ensures |ChunkData(ms[..k])| <= |ChunkData(ms)|
    decreases |ms|
  {
    if k < |ms| {
      assert ms[..|ms| - 1][..k] == ms[..k];
      PrefixNoLonger(ms[..|ms| - 1], k);
    } else {
      assert ms[..k] == ms;
    }
  }

  /**
   Whatever the schedule, the failures and the older content of the destination: an upload with one Info
   of nonzero size that returns success has left exactly the received chunks in the file, as many bytes as
   announced, with the announced digest; every other file is untouched; and the 32-bit counter never wrapped.
   */
  lemma AcceptedUploadIsExact(j: Job, steps: seq<Step>, end: State)
    requires j.Valid()
    requires Leads(Init(j.stream, j.files), steps, end, j.digest)
    requires end.receiver == Returned(Accepted)
    ensures |end.inbox| <= |j.stream|
    ensures var w := ChunkData(j.Consumed(end));
            && |w| == j.size
            && end.files == j.files[j.path := w]
            && (exists sum :: Hash(sum) in j.Consumed(end) && j.digest(w) == sum)
    ensures forall k: nat :: k <= |j.Consumed(end)| ==> |ChunkData(j.Consumed(end)[..k])| < TWO_32
  {
    InitInv(j);
    RunInv(j, Init(j.stream, j.files), steps, end);
    forall k: nat | k <= |j.Consumed(end)| ensures |ChunkData(j.Consumed(end)[..k])| < TWO_32 {
      PrefixNoLonger(j.Consumed(end), k);
    }
  }
}
