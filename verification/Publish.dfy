/**
 The copier as a state machine over a shared directory. One process runs any
 number of atomic copies, one system call at a time; each call may fail, the
 process may crash at any point and start again over whatever it left behind.
 Between any two of its steps, users edit the source files and readers open
 names of the directory and read them piece by piece.
 */
module Publish {
  import opened Fs
  import opened Sequences

  datatype SrcFile = SrcFile(content: Bytes, mtime: nat)
  datatype Source = Source(names: map<Name, nat>, files: seq<SrcFile>)

  // How far the copy in progress has got.
  datatype Stage = Opened | Copying | Drained | Closed | Chmodded | Failed

  // dst: destination. fd: the open source file. original: what it held when opened.
  // torn: it has been edited in place since. acc: the bytes read so far.
  // out: the inode behind the temporary file's descriptor.
  datatype Job = Job(dst: Name, fd: nat, original: Bytes, torn: bool, acc: Bytes, out: nat)
  datatype Writer = Idle | Busy(stage: Stage, job: Job)

  // One entry of a name's history, appended when a rename publishes it.
  datatype Version = Version(bytes: Bytes, original: Bytes, torn: bool)

  // An open descriptor on name, opened when version was the newest; got: bytes read.
  datatype Reader = Reader(name: Name, ino: nat, version: nat, got: Bytes)

  datatype State = State(
    dir: Dir, src: Source, writer: Writer, readers: seq<Reader>,
    history: map<Name, seq<Version>>, stamps: set<nat>)

  datatype Action =
    // the copying process
    | OpenSource(dst: Name, path: Name)
    | CreateTmp
    | CopyChunk(size: nat)
    | SeeEof
    | CloseTmp
    | ChmodTmp
    | RenameTmp
    | Fail(partial: nat)
    | RemoveTmp(removed: bool)
    | Unlink(name: Name)
    | Crash
    // readers of the shared directory
    | OpenReader(name: Name)
    | Read(reader: nat, size: nat)
    // users of the source directory
    | EditInPlace(path: Name, content: Bytes, stamp: nat)
    | Replace(path: Name, content: Bytes, stamp: nat)
    | Delete(path: Name)

  function Min(a: nat, b: nat): nat {
    if a < b then a else b
  }

  // The bytes a read of at most size bytes at offset from returns.
  function Chunk(c: Bytes, from: nat, size: nat): Bytes {
    if from <= |c| then c[from..Min(from + size, |c|)] else []
  }

  function Versions(s: State, n: Name): seq<Version> {
    if n in s.history then s.history[n] else []
  }

  predicate Valid(s: State) {
    && InRange(s.dir)
    && (forall p | p in s.src.names :: s.src.names[p] < |s.src.files|)
    && (s.writer.Busy? ==>
          && s.writer.job.fd < |s.src.files|
          && (!s.writer.stage.Opened? ==> s.writer.job.out < |s.dir.inodes|))
    && (forall i | 0 <= i < |s.readers| :: s.readers[i].ino < |s.dir.inodes|)
  }

  predicate In(s: State, stage: Stage) {
    s.writer.Busy? && s.writer.stage == stage
  }

  // An edit made through path, with a modification time never seen before.
  predicate CanEdit(s: State, path: Name, stamp: nat) {
    path in s.src.names && stamp !in s.stamps
  }

  // The files an in-place edit of inode fd tears: the one being copied.
  function Tear(w: Writer, fd: nat): Writer {
    if w.Busy? && (w.stage.Opened? || w.stage.Copying?) && w.job.fd == fd then
      w.(job := w.job.(torn := true))
    else w
  }

  // One step. An action that is not enabled leaves the state as it is.
  function Step(s: State, a: Action): (r: State)
    requires Valid(s)
    ensures Valid(r)
  {
    match a
    case OpenSource(dst, path) =>
      if s.writer.Idle? && path in s.src.names then
        var fd := s.src.names[path];
        s.(writer := Busy(Opened, Job(dst, fd, s.src.files[fd].content, false, [], 0)))
      else s
    case CreateTmp =>
      if In(s, Opened) then
        var d := Create(s.dir, Tmp(s.writer.job.dst));
        s.(dir := d, writer := Busy(Copying, s.writer.job.(out := d.names[Tmp(s.writer.job.dst)])))
      else s
    case CopyChunk(size) =>
      if In(s, Copying) then
        var j := s.writer.job;
        var acc := j.acc + Chunk(s.src.files[j.fd].content, |j.acc|, size);
        s.(dir := Write(s.dir, j.out, acc), writer := Busy(Copying, j.(acc := acc)))
      else s
    case SeeEof =>
      if In(s, Copying) && |s.src.files[s.writer.job.fd].content| <= |s.writer.job.acc| then
        s.(writer := Busy(Drained, s.writer.job))
      else s
    case CloseTmp =>
      if In(s, Drained) then s.(writer := Busy(Closed, s.writer.job)) else s
    case ChmodTmp =>
      if In(s, Closed) && Tmp(s.writer.job.dst) in s.dir.names then
        s.(dir := Chmod(s.dir, Tmp(s.writer.job.dst), EXEC_MODE), writer := Busy(Chmodded, s.writer.job))
      else s
    case RenameTmp =>
      if In(s, Chmodded) && Tmp(s.writer.job.dst) in s.dir.names then
        var j := s.writer.job;
        var v := Versions(s, j.dst) + [Version(j.acc, j.original, j.torn)];
        s.(dir := Rename(s.dir, Tmp(j.dst), j.dst), writer := Idle, history := s.history[j.dst := v])
      else s
    case Fail(partial) =>
      if In(s, Opened) then s.(writer := Idle)
      else if In(s, Copying) then
        // a write error may leave part of the next chunk behind
        var j := s.writer.job;
        s.(dir := Write(s.dir, j.out, j.acc + Chunk(s.src.files[j.fd].content, |j.acc|, partial)),
           writer := Busy(Failed, j))
      else if s.writer.Busy? then s.(writer := Busy(Failed, s.writer.job))
      else s
    case RemoveTmp(removed) =>
      if In(s, Failed) then
        // an error from the removal is ignored
        s.(dir := if removed then Remove(s.dir, Tmp(s.writer.job.dst)) else s.dir, writer := Idle)
      else s
    case Unlink(name) =>
      if s.writer.Idle? then s.(dir := Remove(s.dir, name)) else s
    case Crash =>
      s.(writer := Idle)
    case OpenReader(name) =>
      if name in s.dir.names then
        var r := Reader(name, s.dir.names[name], |Versions(s, name)|, []);
        s.(readers := s.readers + [r])
      else s
    case Read(i, size) =>
      if i < |s.readers| then
        var r := s.readers[i];
        var got := r.got + Chunk(s.dir.inodes[r.ino].content, |r.got|, size);
        s.(readers := s.readers[i := r.(got := got)])
      else s
    case EditInPlace(path, content, stamp) =>
      if CanEdit(s, path, stamp) then
        var fd := s.src.names[path];
        s.(src := s.src.(files := s.src.files[fd := SrcFile(content, stamp)]),
           writer := Tear(s.writer, fd), stamps := s.stamps + {stamp})
      else s
    case Replace(path, content, stamp) =>
      if stamp !in s.stamps then
        s.(src := Source(s.src.names[path := |s.src.files|], s.src.files + [SrcFile(content, stamp)]),
           stamps := s.stamps + {stamp})
      else s
    case Delete(path) =>
      s.(src := s.src.(names := s.src.names - {path}))
  }

  function Run(s: State, acts: seq<Action>): (r: State)
    requires Valid(s)
    ensures Valid(r)
    decreases |acts|
  {
    if acts == [] then s else Step(Run(s, acts[..|acts| - 1]), acts[|acts| - 1])
  }

  lemma RunOne(s: State, acts: seq<Action>, a: Action)
    requires Valid(s)
    ensures Run(s, acts + [a]) == Step(Run(s, acts), a)
  {
    assert (acts + [a])[..|acts|] == acts;
  }

  /******* The invariant *******/

  // No destination is another destination's temporary name.
  predicate NoClash(names: set<Name>) {
    forall n | n in names :: Tmp(n) !in names
  }

  // Every copy goes to one of the destinations.
  predicate CopiesTo(dsts: set<Name>, acts: seq<Action>) {
    forall i | 0 <= i < |acts| && acts[i].OpenSource? :: acts[i].dst in dsts
  }

  // Inode i is behind the temporary name of some destination.
  predicate TmpHolds(dsts: set<Name>, d: Dir, i: nat) {
    exists n :: n in dsts && Tmp(n) in d.names && d.names[Tmp(n)] == i
  }

  // A temporary name shares its inode with no other name.
  predicate TmpApart(dsts: set<Name>, d: Dir) {
    forall n, m | n in dsts && Tmp(n) in d.names && m in d.names && m != Tmp(n) ::
      d.names[m] != d.names[Tmp(n)]
  }

  // A published name holds the newest of its versions, with mode 0755.
  predicate PublishedOk(dsts: set<Name>, s: State)
    requires Valid(s)
  {
    forall n | n in dsts && n in s.dir.names ::
      && |Versions(s, n)| > 0
      && At(s.dir, n) == Inode(Versions(s, n)[|Versions(s, n)| - 1].bytes, EXEC_MODE)
  }

  // A version is the whole of the file that was opened, unless a user edited that
  // file in place while it was being copied.
  predicate HistoryOk(s: State) {
    forall n, k | n in s.history && 0 <= k < |s.history[n]| && !s.history[n][k].torn ::
      s.history[n][k].bytes == s.history[n][k].original
  }

  // A reader of a published name holds an inode that no copy writes to any more.
  predicate ReaderOk(dsts: set<Name>, s: State, r: Reader) {
    && r.ino < |s.dir.inodes|
    && 0 < r.version <= |Versions(s, r.name)|
    && s.dir.inodes[r.ino].content == Versions(s, r.name)[r.version - 1].bytes
    && r.got <= s.dir.inodes[r.ino].content
    && !TmpHolds(dsts, s.dir, r.ino)
  }

  predicate ReadersOk(dsts: set<Name>, s: State) {
    forall i | 0 <= i < |s.readers| && s.readers[i].name in dsts :: ReaderOk(dsts, s, s.readers[i])
  }

  predicate JobOk(dsts: set<Name>, s: State)
    requires Valid(s)
  {
    s.writer.Busy? ==>
      var stage, j := s.writer.stage, s.writer.job;
      && j.dst in dsts
      && (stage.Opened? ==> j.acc == [])
      && (!stage.Opened? ==> Tmp(j.dst) in s.dir.names && s.dir.names[Tmp(j.dst)] == j.out)
      && (stage.Copying? || stage.Drained? || stage.Closed? || stage.Chmodded? ==>
            s.dir.inodes[j.out].content == j.acc)
      && (stage.Chmodded? ==> s.dir.inodes[j.out].mode == EXEC_MODE)
      && (!j.torn && (stage.Opened? || stage.Copying?) ==>
            s.src.files[j.fd].content == j.original && j.acc <= j.original)
      && (!j.torn && (stage.Drained? || stage.Closed? || stage.Chmodded?) ==> j.acc == j.original)
  }

  ghost predicate Inv(dsts: set<Name>, s: State) {
    && Valid(s)
    && TmpApart(dsts, s.dir)
    && PublishedOk(dsts, s)
    && HistoryOk(s)
    && ReadersOk(dsts, s)
    && JobOk(dsts, s)
  }

  // A process starting over a directory that may hold earlier publications and
  // left-over temporary files.
  ghost predicate Init(dsts: set<Name>, s: State) {
    && Valid(s)
    && s.writer.Idle?
    && s.readers == []
    && TmpApart(dsts, s.dir)
    && PublishedOk(dsts, s)
    && HistoryOk(s)
  }

  // The system calls that write to the directory, one lemma each.

  lemma CreateKeepsInv(dsts: set<Name>, s: State)
    requires NoClash(dsts) && Inv(dsts, s)
    ensures Inv(dsts, Step(s, CreateTmp))
  {
    var t := Step(s, CreateTmp);
    if In(s, Opened) {
      var tmp := Tmp(s.writer.job.dst);
      if tmp in s.dir.names {
        assert TmpHolds(dsts, s.dir, s.dir.names[tmp]);
      }
      assert PublishedOk(dsts, t);
    }
  }

  lemma ChunkKeepsInv(dsts: set<Name>, s: State, a: Action)
    requires NoClash(dsts) && Inv(dsts, s) && a.CopyChunk?
    ensures Inv(dsts, Step(s, a))
  {
    if In(s, Copying) {
      assert TmpHolds(dsts, s.dir, s.writer.job.out);
    }
  }

  lemma FailKeepsInv(dsts: set<Name>, s: State, a: Action)
    requires NoClash(dsts) && Inv(dsts, s) && a.Fail?
    ensures Inv(dsts, Step(s, a))
  {
    if In(s, Copying) {
      assert TmpHolds(dsts, s.dir, s.writer.job.out);
    }
  }

  lemma ChmodKeepsInv(dsts: set<Name>, s: State)
    requires NoClash(dsts) && Inv(dsts, s)
    ensures Inv(dsts, Step(s, ChmodTmp))
  {
    if In(s, Closed) {
      assert TmpHolds(dsts, s.dir, s.writer.job.out);
    }
  }

  lemma RenameKeepsInv(dsts: set<Name>, s: State)
    requires NoClash(dsts) && Inv(dsts, s)
    ensures Inv(dsts, Step(s, RenameTmp))
  {
    var t := Step(s, RenameTmp);
    if In(s, Chmodded) {
      assert TmpHolds(dsts, s.dir, s.writer.job.out);
      forall i | 0 <= i < |t.readers| && t.readers[i].name in dsts
        ensures ReaderOk(dsts, t, t.readers[i])
      {
        assert ReaderOk(dsts, s, s.readers[i]);
      }
    }
  }

  lemma RemoveKeepsInv(dsts: set<Name>, s: State, a: Action)
    requires NoClash(dsts) && Inv(dsts, s)
    requires a.RemoveTmp? || a.Unlink?
    ensures Inv(dsts, Step(s, a))
  {
  }

  // The steps that leave the directory alone.
  lemma OtherKeepsInv(dsts: set<Name>, s: State, a: Action)
    requires NoClash(dsts) && Inv(dsts, s)
    requires a.OpenSource? || a.SeeEof? || a.CloseTmp? || a.Crash?
    requires a.OpenSource? ==> a.dst in dsts
    ensures Inv(dsts, Step(s, a))
  {
  }

  lemma OpenKeepsInv(dsts: set<Name>, s: State, a: Action)
    requires NoClash(dsts) && Inv(dsts, s) && a.OpenReader?
    ensures Inv(dsts, Step(s, a))
  {
  }

  lemma ReadKeepsInv(dsts: set<Name>, s: State, a: Action)
    requires NoClash(dsts) && Inv(dsts, s) && a.Read?
    ensures Inv(dsts, Step(s, a))
  {
    var t := Step(s, a);
    forall i | 0 <= i < |t.readers| && t.readers[i].name in dsts
      ensures ReaderOk(dsts, t, t.readers[i])
    {
      assert ReaderOk(dsts, s, s.readers[i]);
    }
  }

  lemma EditKeepsInv(dsts: set<Name>, s: State, a: Action)
    requires NoClash(dsts) && Inv(dsts, s) && a.EditInPlace?
    ensures Inv(dsts, Step(s, a))
  {
    var t := Step(s, a);
    assert t.dir == s.dir && t.history == s.history && t.readers == s.readers;
    assert JobOk(dsts, t);
  }

  lemma ReplaceKeepsInv(dsts: set<Name>, s: State, a: Action)
    requires NoClash(dsts) && Inv(dsts, s) && a.Replace?
    ensures Inv(dsts, Step(s, a))
  {
    var t := Step(s, a);
    assert t.dir == s.dir && t.history == s.history && t.readers == s.readers && t.writer == s.writer;
    assert JobOk(dsts, t);
  }

  lemma DeleteKeepsInv(dsts: set<Name>, s: State, a: Action)
    requires NoClash(dsts) && Inv(dsts, s) && a.Delete?
    ensures Inv(dsts, Step(s, a))
  {
    var t := Step(s, a);
    assert t.dir == s.dir && t.history == s.history && t.readers == s.readers && t.writer == s.writer;
    assert JobOk(dsts, t);
  }

  lemma StepKeepsInv(dsts: set<Name>, s: State, a: Action)
    requires NoClash(dsts) && Inv(dsts, s)
    requires a.OpenSource? ==> a.dst in dsts
    ensures Inv(dsts, Step(s, a))
  {
    match a
    case CreateTmp => CreateKeepsInv(dsts, s);
    case CopyChunk(_) => ChunkKeepsInv(dsts, s, a);
    case Fail(_) => FailKeepsInv(dsts, s, a);
    case ChmodTmp => ChmodKeepsInv(dsts, s);
    case RenameTmp => RenameKeepsInv(dsts, s);
    case RemoveTmp(_) => RemoveKeepsInv(dsts, s, a);
    case Unlink(_) => RemoveKeepsInv(dsts, s, a);
    case OpenReader(_) => OpenKeepsInv(dsts, s, a);
    case Read(_, _) => ReadKeepsInv(dsts, s, a);
    case EditInPlace(_, _, _) => EditKeepsInv(dsts, s, a);
    case Replace(_, _, _) => ReplaceKeepsInv(dsts, s, a);
    case Delete(_) => DeleteKeepsInv(dsts, s, a);
    case _ => OtherKeepsInv(dsts, s, a);
  }

  /******* Whole runs *******/

  lemma {:induction false} RunKeepsInv(dsts: set<Name>, s: State, acts: seq<Action>)
    requires NoClash(dsts) && Inv(dsts, s) && CopiesTo(dsts, acts)
    ensures Inv(dsts, Run(s, acts))
    decreases |acts|
  {
    if acts != [] {
      RunKeepsInv(dsts, s, acts[..|acts| - 1]);
      StepKeepsInv(dsts, Run(s, acts[..|acts| - 1]), acts[|acts| - 1]);
    }
  }

  // Histories only grow, and a descriptor stays on the inode it was opened on.
  predicate Later(s: State, t: State) {
    && (forall n | n in s.history :: n in t.history && s.history[n] <= t.history[n])
    && |s.readers| <= |t.readers|
    && (forall i | 0 <= i < |s.readers| ::
          t.readers[i].(got := []) == s.readers[i].(got := []) && s.readers[i].got <= t.readers[i].got)
  }

  lemma {:induction false} RunIsLater(s: State, acts: seq<Action>)
    requires Valid(s)
    ensures Later(s, Run(s, acts))
    decreases |acts|
  {
    if acts != [] {
      RunIsLater(s, acts[..|acts| - 1]);
      StepIsLater(Run(s, acts[..|acts| - 1]), acts[|acts| - 1]);
    }
  }

  lemma StepIsLater(s: State, a: Action)
    requires Valid(s)
    ensures Later(s, Step(s, a))
  {
  }

  function Newest(s: State, n: Name): Version
    requires |Versions(s, n)| > 0
  {
    Versions(s, n)[|Versions(s, n)| - 1]
  }

  // The next read returns no bytes.
  predicate AtEof(s: State, r: Reader)
    requires r.ino < |s.dir.inodes|
  {
    |s.dir.inodes[r.ino].content| <= |r.got|
  }

  // The step a opens a source file that holds content, for a copy to n.
  predicate OpensFor(s: State, a: Action, n: Name, content: Bytes)
    requires Valid(s)
  {
    && s.writer.Idle? && a.OpenSource? && a.dst == n && a.path in s.src.names
    && s.src.files[s.src.names[a.path]].content == content
  }

  // At some point of the run, a copy to n opened a source file that then held content.
  predicate OpenedDuring(s: State, acts: seq<Action>, n: Name, content: Bytes)
    requires Valid(s)
    decreases |acts|
  {
    acts != [] &&
      var last := |acts| - 1;
      OpenedDuring(s, acts[..last], n, content) || OpensFor(Run(s, acts[..last]), acts[last], n, content)
  }

  // A step changes no history but that of the copy it renames.
  lemma StepHistory(s: State, a: Action)
    requires Valid(s)
    ensures
      var t := Step(s, a);
      || t.history == s.history
      || (s.writer.Busy?
          && var j := s.writer.job;
             t.history == s.history[j.dst := Versions(s, j.dst) + [Version(j.acc, j.original, j.torn)]])
  {
  }

  // Where one step takes the original of its copy from.
  lemma StepOpens(s: State, a: Action)
    requires Valid(s)
    ensures
      var t := Step(s, a);
      t.writer.Busy? ==>
        || (s.writer.Busy? && t.writer.job.dst == s.writer.job.dst && t.writer.job.original == s.writer.job.original)
        || OpensFor(s, a, t.writer.job.dst, t.writer.job.original)
  {
  }

  // Where one step takes the versions of its histories from.
  lemma StepOrigins(s: State, a: Action, n: Name, k: nat)
    requires Valid(s) && n in Step(s, a).history && k < |Step(s, a).history[n]|
    ensures
      var v := Step(s, a).history[n][k];
      if k < |Versions(s, n)| then v == Versions(s, n)[k]
      else s.writer.Busy? && n == s.writer.job.dst && v.original == s.writer.job.original
  {
    StepHistory(s, a);
  }

  // The copy in progress has its original from a step of the run.
  lemma {:induction false} JobHasOrigin(s: State, acts: seq<Action>)
    requires Valid(s) && s.writer.Idle?
    ensures
      var t := Run(s, acts);
      t.writer.Busy? ==> OpenedDuring(s, acts, t.writer.job.dst, t.writer.job.original)
    decreases |acts|
  {
    if acts != [] {
      var last := |acts| - 1;
      var m := Run(s, acts[..last]);
      JobHasOrigin(s, acts[..last]);
      StepOpens(m, acts[last]);
    }
  }

  /**
   Every version that a run adds to the history of a name has as its original what some
   source file held when a copy of the run to that name opened it.
   */
  lemma {:induction false} VersionHasOrigin(s: State, acts: seq<Action>, t: State, n: Name, k: nat, original: Bytes)
    requires Valid(s) && s.writer.Idle? && t == Run(s, acts) && |Versions(s, n)| <= k < |Versions(t, n)|
    requires Versions(t, n)[k].original == original
    ensures OpenedDuring(s, acts, n, original)
    decreases |acts|
  {
    if acts != [] {
      var last := |acts| - 1;
      var m := Run(s, acts[..last]);
      StepOrigins(m, acts[last], n, k);
      if k < |Versions(m, n)| {
        VersionHasOrigin(s, acts[..last], m, n, k, original);
      } else {
        JobHasOrigin(s, acts[..last]);
      }
    }
  }

  /**
   Atomic publish. Whatever ran before a reader opened a published name and
   whatever runs while it reads, it gets a prefix of the one version that was
   newest when it opened, and all of it at end of file. The file it opened had
   mode 0755. Unless a user edited the source in place while it was being copied, the
   version is the whole of what the source held when a copy to that name opened it, at
   some earlier point of the run; a version from before the run is the newest then.
   */
  lemma ReaderSeesOneVersion(dsts: set<Name>, s0: State, before: seq<Action>, name: Name, after: seq<Action>)
    requires NoClash(dsts) && Init(dsts, s0) && CopiesTo(dsts, before) && CopiesTo(dsts, after)
    requires name in dsts && name in Run(s0, before).dir.names
    ensures
      var s1 := Run(s0, before);
      var s2 := Run(Step(s1, OpenReader(name)), after);
      && |Versions(s1, name)| > 0
      && var v := Newest(s1, name);
      && At(s1.dir, name) == Inode(v.bytes, EXEC_MODE)
      && (!v.torn ==> v.bytes == v.original)
      && (if |Versions(s1, name)| > |Versions(s0, name)| then OpenedDuring(s0, before, name, v.original)
          else |Versions(s0, name)| > 0 && v == Newest(s0, name))
      && |s1.readers| < |s2.readers|
      && var r := s2.readers[|s1.readers|];
      && r.name == name
      && r.got <= v.bytes
      && (AtEof(s2, r) ==> r.got == v.bytes)
  {
    var s1 := Run(s0, before);
    RunKeepsInv(dsts, s0, before);
    NewestIsWhole(dsts, s1, name);
    NewestComesFrom(s0, before, s1, name);
    ReadsNewest(dsts, s1, name, after);
  }

  lemma NewestIsWhole(dsts: set<Name>, s: State, name: Name)
    requires Inv(dsts, s) && name in dsts && name in s.dir.names
    ensures
      && |Versions(s, name)| > 0
      && var v := Newest(s, name);
      At(s.dir, name) == Inode(v.bytes, EXEC_MODE) && (!v.torn ==> v.bytes == v.original)
  {
  }

  lemma NewestComesFrom(s: State, acts: seq<Action>, t: State, name: Name)
    requires Valid(s) && s.writer.Idle? && t == Run(s, acts) && |Versions(t, name)| > 0
    ensures
      if |Versions(t, name)| > |Versions(s, name)| then OpenedDuring(s, acts, name, Newest(t, name).original)
      else |Versions(s, name)| > 0 && Newest(t, name) == Newest(s, name)
  {
    if |Versions(t, name)| > |Versions(s, name)| {
      VersionHasOrigin(s, acts, t, name, |Versions(t, name)| - 1, Newest(t, name).original);
    } else {
      NewestIsOld(s, acts, t, name);
    }
  }

  // From any point on, a reader that opens a published name reads its newest version.
  lemma ReadsNewest(dsts: set<Name>, s: State, name: Name, after: seq<Action>)
    requires NoClash(dsts) && Inv(dsts, s) && CopiesTo(dsts, after) && name in dsts && name in s.dir.names
    ensures
      var t := Run(Step(s, OpenReader(name)), after);
      && |s.readers| < |t.readers| && |Versions(s, name)| > 0
      && var r := t.readers[|s.readers|];
      && r.name == name && r.got <= Newest(s, name).bytes
      && (AtEof(t, r) ==> r.got == Newest(s, name).bytes)
  {
    var open := Step(s, OpenReader(name));
    var t := Run(open, after);
    StepKeepsInv(dsts, s, OpenReader(name));
    RunKeepsInv(dsts, open, after);
    OpenedStays(s, name, after);
    ReadsItsVersion(dsts, t, |s.readers|, Newest(s, name));
  }

  lemma OpenedStays(s: State, name: Name, after: seq<Action>)
    requires Valid(s) && name in s.dir.names && |Versions(s, name)| > 0
    ensures
      var t := Run(Step(s, OpenReader(name)), after);
      && |s.readers| < |t.readers|
      && var r := t.readers[|s.readers|];
      && r.name == name && 0 < r.version <= |Versions(t, name)|
      && Versions(t, name)[r.version - 1] == Newest(s, name)
  {
    var open := Step(s, OpenReader(name));
    RunIsLater(open, after);
    VersionsGrow(open, after, name);
  }

  lemma ReadsItsVersion(dsts: set<Name>, t: State, i: nat, v: Version)
    requires Inv(dsts, t) && i < |t.readers| && t.readers[i].name in dsts
    requires 0 < t.readers[i].version <= |Versions(t, t.readers[i].name)|
    requires Versions(t, t.readers[i].name)[t.readers[i].version - 1] == v
    ensures t.readers[i].got <= v.bytes && (AtEof(t, t.readers[i]) ==> t.readers[i].got == v.bytes)
  {
    assert ReaderOk(dsts, t, t.readers[i]);
  }

  lemma NewestIsOld(s: State, acts: seq<Action>, t: State, name: Name)
    requires Valid(s) && t == Run(s, acts) && 0 < |Versions(t, name)| <= |Versions(s, name)|
    ensures Newest(t, name) == Newest(s, name)
  {
    VersionsGrow(s, acts, name);
  }

  lemma VersionsGrow(s: State, acts: seq<Action>, n: Name)
    requires Valid(s)
    ensures Versions(s, n) <= Versions(Run(s, acts), n)
  {
    RunIsLater(s, acts);
  }

  predicate NoEditInPlace(acts: seq<Action>) {
    forall i | 0 <= i < |acts| :: !acts[i].EditInPlace?
  }

  predicate Untorn(s: State) {
    && (forall n, k | n in s.history && 0 <= k < |s.history[n]| :: !s.history[n][k].torn)
    && (s.writer.Busy? ==> !s.writer.job.torn)
  }

  lemma {:induction false} RunKeepsUntorn(s: State, acts: seq<Action>)
    requires Valid(s) && Untorn(s) && NoEditInPlace(acts)
    ensures Untorn(Run(s, acts))
    decreases |acts|
  {
    if acts != [] {
      RunKeepsUntorn(s, acts[..|acts| - 1]);
      StepKeepsUntorn(Run(s, acts[..|acts| - 1]), acts[|acts| - 1]);
    }
  }

  lemma StepKeepsUntorn(s: State, a: Action)
    requires Valid(s) && Untorn(s) && !a.EditInPlace?
    ensures Untorn(Step(s, a))
  {
  }

  // Users who replace source files rather than edit them in place never tear one: every
  // version that a run publishes is the whole of what a source file held when it was
  // opened for that name.
  lemma ReplacingNeverTears(dsts: set<Name>, s: State, acts: seq<Action>)
    requires NoClash(dsts) && Inv(dsts, s) && CopiesTo(dsts, acts)
    requires Untorn(s) && NoEditInPlace(acts)
    ensures
      var t := Run(s, acts);
      && Untorn(t)
      && (forall n, k | n in t.history && 0 <= k < |t.history[n]| :: t.history[n][k].bytes == t.history[n][k].original)
      && (s.writer.Idle? ==>
            forall n, k | n in t.history && |Versions(s, n)| <= k < |t.history[n]| ::
              OpenedDuring(s, acts, n, t.history[n][k].bytes))
  {
    var t := Run(s, acts);
    RunKeepsInv(dsts, s, acts);
    RunKeepsUntorn(s, acts);
    assert HistoryOk(t);
    if s.writer.Idle? {
      forall n, k: nat | n in t.history && |Versions(s, n)| <= k < |t.history[n]|
        ensures OpenedDuring(s, acts, n, t.history[n][k].bytes)
      {
        VersionHasOrigin(s, acts, t, n, k, t.history[n][k].original);
      }
    }
  }

  lemma {:induction false} RunTwice(s: State, a: seq<Action>, b: seq<Action>)
    requires Valid(s)
    ensures Run(s, a + b) == Run(Run(s, a), b)
    decreases |b|
  {
    if b == [] {
      assert a + b == a;
    } else {
      var c := b[..|b| - 1];
      RunTwice(s, a, c);
      RunOne(s, a + c, b[|b| - 1]);
      AppendLast(a, b);
    }
  }
}
