/**
 Temporary files: what a copy that stopped half way leaves behind, and when a
 temporary name can be executable.
 */
module Residue {
  import opened Fs
  import opened Publish

  predicate ExecutableTmp(d: Dir, n: Name)
    requires InRange(d)
  {
    Tmp(n) in d.names && Executable(At(d, Tmp(n)).mode)
  }

  // Steps that can be made while a copy goes on.
  predicate WhileCopying(acts: seq<Action>) {
    forall i | 0 <= i < |acts| :: !acts[i].OpenSource? && !acts[i].Crash? && !acts[i].Unlink?
  }

  // While the copy to dst reads and writes, its temporary file has this mode.
  predicate CopiesWithMode(s: State, dst: Name, mode: nat)
    requires Valid(s)
  {
    s.writer.Busy? ==>
      && s.writer.job.dst == dst && !s.writer.stage.Opened?
      && (s.writer.stage.Copying? ==>
            && Tmp(dst) in s.dir.names && s.dir.names[Tmp(dst)] == s.writer.job.out
            && At(s.dir, Tmp(dst)).mode == mode)
  }

  lemma StepKeepsMode(s: State, a: Action, dst: Name, mode: nat)
    requires Valid(s) && CopiesWithMode(s, dst, mode)
    requires !a.OpenSource? && !a.Crash? && !a.Unlink?
    ensures CopiesWithMode(Step(s, a), dst, mode)
  {
  }

  lemma {:induction false} RunKeepsMode(s: State, acts: seq<Action>, dst: Name, mode: nat)
    requires Valid(s) && CopiesWithMode(s, dst, mode) && WhileCopying(acts)
    ensures CopiesWithMode(Run(s, acts), dst, mode)
    decreases |acts|
  {
    if acts != [] {
      var last := |acts| - 1;
      RunKeepsMode(s, acts[..last], dst, mode);
      StepKeepsMode(Run(s, acts[..last]), acts[last], dst, mode);
    }
  }

  lemma CreatedMode(s: State, dst: Name, path: Name)
    requires Valid(s) && s.writer.Idle? && path in s.src.names
    ensures
      var t := Step(Step(s, OpenSource(dst, path)), CreateTmp);
      && Tmp(dst) in t.dir.names && CopiesWithMode(t, dst, At(t.dir, Tmp(dst)).mode)
      && (Executable(At(t.dir, Tmp(dst)).mode) <==> ExecutableTmp(s.dir, dst))
  {
    assert !Executable(CREATE_MODE);
  }

  /**
   While a copy is under way its temporary file is executable exactly when an executable
   one was left behind before the copy began: opening it truncates it and keeps its mode.
   */
  lemma TmpIsExecutableExactly(s: State, dst: Name, path: Name, acts: seq<Action>)
    requires Valid(s) && s.writer.Idle? && path in s.src.names && WhileCopying(acts)
    requires In(Run(Step(Step(s, OpenSource(dst, path)), CreateTmp), acts), Copying)
    ensures
      var t := Run(Step(Step(s, OpenSource(dst, path)), CreateTmp), acts);
      ExecutableTmp(t.dir, dst) <==> ExecutableTmp(s.dir, dst)
  {
    var created := Step(Step(s, OpenSource(dst, path)), CreateTmp);
    CreatedMode(s, dst, path);
    RunKeepsMode(created, acts, dst, At(created.dir, Tmp(dst)).mode);
  }

  /******* Whole runs *******/

  // The step a stops a copy to n after its chmod and leaves the temporary file.
  predicate LeavesExecutable(s: State, a: Action, n: Name)
    requires Valid(s)
  {
    && s.writer.Busy? && s.writer.job.dst == n && ExecutableTmp(s.dir, n)
    && (a.Crash? || (s.writer.stage.Failed? && a == RemoveTmp(false)))
  }

  // Some step of the run did.
  predicate LeftExecutable(s: State, acts: seq<Action>, n: Name)
    requires Valid(s)
    decreases |acts|
  {
    acts != [] &&
      var last := |acts| - 1;
      LeftExecutable(s, acts[..last], n) || LeavesExecutable(Run(s, acts[..last]), acts[last], n)
  }

  // The temporary file of n is that of the copy in progress, past its chmod, and holds
  // all of what was read; that is the whole source unless it was torn.
  predicate Complete(s: State, n: Name)
    requires Valid(s)
  {
    && s.writer.Busy? && s.writer.job.dst == n && (s.writer.stage.Chmodded? || s.writer.stage.Failed?)
    && Tmp(n) in s.dir.names && At(s.dir, Tmp(n)).content == s.writer.job.acc
    && (!s.writer.job.torn ==> s.writer.job.acc == s.writer.job.original)
  }

  ghost predicate NoneIncomplete(dsts: set<Name>, s: State, n: Name) {
    NoClash(dsts) && Inv(dsts, s) && n in dsts && (ExecutableTmp(s.dir, n) ==> Complete(s, n))
  }

  lemma CreateCompletes(dsts: set<Name>, s: State, n: Name)
    requires NoneIncomplete(dsts, s, n)
    ensures ExecutableTmp(Step(s, CreateTmp).dir, n) ==> Complete(Step(s, CreateTmp), n)
  {
    assert !Executable(CREATE_MODE);
    if In(s, Opened) && s.writer.job.dst != n {
      TmpsDiffer(n, s.writer.job.dst);
    }
  }

  lemma ChmodCompletes(dsts: set<Name>, s: State, n: Name)
    requires NoneIncomplete(dsts, s, n)
    ensures ExecutableTmp(Step(s, ChmodTmp).dir, n) ==> Complete(Step(s, ChmodTmp), n)
  {
    if In(s, Closed) && s.writer.job.dst != n {
      TmpsDiffer(n, s.writer.job.dst);
    }
  }

  lemma RenameCompletes(dsts: set<Name>, s: State, n: Name)
    requires NoneIncomplete(dsts, s, n)
    ensures ExecutableTmp(Step(s, RenameTmp).dir, n) ==> Complete(Step(s, RenameTmp), n)
  {
    assert Tmp(n) !in dsts;
  }

  lemma OtherCompletes(dsts: set<Name>, s: State, a: Action, n: Name)
    requires NoneIncomplete(dsts, s, n) && !LeavesExecutable(s, a, n)
    requires !a.CreateTmp? && !a.ChmodTmp? && !a.RenameTmp?
    ensures ExecutableTmp(Step(s, a).dir, n) ==> Complete(Step(s, a), n)
  {
  }

  lemma StepCompletes(dsts: set<Name>, s: State, a: Action, n: Name)
    requires NoneIncomplete(dsts, s, n) && !LeavesExecutable(s, a, n)
    ensures ExecutableTmp(Step(s, a).dir, n) ==> Complete(Step(s, a), n)
  {
    match a
    case CreateTmp => CreateCompletes(dsts, s, n);
    case ChmodTmp => ChmodCompletes(dsts, s, n);
    case RenameTmp => RenameCompletes(dsts, s, n);
    case _ => OtherCompletes(dsts, s, a, n);
  }

  lemma TmpsDiffer(m: Name, n: Name)
    requires m != n
    ensures Tmp(m) != Tmp(n)
  {
    assert Tmp(m)[..|Tmp(m)| - 4] == m && Tmp(n)[..|Tmp(n)| - 4] == n;
  }

  /**
   An executable temporary name is incomplete only if an earlier copy to that name
   stopped after its chmod, by a crash or because the removal failed.
   */
  lemma {:induction false} ExecutableTmpIsComplete(dsts: set<Name>, s: State, acts: seq<Action>, n: Name)
    requires NoClash(dsts) && Inv(dsts, s) && CopiesTo(dsts, acts) && n in dsts
    requires ExecutableTmp(s.dir, n) ==> Complete(s, n)
    ensures
      var t := Run(s, acts);
      ExecutableTmp(t.dir, n) ==> Complete(t, n) || LeftExecutable(s, acts, n)
    decreases |acts|
  {
    if acts != [] {
      var last := |acts| - 1;
      var init, m := acts[..last], Run(s, acts[..last]);
      RunKeepsInv(dsts, s, init);
      ExecutableTmpIsComplete(dsts, s, init, n);
      if !LeftExecutable(s, acts, n) {
        StepCompletes(dsts, m, acts[last], n);
      }
    }
  }

  // The guarantee is about published names only: after a crash between chmod and
  // rename, the next copy truncates the same inode, and its temporary name is
  // executable while it holds no more than the first byte of the script.
  lemma TmpIsExecutableWhilePartial(dsts: set<Name>, s: State, path: Name)
    requires Inv(dsts, s) && In(s, Chmodded)
    requires path in s.src.names && |s.src.files[s.src.names[path]].content| > 1
    ensures
      var dst := s.writer.job.dst;
      var t := Run(s, [Crash, OpenSource(dst, path), CreateTmp, CopyChunk(1)]);
      && Tmp(dst) in t.dir.names
      && At(t.dir, Tmp(dst)) == Inode(s.src.files[s.src.names[path]].content[..1], EXEC_MODE)
  {
    var dst, out := s.writer.job.dst, s.writer.job.out;
    var content := s.src.files[s.src.names[path]].content;
    var s1 := Step(s, Crash);
    var s2 := Step(s1, OpenSource(dst, path));
    var s3 := Step(s2, CreateTmp);
    assert s3.dir.names == s.dir.names && s3.dir.inodes[out] == Inode([], EXEC_MODE);
    assert Chunk(content, 0, 1) == content[..1];
    var s4 := Step(s3, CopyChunk(1));
    assert s4.dir.names == s.dir.names && s4.dir.inodes[out] == Inode(content[..1], EXEC_MODE);
    RunFour(s, [Crash, OpenSource(dst, path), CreateTmp, CopyChunk(1)]);
  }

  lemma RunFour(s: State, acts: seq<Action>)
    requires Valid(s) && |acts| == 4
    ensures Run(s, acts) == Step(Step(Step(Step(s, acts[0]), acts[1]), acts[2]), acts[3])
  {
    RunOne(s, [], acts[0]);
    RunOne(s, acts[..1], acts[1]);
    RunOne(s, acts[..2], acts[2]);
    RunOne(s, acts[..3], acts[3]);
    assert [] + [acts[0]] == acts[..1];
    assert acts[..1] + [acts[1]] == acts[..2];
    assert acts[..2] + [acts[2]] == acts[..3];
    assert acts[..3] + [acts[3]] == acts;
  }

  // A reader of a left-over temporary file loses it: the next copy truncates the very
  // inode that the reader has open, and the reader then sees the bytes of that copy.
  lemma TmpReaderSeesNextCopy(s: State, i: nat, path: Name, dst: Name)
    requires Valid(s) && s.writer.Idle? && path in s.src.names && i < |s.readers|
    requires Tmp(dst) in s.dir.names && s.readers[i].ino == s.dir.names[Tmp(dst)]
    ensures
      var created := Step(Step(s, OpenSource(dst, path)), CreateTmp);
      var content := s.src.files[s.src.names[path]].content;
      && created.readers == s.readers && created.dir.inodes[s.readers[i].ino].content == []
      && Step(created, CopyChunk(|content|)).dir.inodes[s.readers[i].ino].content == content
  {
  }
}
