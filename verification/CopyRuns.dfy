/**
 Copies as runs: from whatever idle state of the copying machine, the directory that
 the copier's methods leave is the one the machine reaches by the same calls, one copy
 after another, so what is proved of all runs there holds of the methods.
 */
module CopyRuns {
  import opened Fs
  import opened Publish
  import opened Attempts
  import opened Copier

  // s in the middle of a copy, with the directory d.
  function During(s: State, d: Dir, stage: Stage, j: Job): State {
    s.(dir := d, writer := Busy(stage, j))
  }

  // s after a copy, with the directory d.
  function Done(s: State, d: Dir): State {
    s.(dir := d, writer := Idle)
  }

  // The histories of s and one version more: what the copy j publishes.
  function Extended(s: State, j: Job): map<Name, seq<Version>> {
    s.history[j.dst := Versions(s, j.dst) + [Version(j.acc, j.original, j.torn)]]
  }

  lemma RunsOne(s: State, a: Action)
    requires Valid(s)
    ensures Run(s, [a]) == Step(s, a)
  {
    RunOne(s, [], a);
    assert [] + [a] == [a];
  }

  lemma RunsPair(s: State, a: Action, b: Action)
    requires Valid(s)
    ensures Run(s, [a, b]) == Step(Step(s, a), b)
  {
    RunsOne(s, a);
    RunOne(s, [a], b);
    assert [a] + [b] == [a, b];
  }

  lemma RunsOpenCreate(s: State, path: Name, dst: Name)
    requires Valid(s) && s.writer.Idle? && path in s.src.names
    ensures
      var c, d := Contents(s.src, path), Create(s.dir, Tmp(dst));
      var r := During(s, d, Copying, Job(dst, s.src.names[path], c, false, [], d.names[Tmp(dst)]));
      Valid(r) && Run(s, [OpenSource(dst, path), CreateTmp]) == r
  {
    RunsPair(s, OpenSource(dst, path), CreateTmp);
  }

  // The copy loop to end of file.
  lemma RunsFill(s: State, d: Dir, j: Job)
    requires Valid(During(s, d, Copying, j)) && j.acc == []
    ensures
      var c := s.src.files[j.fd].content;
      var r := During(s, Write(d, j.out, c), Drained, j.(acc := c));
      Valid(r) && Run(During(s, d, Copying, j), [CopyChunk(|c|), SeeEof]) == r
  {
    var c := s.src.files[j.fd].content;
    assert j.acc + Chunk(c, 0, |c|) == c;
    RunsPair(During(s, d, Copying, j), CopyChunk(|c|), SeeEof);
  }

  function Failure(partial: nat, fate: Fate): seq<Action> {
    [Fail(partial), RemoveTmp(fate.remove)]
  }

  // An error in the copy loop after n bytes, and the removal that follows.
  lemma RunsCopyErr(s: State, d: Dir, j: Job, n: nat, fate: Fate)
    requires Valid(During(s, d, Copying, j)) && j.acc == [] && n <= |s.src.files[j.fd].content|
    ensures
      var left := CleanUp(Write(d, j.out, s.src.files[j.fd].content[..n]), Tmp(j.dst), fate);
      Run(During(s, d, Copying, j), Failure(n, fate)) == Done(s, left)
  {
    var c := s.src.files[j.fd].content;
    assert j.acc + Chunk(c, 0, n) == c[..n];
    RunsPair(During(s, d, Copying, j), Fail(n), RemoveTmp(fate.remove));
  }

  // An error after the copy loop, and the removal that follows.
  lemma RunsLateErr(s: State, d: Dir, stage: Stage, j: Job, fate: Fate)
    requires Valid(During(s, d, stage, j)) && (stage.Drained? || stage.Closed? || stage.Chmodded?)
    ensures Run(During(s, d, stage, j), Failure(0, fate)) == Done(s, CleanUp(d, Tmp(j.dst), fate))
  {
    RunsPair(During(s, d, stage, j), Fail(0), RemoveTmp(fate.remove));
  }

  lemma RunsCloseChmod(s: State, d: Dir, j: Job)
    requires Valid(During(s, d, Drained, j)) && Tmp(j.dst) in d.names
    ensures
      var r := During(s, Chmod(d, Tmp(j.dst), EXEC_MODE), Chmodded, j);
      Valid(r) && Run(During(s, d, Drained, j), [CloseTmp, ChmodTmp]) == r
  {
    RunsPair(During(s, d, Drained, j), CloseTmp, ChmodTmp);
  }

  lemma RunsRename(s: State, d: Dir, j: Job)
    requires Valid(During(s, d, Chmodded, j)) && Tmp(j.dst) in d.names
    ensures
      Run(During(s, d, Chmodded, j), [RenameTmp])
        == Done(s, Rename(d, Tmp(j.dst), j.dst)).(history := Extended(s, j))
  {
    RunsOne(During(s, d, Chmodded, j), RenameTmp);
  }

  // The calls after the copy loop.
  function LastActions(fate: Fate): seq<Action> {
    if !fate.close then Failure(0, fate)
    else if !fate.chmod then [CloseTmp] + Failure(0, fate)
    else if !fate.rename then [CloseTmp, ChmodTmp] + Failure(0, fate)
    else [CloseTmp, ChmodTmp] + [RenameTmp]
  }

  // The directory after them.
  function LastDir(d: Dir, dst: Name, fate: Fate): Dir
    requires InRange(d) && Tmp(dst) in d.names
  {
    if !fate.close || !fate.chmod then CleanUp(d, Tmp(dst), fate)
    else
      var runnable := Chmod(d, Tmp(dst), EXEC_MODE);
      if fate.rename then Rename(runnable, Tmp(dst), dst) else CleanUp(runnable, Tmp(dst), fate)
  }

  lemma RunsLast(s: State, d: Dir, j: Job, fate: Fate)
    requires Valid(During(s, d, Drained, j)) && Tmp(j.dst) in d.names
    ensures
      Run(During(s, d, Drained, j), LastActions(fate)) ==
        var r := Done(s, LastDir(d, j.dst, fate));
        if fate.close && fate.chmod && fate.rename then r.(history := Extended(s, j)) else r
  {
    var r := During(s, d, Drained, j);
    if !fate.close {
      RunsLateErr(s, d, Drained, j, fate);
    } else if !fate.chmod {
      RunTwice(r, [CloseTmp], Failure(0, fate));
      RunsOne(r, CloseTmp);
      RunsLateErr(s, d, Closed, j, fate);
    } else {
      var runnable := Chmod(d, Tmp(j.dst), EXEC_MODE);
      RunsCloseChmod(s, d, j);
      if fate.rename {
        RunTwice(r, [CloseTmp, ChmodTmp], [RenameTmp]);
        RunsRename(s, runnable, j);
      } else {
        RunTwice(r, [CloseTmp, ChmodTmp], Failure(0, fate));
        RunsLateErr(s, runnable, Chmodded, j, fate);
      }
    }
  }

  // The calls after the temporary file is made.
  function CopyActions(c: Bytes, fate: Fate): seq<Action> {
    if CopyFails(|c|, fate) then Failure(fate.copyErr.bytes, fate)
    else [CopyChunk(|c|), SeeEof] + LastActions(fate)
  }

  lemma RunsCopy(s: State, d: Dir, j: Job, fate: Fate)
    requires Valid(During(s, d, Copying, j)) && j.acc == [] && Tmp(j.dst) in d.names
    ensures
      var c := s.src.files[j.fd].content;
      Run(During(s, d, Copying, j), CopyActions(c, fate)) ==
        if CopyFails(|c|, fate) then
          Done(s, CleanUp(Write(d, j.out, c[..fate.copyErr.bytes]), Tmp(j.dst), fate))
        else
          var r := Done(s, LastDir(Write(d, j.out, c), j.dst, fate));
          if Finishes(|c|, fate) then r.(history := Extended(s, j.(acc := c))) else r
  {
    var c := s.src.files[j.fd].content;
    if CopyFails(|c|, fate) {
      RunsCopyErr(s, d, j, fate.copyErr.bytes, fate);
    } else {
      RunsFill(s, d, j);
      RunTwice(During(s, d, Copying, j), [CopyChunk(|c|), SeeEof], LastActions(fate));
      RunsLast(s, Write(d, j.out, c), j.(acc := c), fate);
    }
  }

  // The calls of a copy that the machine makes; an open that fails leaves no trace.
  function TaskActions(src: Source, t: Task): seq<Action>
    requires SourceOk(src)
  {
    if !Opens(src, t.path, t.fate) then []
    else if !t.fate.create then [OpenSource(t.dst, t.path), Fail(0)]
    else [OpenSource(t.dst, t.path), CreateTmp] + CopyActions(Contents(src, t.path), t.fate)
  }

  // They copy to no other name.
  lemma TaskCopiesTo(dsts: set<Name>, src: Source, t: Task)
    requires SourceOk(src) && t.dst in dsts
    ensures CopiesTo(dsts, TaskActions(src, t))
  {
  }

  // The state after a copy: its directory, and a version more if the copy succeeds.
  function TaskState(s: State, t: Task): (r: State)
    requires Valid(s)
    ensures r.writer.Idle? && r.src == s.src && r.dir == TaskDir(s.dir, s.src, t)
  {
    var c := Contents(s.src, t.path);
    var r := Done(s, TaskDir(s.dir, s.src, t));
    if !Succeeds(s.src, t.path, t.fate) then r
    else r.(history := s.history[t.dst := Versions(s, t.dst) + [Version(c, c, false)]])
  }

  /**
   One copy: from any idle state, whatever was published before and whoever reads, and
   for every fate of its calls, the machine ends in exactly the state that the method's
   contract describes.
   */
  lemma CopyIsRun(s: State, t: Task)
    requires Valid(s) && s.writer.Idle?
    ensures Run(s, TaskActions(s.src, t)) == TaskState(s, t)
  {
    var c := Contents(s.src, t.path);
    if Opens(s.src, t.path, t.fate) {
      if t.fate.create {
        var d := Create(s.dir, Tmp(t.dst));
        RunsOpenCreate(s, t.path, t.dst);
        RunTwice(s, [OpenSource(t.dst, t.path), CreateTmp], CopyActions(c, t.fate));
        RunsCopy(s, d, Job(t.dst, s.src.names[t.path], c, false, [], d.names[Tmp(t.dst)]), t.fate);
      } else {
        RunsPair(s, OpenSource(t.dst, t.path), Fail(0));
      }
    }
  }

  function TasksActions(src: Source, tasks: seq<Task>): seq<Action>
    requires SourceOk(src)
  {
    if tasks == [] then []
    else TasksActions(src, tasks[..|tasks| - 1]) + TaskActions(src, tasks[|tasks| - 1])
  }

  predicate TasksTo(dsts: set<Name>, tasks: seq<Task>) {
    forall t | t in tasks :: t.dst in dsts
  }

  function TasksState(s: State, tasks: seq<Task>): (r: State)
    requires Valid(s) && s.writer.Idle?
    ensures r.writer.Idle? && r.src == s.src && Valid(r) && r == Run(s, TasksActions(s.src, tasks))
  {
    if tasks == [] then s
    else
      var init, t := tasks[..|tasks| - 1], tasks[|tasks| - 1];
      var m := TasksState(s, init);
      RunTwice(s, TasksActions(s.src, init), TaskActions(s.src, t));
      CopyIsRun(m, t);
      TaskState(m, t)
  }

  /**
   Any number of copies: the directory after CopyAll, Sync or SyncAllScripts, which is
   TasksDir of the copies they make, is the one the machine reaches by those copies.
   */
  lemma {:induction false} CopiesAreRun(s: State, tasks: seq<Task>)
    requires Valid(s) && s.writer.Idle?
    ensures
      var t := Run(s, TasksActions(s.src, tasks));
      && t == TasksState(s, tasks) && t.dir == TasksDir(s.dir, s.src, tasks)
      && t.writer.Idle? && t.src == s.src && t.readers == s.readers
    decreases |tasks|
  {
    if tasks != [] {
      CopiesAreRun(s, tasks[..|tasks| - 1]);
    }
  }

  lemma {:induction false} TasksCopyTo(dsts: set<Name>, src: Source, tasks: seq<Task>)
    requires SourceOk(src) && TasksTo(dsts, tasks)
    ensures CopiesTo(dsts, TasksActions(src, tasks))
    decreases |tasks|
  {
    if tasks != [] {
      TasksCopyTo(dsts, src, tasks[..|tasks| - 1]);
      TaskCopiesTo(dsts, src, tasks[|tasks| - 1]);
    }
  }

  /**
   The methods among readers: a reader that opens a published name between any two
   system calls of a sequence of copies reads one version of it, the newest then, even
   if those copies, the rest of them and anything after replace it; and the copies keep
   the invariant, so that more can follow.
   */
  lemma CopiesServeReaders(dsts: set<Name>, s: State, tasks: seq<Task>, cut: nat, name: Name, after: seq<Action>)
    requires NoClash(dsts) && Inv(dsts, s) && s.writer.Idle? && TasksTo(dsts, tasks) && CopiesTo(dsts, after)
    requires cut <= |TasksActions(s.src, tasks)| && name in dsts
    requires name in Run(s, TasksActions(s.src, tasks)[..cut]).dir.names
    ensures
      var acts := TasksActions(s.src, tasks);
      var m, end := Run(s, acts[..cut]), Run(s, acts);
      var t := Run(Step(m, OpenReader(name)), after);
      && Inv(dsts, end) && end.writer.Idle? && end.dir == TasksDir(s.dir, s.src, tasks)
      && |m.readers| < |t.readers| && |Versions(m, name)| > 0
      && var r := t.readers[|m.readers|];
      && r.name == name && r.got <= Newest(m, name).bytes
      && (AtEof(t, r) ==> r.got == Newest(m, name).bytes)
  {
    var acts := TasksActions(s.src, tasks);
    TasksCopyTo(dsts, s.src, tasks);
    RunKeepsInv(dsts, s, acts);
    RunKeepsInv(dsts, s, acts[..cut]);
    CopiesAreRun(s, tasks);
    ReadsNewest(dsts, Run(s, acts[..cut]), name, after);
  }

  // The copier never makes a second name for an inode.
  lemma {:induction false} RunKeepsUnlinked(s: State, acts: seq<Action>)
    requires Valid(s) && Unlinked(s.dir)
    ensures Unlinked(Run(s, acts).dir)
    decreases |acts|
  {
    if acts != [] {
      RunKeepsUnlinked(s, acts[..|acts| - 1]);
      StepKeepsUnlinked(Run(s, acts[..|acts| - 1]), acts[|acts| - 1]);
    }
  }

  lemma StepKeepsUnlinked(s: State, a: Action)
    requires Valid(s) && Unlinked(s.dir)
    ensures Unlinked(Step(s, a).dir)
  {
  }

  /**
   Recovery: wherever a run stops, by a crash or otherwise, a later copy whose calls
   all succeed leaves its destination holding the source with mode 0755, no
   temporary file, and every other name as the run left it.
   */
  lemma CopyRecovers(s: State, acts: seq<Action>, src: Source, path: Name, dst: Name, fate: Fate)
    requires Valid(s) && Unlinked(s.dir) && SourceOk(src) && Succeeds(src, path, fate)
    ensures
      var d := Run(s, acts).dir;
      var left := TaskDir(d, src, Task(path, dst, fate));
      && InRange(left) && Unlinked(left)
      && ViewOf(left) == ViewOf(d)[dst := Script(Contents(src, path))] - {Tmp(dst)}
  {
    RunKeepsUnlinked(s, acts);
    CopyStepsView(Run(s, acts).dir, src, path, dst, fate);
  }
}
