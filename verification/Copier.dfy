/** The script copier: atomic copy of one file, and of a whole source directory. */
module Copier {
  import opened Fs
  import opened Publish
  import opened Sequences
  import opened Attempts

  // A directory that processes share.
  class SharedDir {
    var dir: Dir

    ghost predicate Valid()
      reads this
    {
      InRange(dir) && Unlinked(dir)
    }

    ghost function View(): View
      reads this
      requires Valid()
    {
      ViewOf(dir)
    }
  }

  type Size = n: nat | 0 < n witness 1

  // Which system calls of one copy fail. copyErr: the copy loop fails once that many
  // bytes have been copied. chunk: how many bytes one read asks for.
  datatype Fate = Fate(
    open: bool, create: bool, chunk: Size, copyErr: CopyErr,
    close: bool, chmod: bool, rename: bool, remove: bool)
  datatype CopyErr = NoCopyErr | CopyErrAt(bytes: nat)

  // One copy to be made, and how its calls will fare.
  datatype Task = Task(path: Name, dst: Name, fate: Fate)

  predicate SourceOk(src: Source) {
    forall p | p in src.names :: src.names[p] < |src.files|
  }

  function Contents(src: Source, path: Name): Bytes
    requires SourceOk(src)
  {
    if path in src.names then src.files[src.names[path]].content else []
  }

  predicate Opens(src: Source, path: Name, fate: Fate) {
    path in src.names && fate.open
  }

  predicate CopyFails(size: nat, fate: Fate) {
    fate.copyErr.CopyErrAt? && fate.copyErr.bytes <= size
  }

  predicate Finishes(size: nat, fate: Fate) {
    !CopyFails(size, fate) && fate.close && fate.chmod && fate.rename
  }

  // Every call of the copy succeeds.
  predicate Succeeds(src: Source, path: Name, fate: Fate)
    requires SourceOk(src)
  {
    Opens(src, path, fate) && fate.create && Finishes(|Contents(src, path)|, fate)
  }

  // The temporary file, created or truncated and then holding c.
  function Staged(d: Dir, tmp: Name, c: Bytes): Dir
    requires InRange(d)
  {
    var created := Create(d, tmp);
    Write(created, created.names[tmp], c)
  }

  // The directory when the calls before the rename stop, by success or by error.
  function BeforeRename(d: Dir, content: Bytes, dst: Name, fate: Fate): Dir
    requires InRange(d)
  {
    if CopyFails(|content|, fate) then Staged(d, Tmp(dst), content[..fate.copyErr.bytes])
    else
      var written := Staged(d, Tmp(dst), content);
      if fate.close && fate.chmod then Chmod(written, Tmp(dst), EXEC_MODE) else written
  }

  // What the calls after a successful open and create leave behind.
  function CopySteps(d: Dir, content: Bytes, dst: Name, fate: Fate): Dir
    requires InRange(d)
  {
    var stopped := BeforeRename(d, content, dst, fate);
    if Finishes(|content|, fate) then Rename(stopped, Tmp(dst), dst)
    else CleanUp(stopped, Tmp(dst), fate)
  }

  // The removal on an error exit; its own error is ignored.
  function CleanUp(d: Dir, tmp: Name, fate: Fate): Dir {
    if fate.remove then Remove(d, tmp) else d
  }

  // The directory after a copy, whatever becomes of it.
  function TaskDir(d: Dir, src: Source, t: Task): (r: Dir)
    requires InRange(d) && SourceOk(src)
    ensures InRange(r)
  {
    if Opens(src, t.path, t.fate) && t.fate.create then CopySteps(d, Contents(src, t.path), t.dst, t.fate) else d
  }

  function TasksDir(d: Dir, src: Source, tasks: seq<Task>): (r: Dir)
    requires InRange(d) && SourceOk(src)
    ensures InRange(r)
  {
    if tasks == [] then d
    else TaskDir(TasksDir(d, src, tasks[..|tasks| - 1]), src, tasks[|tasks| - 1])
  }

  lemma TasksDirOne(d: Dir, src: Source, tasks: seq<Task>, t: Task)
    requires InRange(d) && SourceOk(src)
    ensures TasksDir(d, src, tasks + [t]) == TaskDir(TasksDir(d, src, tasks), src, t)
  {
    assert (tasks + [t])[..|tasks|] == tasks;
  }

  // How a copy with this fate ends.
  function OutcomeOf(d: Dir, src: Source, path: Name, dst: Name, fate: Fate): Outcome
    requires InRange(d) && SourceOk(src)
  {
    if !(Opens(src, path, fate) && fate.create) then Untouched
    else if Succeeds(src, path, fate) then Published
    else if fate.remove then Cleaned
    else
      var left := BeforeRename(d, Contents(src, path), dst, fate);
      Littered(left.inodes[left.names[Tmp(dst)]])
  }

  lemma UpdateTwice(v: View, n: Name, x: Inode, y: Inode)
    ensures v[n := x][n := y] == v[n := y]
  {
  }

  lemma StagedView(d: Dir, tmp: Name, c: Bytes)
    requires InRange(d) && Unlinked(d)
    ensures
      var s := Staged(d, tmp, c);
      && InRange(s) && Unlinked(s) && tmp in s.names
      && ViewOf(s) == ViewOf(d)[tmp := Inode(c, At(s, tmp).mode)]
  {
    var created := Create(d, tmp);
    ViewCreate(d, tmp);
    ViewWrite(created, tmp, c);
    UpdateTwice(ViewOf(d), tmp, At(created, tmp), Inode(c, At(created, tmp).mode));
  }

  lemma BeforeRenameView(d: Dir, c: Bytes, dst: Name, fate: Fate)
    requires InRange(d) && Unlinked(d)
    ensures
      var s := BeforeRename(d, c, dst, fate);
      && InRange(s) && Unlinked(s) && Tmp(dst) in s.names
      && ViewOf(s) == ViewOf(d)[Tmp(dst) := At(s, Tmp(dst))]
      && (Finishes(|c|, fate) ==> At(s, Tmp(dst)) == Script(c))
  {
    if CopyFails(|c|, fate) {
      StagedView(d, Tmp(dst), c[..fate.copyErr.bytes]);
    } else {
      var written := Staged(d, Tmp(dst), c);
      StagedView(d, Tmp(dst), c);
      if fate.close && fate.chmod {
        ViewChmod(written, Tmp(dst), EXEC_MODE);
        UpdateTwice(ViewOf(d), Tmp(dst), At(written, Tmp(dst)), Script(c));
      }
    }
  }

  // An error exit with the temporary file holding c.
  lemma CleanUpView(v: View, d: Dir, tmp: Name, fate: Fate)
    requires InRange(d) && Unlinked(d) && tmp in d.names
    requires ViewOf(d) == v[tmp := At(d, tmp)]
    ensures
      var left := CleanUp(d, tmp, fate);
      && InRange(left) && Unlinked(left)
      && ViewOf(left) == if fate.remove then v - {tmp} else v[tmp := At(d, tmp)]
  {
    ViewRemove(d, tmp);
  }

  lemma RenameView(v: View, d: Dir, c: Bytes, dst: Name)
    requires InRange(d) && Unlinked(d) && Tmp(dst) in d.names
    requires ViewOf(d) == v[Tmp(dst) := Script(c)]
    ensures
      var left := Rename(d, Tmp(dst), dst);
      && InRange(left) && Unlinked(left)
      && ViewOf(left) == v[dst := Script(c)] - {Tmp(dst)}
  {
    ViewRename(d, Tmp(dst), dst);
    assert ViewOf(d)[Tmp(dst)] == At(d, Tmp(dst));
  }

  lemma CopyStepsView(d: Dir, src: Source, path: Name, dst: Name, fate: Fate)
    requires InRange(d) && Unlinked(d) && SourceOk(src)
    requires Opens(src, path, fate) && fate.create
    ensures
      var left := CopySteps(d, Contents(src, path), dst, fate);
      && InRange(left) && Unlinked(left)
      && ViewOf(left) == Apply(ViewOf(d), Attempt(dst, Contents(src, path), OutcomeOf(d, src, path, dst, fate)))
  {
    var c, v := Contents(src, path), ViewOf(d);
    BeforeRenameView(d, c, dst, fate);
    var stopped := BeforeRename(d, c, dst, fate);
    if Finishes(|c|, fate) {
      RenameView(v, stopped, c, dst);
    } else {
      CleanUpView(v, stopped, Tmp(dst), fate);
    }
  }

  /**
   What a copy does, in terms of its calls: it succeeds exactly when every call does, and
   then dst holds the bytes of the source with mode 0755 and dst.tmp is gone; when it fails
   before it has made dst.tmp nothing changes, and when it fails later only dst.tmp does,
   which is gone if its removal succeeds.
   */
  lemma CopyMeans(d: Dir, src: Source, path: Name, dst: Name, fate: Fate)
    requires InRange(d) && Unlinked(d) && SourceOk(src)
    ensures InRange(TaskDir(d, src, Task(path, dst, fate)))
    ensures Succeeds(src, path, fate) <==>
      && path in src.names && fate.open && fate.create
      && (fate.copyErr.CopyErrAt? ==> |src.files[src.names[path]].content| < fate.copyErr.bytes)
      && fate.close && fate.chmod && fate.rename
    ensures
      var v, after := ViewOf(d), ViewOf(TaskDir(d, src, Task(path, dst, fate)));
      if path !in src.names || !fate.open || !fate.create then after == v
      else if Succeeds(src, path, fate) then
        after == v[dst := Inode(src.files[src.names[path]].content, 0x1ed)] - {dst + ".tmp"}
      else
        after - {dst + ".tmp"} == v - {dst + ".tmp"} && (fate.remove ==> dst + ".tmp" !in after)
  {
    if Opens(src, path, fate) && fate.create {
      CopyStepsView(d, src, path, dst, fate);
      assert Tmp(dst) == dst + ".tmp";
    }
  }

  /**
   io.Copy into the inode file of out: chunk by chunk, until end of file or an error.
   */
  method CopyContent(out: SharedDir, file: nat, content: Bytes, fate: Fate) returns (ok: bool)
    requires file < |out.dir.inodes| && out.dir.inodes[file].content == []
    modifies out
    ensures ok <==> !CopyFails(|content|, fate)
    ensures out.dir == Write(old(out.dir), file, if ok then content else content[..fate.copyErr.bytes])
  {
    ghost var d := out.dir;
    var copied := 0;
    while copied < |content|
      invariant 0 <= copied <= |content|
      invariant CopyFails(|content|, fate) ==> copied <= fate.copyErr.bytes
      invariant out.dir == Write(d, file, content[..copied])
    {
      var size := Min(fate.chunk, |content| - copied);
      if CopyFails(copied + size, fate) {
        break;
      }
      copied := copied + size;
      out.dir := Write(out.dir, file, content[..copied]);
    }
    ok := !CopyFails(|content|, fate);
    if ok {
      assert content[..copied] == content;
    } else {
      out.dir := Write(out.dir, file, content[..fate.copyErr.bytes]);
    }
  }

  /**
   Copies path of src to dst of out. ok exactly when every call succeeds, and then
   dst holds the source with mode 0755 and no temporary file is left, whatever was
   there before. On failure dst and every other name keep what they had; the
   temporary file is gone whenever its removal succeeds.
   */
  method AtomicCopy(out: SharedDir, src: Source, path: Name, dst: Name, fate: Fate) returns (ok: bool)
    requires out.Valid() && SourceOk(src)
    modifies out
    ensures out.Valid()
    ensures ok <==> Succeeds(src, path, fate)
    ensures out.View() == Apply(old(out.View()),
                                Attempt(dst, Contents(src, path), OutcomeOf(old(out.dir), src, path, dst, fate)))
    ensures out.dir == TaskDir(old(out.dir), src, Task(path, dst, fate))
  {
    if path !in src.names || !fate.open {
      return false;
    }
    if !fate.create {
      return false;
    }
    CopyStepsView(out.dir, src, path, dst, fate);
    var tmp := Tmp(dst);
    out.dir := Create(out.dir, tmp);
    ok := CopyContent(out, out.dir.names[tmp], Contents(src, path), fate);
    if !ok {
      out.dir := CleanUp(out.dir, tmp, fate);
      return false;
    }
    if !fate.close {
      out.dir := CleanUp(out.dir, tmp, fate);
      return false;
    }
    if !fate.chmod {
      out.dir := CleanUp(out.dir, tmp, fate);
      return false;
    }
    out.dir := Chmod(out.dir, tmp, EXEC_MODE);
    if !fate.rename {
      out.dir := CleanUp(out.dir, tmp, fate);
      return false;
    }
    out.dir := Rename(out.dir, tmp, dst);
    return true;
  }

  /******* Many copies *******/

  // a is how the copy asked for by t turned out.
  predicate Reports(src: Source, t: Task, a: Attempt)
    requires SourceOk(src)
  {
    && a.dst == t.dst && a.data == Contents(src, t.path)
    && (a.outcome.Published? <==> Succeeds(src, t.path, t.fate))
    && (a.outcome.Untouched? <==> !(Opens(src, t.path, t.fate) && t.fate.create))
    && (a.outcome.Cleaned? ==> t.fate.remove)
    && (a.outcome.Littered? ==> !t.fate.remove)
  }

  predicate AllReport(src: Source, tasks: seq<Task>, attempts: seq<Attempt>)
    requires SourceOk(src)
  {
    && |attempts| == |tasks|
    && (tasks != [] ==>
          var last := |tasks| - 1;
          AllReport(src, tasks[..last], attempts[..last]) && Reports(src, tasks[last], attempts[last]))
  }

  lemma ReportOne(src: Source, tasks: seq<Task>, attempts: seq<Attempt>, t: Task, a: Attempt)
    requires SourceOk(src) && AllReport(src, tasks, attempts) && Reports(src, t, a)
    ensures AllReport(src, tasks + [t], attempts + [a])
  {
    assert (tasks + [t])[..|tasks|] == tasks && (attempts + [a])[..|tasks|] == attempts;
  }

  lemma {:induction false} ReportsEach(src: Source, tasks: seq<Task>, attempts: seq<Attempt>, k: nat)
    requires SourceOk(src) && AllReport(src, tasks, attempts) && k < |tasks|
    ensures Reports(src, tasks[k], attempts[k])
    decreases |tasks|
  {
    if k < |tasks| - 1 {
      ReportsEach(src, tasks[..|tasks| - 1], attempts[..|tasks| - 1], k);
    }
  }

  predicate AllPublished(attempts: seq<Attempt>) {
    attempts != [] ==>
      var last := |attempts| - 1;
      AllPublished(attempts[..last]) && attempts[last].outcome.Published?
  }

  lemma {:induction false} EachPublished(attempts: seq<Attempt>, k: nat)
    requires AllPublished(attempts) && k < |attempts|
    ensures attempts[k].outcome.Published?
    decreases |attempts|
  {
    if k < |attempts| - 1 {
      EachPublished(attempts[..|attempts| - 1], k);
    }
  }

  // os.ReadDir: entries come sorted by name.
  datatype Entry = Entry(name: Name, isDir: bool)

  predicate Listing(entries: seq<Entry>) {
    forall i, j | 0 <= i < j < |entries| :: Less(entries[i].name, entries[j].name)
  }

  // The copies of the entries that are not directories, each to its own name,
  // leaving out the names to skip.
  function FileTasks(entries: seq<Entry>, skip: set<Name>, fates: Name -> Fate): seq<Task> {
    if entries == [] then []
    else
      var e := entries[|entries| - 1];
      var tasks := FileTasks(entries[..|entries| - 1], skip, fates);
      if e.isDir || e.name in skip then tasks else tasks + [Task(e.name, e.name, fates(e.name))]
  }

  lemma {:induction false} FileTasksAreFiles(entries: seq<Entry>, skip: set<Name>, fates: Name -> Fate, e: Entry)
    requires e in entries && !e.isDir && e.name !in skip
    ensures Task(e.name, e.name, fates(e.name)) in FileTasks(entries, skip, fates)
    decreases |entries|
  {
    var last := entries[|entries| - 1];
    if e != last {
      FileTasksAreFiles(entries[..|entries| - 1], skip, fates, e);
    }
  }

  lemma {:induction false} FileTasksSorted(entries: seq<Entry>, skip: set<Name>, fates: Name -> Fate)
    requires Listing(entries)
    ensures
      var tasks := FileTasks(entries, skip, fates);
      && (forall i, j | 0 <= i < j < |tasks| :: Less(tasks[i].dst, tasks[j].dst))
      && (forall t | t in tasks ::
            t == Task(t.dst, t.dst, fates(t.dst)) && Entry(t.dst, false) in entries && t.dst !in skip)
    decreases |entries|
  {
    if entries != [] {
      var init, e := entries[..|entries| - 1], entries[|entries| - 1];
      FileTasksSorted(init, skip, fates);
      var tasks := FileTasks(init, skip, fates);
      forall t | t in tasks
        ensures Less(t.dst, e.name) && Entry(t.dst, false) in entries
      {
        var i :| 0 <= i < |init| && init[i] == Entry(t.dst, false);
        assert entries[i] == init[i];
      }
    }
  }

  // The attempts of a pass that ends at its first error.
  predicate StopsAtFirstError(src: Source, tasks: seq<Task>, attempts: seq<Attempt>, ok: bool)
    requires SourceOk(src)
  {
    if ok then AllReport(src, tasks, attempts) && AllPublished(attempts)
    else
      var last := |attempts| - 1;
      && 0 <= last < |tasks|
      && AllReport(src, tasks[..last + 1], attempts)
      && AllPublished(attempts[..last])
      && !attempts[last].outcome.Published?
  }

  lemma StopsHere(src: Source, tasks: seq<Task>, done: seq<Task>, attempts: seq<Attempt>, a: Attempt)
    requires SourceOk(src) && AllReport(src, done, attempts + [a]) && AllPublished(attempts)
    requires done <= tasks && !a.outcome.Published?
    ensures StopsAtFirstError(src, tasks, attempts + [a], false)
  {
    assert (attempts + [a])[..|attempts|] == attempts;
    assert tasks[..|done|] == done;
  }

  // The tasks have been carried out, starting with the view v of the directory d.
  ghost predicate Made(src: Source, tasks: seq<Task>, attempts: seq<Attempt>, v: View, view: View, d: Dir, dir: Dir)
    requires SourceOk(src) && InRange(d)
  {
    AllReport(src, tasks, attempts) && view == Fold(v, attempts) && dir == TasksDir(d, src, tasks)
  }

  lemma MadeOne(src: Source, tasks: seq<Task>, attempts: seq<Attempt>, v: View, view: View, d: Dir, dir: Dir,
                t: Task, a: Attempt)
    requires SourceOk(src) && InRange(d) && InRange(dir)
    requires Made(src, tasks, attempts, v, view, d, dir) && Reports(src, t, a)
    ensures Made(src, tasks + [t], attempts + [a], v, Apply(view, a), d, TaskDir(dir, src, t))
  {
    FoldOne(v, attempts, a);
    ReportOne(src, tasks, attempts, t, a);
    TasksDirOne(d, src, tasks, t);
  }

  // CopyAll has copied all of the given entries without an error so far.
  ghost predicate CopiedAll(src: Source, entries: seq<Entry>, fates: Name -> Fate, attempts: seq<Attempt>,
                            v: View, view: View, d: Dir, dir: Dir)
    requires SourceOk(src) && InRange(d)
  {
    Made(src, FileTasks(entries, {}, fates), attempts, v, view, d, dir) && AllPublished(attempts)
  }

  lemma CopiedOne(src: Source, entries: seq<Entry>, fates: Name -> Fate, i: nat, attempts: seq<Attempt>,
                  v: View, view: View, d: Dir, dir: Dir, a: Attempt)
    requires SourceOk(src) && InRange(d) && InRange(dir) && i < |entries| && !entries[i].isDir
    requires CopiedAll(src, entries[..i], fates, attempts, v, view, d, dir)
    requires Reports(src, Task(entries[i].name, entries[i].name, fates(entries[i].name)), a)
    ensures Apply(view, a) == Fold(v, attempts + [a])
    ensures
      var tasks, after := FileTasks(entries, {}, fates), attempts + [a];
      var left := TaskDir(dir, src, Task(entries[i].name, entries[i].name, fates(entries[i].name)));
      if a.outcome.Published? then CopiedAll(src, entries[..i + 1], fates, after, v, Apply(view, a), d, left)
      else StopsAtFirstError(src, tasks, after, false) && left == TasksDir(d, src, tasks[..|after|])
  {
    var done := FileTasks(entries[..i], {}, fates);
    var task := Task(entries[i].name, entries[i].name, fates(entries[i].name));
    FileTasksStep(entries, {}, fates, i);
    MadeOne(src, done, attempts, v, view, d, dir, task, a);
    AppendedInit(attempts, a);
    if !a.outcome.Published? {
      FileTasksPrefix(entries, {}, fates, i + 1);
      StopsHere(src, FileTasks(entries, {}, fates), done + [task], attempts, a);
      TakePrefix(done + [task], FileTasks(entries, {}, fates));
    }
  }

  // Every file of the listing is published with the source's content.
  predicate Intact(v: View, src: Source, entries: seq<Entry>)
    requires SourceOk(src)
  {
    forall e | e in entries && !e.isDir :: e.name in v && v[e.name] == Script(Contents(src, e.name))
  }

  class ScriptCopier {
    const outputDir: SharedDir

    constructor (outputDir: SharedDir)
      ensures this.outputDir == outputDir
    {
      this.outputDir := outputDir;
    }

    // One copy, reported as an attempt.
    method Copy(src: Source, task: Task) returns (ok: bool, ghost attempt: Attempt)
      requires outputDir.Valid() && SourceOk(src)
      modifies outputDir
      ensures outputDir.Valid()
      ensures Reports(src, task, attempt) && (ok <==> attempt.outcome.Published?)
      ensures outputDir.View() == Apply(old(outputDir.View()), attempt)
      ensures outputDir.dir == TaskDir(old(outputDir.dir), src, task)
    {
      attempt := Attempt(task.dst, Contents(src, task.path),
                         OutcomeOf(outputDir.dir, src, task.path, task.dst, task.fate));
      ok := AtomicCopy(outputDir, src, task.path, task.dst, task.fate);
    }

    /**
     Copies every file of a directory in the order of the listing, stopping at the
     first error. After a success every file is published intact, even if some names
     are n and n.tmp.
     */
    method CopyAll(src: Source, readable: bool, entries: seq<Entry>, fates: Name -> Fate)
      returns (ok: bool, ghost attempts: seq<Attempt>)
      requires outputDir.Valid() && SourceOk(src) && Listing(entries)
      modifies outputDir
      ensures outputDir.Valid()
      ensures outputDir.View() == Fold(old(outputDir.View()), attempts)
      ensures if readable then StopsAtFirstError(src, FileTasks(entries, {}, fates), attempts, ok)
              else !ok && attempts == []
      ensures |attempts| <= |FileTasks(entries, {}, fates)|
      ensures outputDir.dir == TasksDir(old(outputDir.dir), src, FileTasks(entries, {}, fates)[..|attempts|])
      ensures ok ==> Intact(outputDir.View(), src, entries)
    {
      if !readable {
        return false, [];
      }
      ghost var v, d := outputDir.View(), outputDir.dir;
      attempts := [];
      ok := true;
      for i := 0 to |entries|
        invariant outputDir.Valid() && ok
        invariant CopiedAll(src, entries[..i], fates, attempts, v, outputDir.View(), d, outputDir.dir)
      {
        if entries[i].isDir {
          FileTasksStep(entries, {}, fates, i);
        } else {
          ghost var view, dir := outputDir.View(), outputDir.dir;
          ghost var attempt;
          ok, attempt := Copy(src, Task(entries[i].name, entries[i].name, fates(entries[i].name)));
          CopiedOne(src, entries, fates, i, attempts, v, view, d, dir, attempt);
          attempts := attempts + [attempt];
          if !ok {
            return;
          }
        }
      }
      assert entries[..|entries|] == entries;
      assert FileTasks(entries, {}, fates)[..|attempts|] == FileTasks(entries, {}, fates);
      CopyAllIsIntact(v, src, entries, fates, attempts);
    }
  }

  lemma FileTasksStep(entries: seq<Entry>, skip: set<Name>, fates: Name -> Fate, i: nat)
    requires i < |entries|
    ensures
      var e, done := entries[i], FileTasks(entries[..i], skip, fates);
      FileTasks(entries[..i + 1], skip, fates)
        == if e.isDir || e.name in skip then done else done + [Task(e.name, e.name, fates(e.name))]
  {
    assert entries[..i + 1][..i] == entries[..i];
  }

  lemma {:induction false} FileTasksPrefix(entries: seq<Entry>, skip: set<Name>, fates: Name -> Fate, i: nat)
    requires i <= |entries|
    ensures FileTasks(entries[..i], skip, fates) <= FileTasks(entries, skip, fates)
    decreases |entries|
  {
    if i < |entries| {
      var init := entries[..|entries| - 1];
      FileTasksPrefix(init, skip, fates, i);
      assert init[..i] == entries[..i];
    } else {
      assert entries[..i] == entries;
    }
  }

  // Every attempt of a CopyAll is the report of a task.
  lemma AttemptsFollow(src: Source, tasks: seq<Task>, attempts: seq<Attempt>, ok: bool)
    requires SourceOk(src) && StopsAtFirstError(src, tasks, attempts, ok)
    ensures |attempts| <= |tasks| && forall k | 0 <= k < |attempts| :: Reports(src, tasks[k], attempts[k])
  {
    assert ok ==> tasks[..|attempts|] == tasks;
    forall k | 0 <= k < |attempts|
      ensures Reports(src, tasks[k], attempts[k])
    {
      ReportsEach(src, tasks[..|attempts|], attempts, k);
    }
  }

  /**
   After a successful CopyAll every file is published intact, even if some names are
   n and n.tmp.
   */
  lemma CopyAllIsIntact(
    v: View, src: Source, entries: seq<Entry>, fates: Name -> Fate, attempts: seq<Attempt>)
    requires SourceOk(src) && Listing(entries)
    requires StopsAtFirstError(src, FileTasks(entries, {}, fates), attempts, true)
    ensures Intact(Fold(v, attempts), src, entries)
  {
    var tasks := FileTasks(entries, {}, fates);
    FileTasksSorted(entries, {}, fates);
    AttemptsFollow(src, tasks, attempts, true);
    assert SortedTargets(attempts);
    forall e | e in entries && !e.isDir
      ensures e.name in Fold(v, attempts) && Fold(v, attempts)[e.name] == Script(Contents(src, e.name))
    {
      FileTasksAreFiles(entries, {}, fates, e);
      var k :| 0 <= k < |tasks| && tasks[k] == Task(e.name, e.name, fates(e.name));
      EachPublished(attempts, k);
      SortedSuccessSurvives(v, attempts, k);
    }
  }

  // Whatever its result, names that are neither a file nor a file's temporary name keep
  // what they had.
  lemma CopyAllFrame(v: View, src: Source, entries: seq<Entry>, fates: Name -> Fate, attempts: seq<Attempt>, ok: bool,
                     n: Name)
    requires SourceOk(src) && Listing(entries)
    requires StopsAtFirstError(src, FileTasks(entries, {}, fates), attempts, ok)
    requires Entry(n, false) !in entries && forall e | e in entries && !e.isDir :: Tmp(e.name) != n
    ensures n in Fold(v, attempts) <==> n in v
    ensures n in v ==> Fold(v, attempts)[n] == v[n]
  {
    var tasks := FileTasks(entries, {}, fates);
    FileTasksSorted(entries, {}, fates);
    AttemptsFollow(src, tasks, attempts, ok);
    forall a | a in attempts
      ensures a.dst != n && Tmp(a.dst) != n
    {
      var k :| 0 <= k < |attempts| && attempts[k] == a;
      assert tasks[k] in tasks;
    }
    FoldFrame(v, attempts, n);
  }

  /**
   CopyAll ends with the first file whose copy fails: the files before it are published
   intact, and those after it keep what they had, if they are no temporary name of a file
   up to there.
   */
  lemma CopyAllStops(v: View, src: Source, entries: seq<Entry>, fates: Name -> Fate, attempts: seq<Attempt>, ok: bool,
                     j: nat)
    requires SourceOk(src) && Listing(entries) && StopsAtFirstError(src, FileTasks(entries, {}, fates), attempts, ok)
    requires j < |entries| && !entries[j].isDir && !Succeeds(src, entries[j].name, fates(entries[j].name))
    requires forall i | 0 <= i < j && !entries[i].isDir :: Succeeds(src, entries[i].name, fates(entries[i].name))
    ensures !ok && Intact(Fold(v, attempts), src, entries[..j])
    ensures forall i | j < i < |entries| && (forall k | 0 <= k <= j :: Tmp(entries[k].name) != entries[i].name) ::
      var n := entries[i].name;
      && (n in Fold(v, attempts) <==> n in v)
      && (n in v ==> Fold(v, attempts)[n] == v[n])
  {
    StopsAt(src, entries, fates, attempts, ok, j);
    FileTasksStep(entries, {}, fates, j);
    forall e | e in entries[..j] && !e.isDir
      ensures e.name in Fold(v, attempts) && Fold(v, attempts)[e.name] == Script(Contents(src, e.name))
    {
      EarlierPublished(v, src, entries, fates, attempts, ok, j, e);
    }
    forall i | j < i < |entries| && (forall k | 0 <= k <= j :: Tmp(entries[k].name) != entries[i].name)
      ensures
        var n := entries[i].name;
        && (n in Fold(v, attempts) <==> n in v)
        && (n in v ==> Fold(v, attempts)[n] == v[n])
    {
      LaterUntouched(src, entries, fates, attempts, ok, j, i);
      FoldFrame(v, attempts, entries[i].name);
    }
  }

  lemma EarlierPublished(v: View, src: Source, entries: seq<Entry>, fates: Name -> Fate, attempts: seq<Attempt>,
                         ok: bool, j: nat, e: Entry)
    requires SourceOk(src) && Listing(entries) && StopsAtFirstError(src, FileTasks(entries, {}, fates), attempts, ok)
    requires j < |entries| && |attempts| > |FileTasks(entries[..j], {}, fates)|
    requires e in entries[..j] && !e.isDir && Succeeds(src, e.name, fates(e.name))
    ensures e.name in Fold(v, attempts) && Fold(v, attempts)[e.name] == Script(Contents(src, e.name))
  {
    var tasks, done := FileTasks(entries, {}, fates), FileTasks(entries[..j], {}, fates);
    FileTasksSorted(entries, {}, fates);
    AttemptsFollow(src, tasks, attempts, ok);
    FileTasksPrefix(entries, {}, fates, j);
    FileTasksAreFiles(entries[..j], {}, fates, e);
    var k :| 0 <= k < |done| && done[k] == Task(e.name, e.name, fates(e.name));
    assert tasks[k] == done[k] && Reports(src, tasks[k], attempts[k]);
    SortedSuccessSurvives(v, attempts, k);
  }

  lemma StopsAt(src: Source, entries: seq<Entry>, fates: Name -> Fate, attempts: seq<Attempt>, ok: bool, j: nat)
    requires SourceOk(src) && Listing(entries) && StopsAtFirstError(src, FileTasks(entries, {}, fates), attempts, ok)
    requires j < |entries| && !entries[j].isDir && !Succeeds(src, entries[j].name, fates(entries[j].name))
    requires forall i | 0 <= i < j && !entries[i].isDir :: Succeeds(src, entries[i].name, fates(entries[i].name))
    ensures !ok && |attempts| == |FileTasks(entries[..j], {}, fates)| + 1
  {
    var tasks, done := FileTasks(entries, {}, fates), FileTasks(entries[..j], {}, fates);
    AttemptsFollow(src, tasks, attempts, ok);
    FileTasksStep(entries, {}, fates, j);
    FileTasksPrefix(entries, {}, fates, j + 1);
    FileTasksSorted(entries[..j], {}, fates);
    assert tasks[|done|] == Task(entries[j].name, entries[j].name, fates(entries[j].name));
    forall k | 0 <= k < |done| && k < |attempts|
      ensures attempts[k].outcome.Published?
    {
      assert tasks[k] == done[k] && done[k] in done;
      var i :| 0 <= i < j && entries[..j][i] == Entry(done[k].dst, false);
      assert entries[i] == Entry(done[k].dst, false);
    }
    if |done| < |attempts| {
      if ok {
        EachPublished(attempts, |done|);
      } else if |done| < |attempts| - 1 {
        EachPublished(attempts[..|attempts| - 1], |done|);
      }
    }
  }

  // The target of an attempt is a file up to where CopyAll stopped.
  lemma AttemptIsEarly(src: Source, entries: seq<Entry>, fates: Name -> Fate, attempts: seq<Attempt>, ok: bool,
                       j: nat, k: nat) returns (m: nat)
    requires SourceOk(src) && Listing(entries) && StopsAtFirstError(src, FileTasks(entries, {}, fates), attempts, ok)
    requires j < |entries| && |attempts| <= |FileTasks(entries[..j + 1], {}, fates)| && k < |attempts|
    ensures m <= j && entries[m] == Entry(attempts[k].dst, false)
  {
    var upto := FileTasks(entries[..j + 1], {}, fates);
    AttemptsFollow(src, FileTasks(entries, {}, fates), attempts, ok);
    FileTasksPrefix(entries, {}, fates, j + 1);
    FileTasksSorted(entries[..j + 1], {}, fates);
    assert upto[k] in upto;
    m :| 0 <= m <= j && entries[..j + 1][m] == Entry(attempts[k].dst, false);
  }

  lemma LaterUntouched(src: Source, entries: seq<Entry>, fates: Name -> Fate, attempts: seq<Attempt>, ok: bool,
                       j: nat, i: nat)
    requires SourceOk(src) && Listing(entries) && StopsAtFirstError(src, FileTasks(entries, {}, fates), attempts, ok)
    requires j < i < |entries| && |attempts| <= |FileTasks(entries[..j + 1], {}, fates)|
    requires forall k | 0 <= k <= j :: Tmp(entries[k].name) != entries[i].name
    ensures entries[i].name !in Targets(attempts) && entries[i].name !in Temps(attempts)
  {
    forall a | a in attempts
      ensures a.dst != entries[i].name && Tmp(a.dst) != entries[i].name
    {
      var k :| 0 <= k < |attempts| && attempts[k] == a;
      var m := AttemptIsEarly(src, entries, fates, attempts, ok, j, k);
      LessAsymmetric(entries[m].name, entries[i].name);
    }
  }
}
