/**
 Whole passes of the watcher as runs of its machine: the method Sync, with nothing in
 between, and what the next pass achieves once edits stop.
 */
module WatcherPasses {
  import opened Fs
  import opened Publish
  import opened Sequences
  import opened Attempts
  import opened Copier
  import opened CopyRuns
  import opened Watcher
  import opened WatcherRuns

  lemma WRunOne(w: WState, acts: seq<WAction>, a: WAction)
    requires WValid(w)
    ensures WRun(w, acts + [a]) == WStep(WRun(w, acts), a)
  {
    assert (acts + [a])[..|acts|] == acts;
  }

  lemma WRunSingle(w: WState, a: WAction)
    requires WValid(w)
    ensures WRun(w, [a]) == WStep(w, a)
  {
    WRunOne(w, [], a);
    assert [] + [a] == [a];
  }

  lemma {:induction false} WRunTwice(w: WState, a: seq<WAction>, b: seq<WAction>)
    requires WValid(w)
    ensures WRun(w, a + b) == WRun(WRun(w, a), b)
    decreases |b|
  {
    if b == [] {
      assert a + b == a;
    } else {
      var last := |b| - 1;
      WRunTwice(w, a, b[..last]);
      WRunOne(w, a + b[..last], b[last]);
      AppendLast(a, b);
    }
  }

  /******* The calls of one copy *******/

  function Calls(calls: seq<Action>): seq<WAction> {
    if calls == [] then [] else Calls(calls[..|calls| - 1]) + [CopyCall(calls[|calls| - 1])]
  }

  predicate AllCopyCalls(calls: seq<Action>) {
    forall i | 0 <= i < |calls| :: IsCopyCall(calls[i])
  }

  // Without a copy in progress the calls of a copy do nothing.
  lemma IdleCall(s: State, a: Action)
    requires Valid(s) && s.writer.Idle? && IsCopyCall(a)
    ensures Step(s, a) == s
  {
  }

  // A call that ends the copy publishes a version exactly when it is the rename.
  lemma LastCall(s: State, a: Action)
    requires Valid(s) && s.writer.Busy? && IsCopyCall(a)
    ensures
      var t, dst := Step(s, a), s.writer.job.dst;
      && (t.writer.Busy? ==> t.history == s.history && t.writer.job.dst == dst)
      && (t.writer.Idle? ==>
            |Versions(t, dst)| == |Versions(s, dst)| + if a.RenameTmp? then 1 else 0)
  {
  }

  // Where the watcher stands after calls of the copy that it waits for in w.
  predicate Waits(w: WState, r: WState, calls: seq<Action>)
    requires WValid(w) && w.phase.InCopy? && w.core.writer.Busy?
  {
    var dst := w.core.writer.job.dst;
    && r.core == Run(w.core, calls) && r.cache == w.cache
    && (r.core.writer.Busy? ==>
          && r.phase == w.phase && r.core.writer.job.dst == dst
          && |Versions(r.core, dst)| == |Versions(w.core, dst)|)
    && (r.core.writer.Idle? ==>
          r.phase == if |Versions(r.core, dst)| > |Versions(w.core, dst)|
                     then Copied(w.phase.name, w.phase.stamp, w.phase.todo) else Scanning(w.phase.todo))
  }

  lemma WaitsOn(w: WState, m: WState, calls: seq<Action>, a: Action)
    requires WValid(w) && w.phase.InCopy? && w.core.writer.Busy? && Waits(w, m, calls)
    requires WValid(m) && IsCopyCall(a) && m.core.writer.Busy?
    ensures Waits(w, WStep(m, CopyCall(a)), calls + [a])
  {
    RunOne(w.core, calls, a);
    RunsOne(m.core, a);
    LastCall(m.core, a);
  }

  lemma WaitsNoMore(w: WState, m: WState, calls: seq<Action>, a: Action)
    requires WValid(w) && w.phase.InCopy? && w.core.writer.Busy? && Waits(w, m, calls)
    requires WValid(m) && IsCopyCall(a) && m.core.writer.Idle?
    ensures Waits(w, WStep(m, CopyCall(a)), calls + [a])
  {
    RunOne(w.core, calls, a);
    IdleCall(m.core, a);
    assert WStep(m, CopyCall(a)) == m;
  }

  lemma {:induction false} CallsAreRun(w: WState, calls: seq<Action>)
    requires WValid(w) && w.phase.InCopy? && w.core.writer.Busy? && AllCopyCalls(calls)
    ensures Waits(w, WRun(w, Calls(calls)), calls)
    decreases |calls|
  {
    if calls != [] {
      var init, a := calls[..|calls| - 1], calls[|calls| - 1];
      var m := WRun(w, Calls(init));
      CallsAreRun(w, init);
      WRunOne(w, Calls(init), CopyCall(a));
      if m.core.writer.Busy? {
        WaitsOn(w, m, init, a);
      } else {
        WaitsNoMore(w, m, init, a);
      }
      SplitLast(calls);
    }
  }

  /******* One entry *******/

  // The calls of a copy after its source is open.
  function AfterOpen(src: Source, t: Task): seq<Action>
    requires SourceOk(src)
  {
    if !t.fate.create then [Fail(0)] else [CreateTmp] + CopyActions(Contents(src, t.path), t.fate)
  }

  lemma TaskOpensFirst(src: Source, t: Task)
    requires SourceOk(src) && Opens(src, t.path, t.fate)
    ensures TaskActions(src, t) == [OpenSource(t.dst, t.path)] + AfterOpen(src, t)
    ensures AllCopyCalls(AfterOpen(src, t))
  {
  }

  // The steps of the watcher at entry n: copies tells whether it has changed.
  function EntrySteps(src: Source, n: Name, stat: bool, fate: Fate, copies: bool): seq<WAction>
    requires SourceOk(src)
  {
    var t := Task(n, n, fate);
    if !copies then [Visit(stat)]
    else if !Opens(src, n, fate) then [Visit(stat)] + [CallCopy(false)]
    else
      var copy := [CallCopy(true)] + Calls(AfterOpen(src, t));
      [Visit(stat)] + if Succeeds(src, n, fate) then copy + [Record] else copy
  }

  lemma CopyCallsRun(w: WState, fate: Fate)
    requires WValid(w) && w.phase.Statted? && w.core.writer.Idle? && Opens(w.core.src, w.phase.name, fate)
    ensures
      var n, stamp, todo, src := w.phase.name, w.phase.stamp, w.phase.todo, w.core.src;
      var t := Task(n, n, fate);
      WRun(w, [CallCopy(true)] + Calls(AfterOpen(src, t)))
        == WState(TaskState(w.core, t), w.cache,
                  if Succeeds(src, n, fate) then Copied(n, stamp, todo) else Scanning(todo))
  {
    var n, src := w.phase.name, w.core.src;
    var t := Task(n, n, fate);
    var open, calls := OpenSource(n, n), AfterOpen(src, t);
    var m := WStep(w, CallCopy(true));
    TaskOpensFirst(src, t);
    RunsOne(w.core, open);
    WRunTwice(w, [CallCopy(true)], Calls(calls));
    WRunSingle(w, CallCopy(true));
    CallsAreRun(m, calls);
    RunTwice(w.core, [open], calls);
    CopyIsRun(w.core, t);
  }

  // What an entry leaves behind.
  function EntryState(w: WState, n: Name, todo: seq<Name>, fate: Fate, copies: bool): WState
    requires WValid(w) && w.core.writer.Idle? && (copies ==> n in w.core.src.names)
  {
    WState(if copies then TaskState(w.core, Task(n, n, fate)) else w.core,
           if copies && Succeeds(w.core.src, n, fate) then w.cache[n := Mtime(w.core.src, n)] else w.cache,
           Scanning(todo))
  }

  lemma VisitChanged(w: WState, n: Name, todo: seq<Name>, stat: bool)
    requires WValid(w) && w.phase == Scanning([n] + todo)
    ensures
      var src := w.core.src;
      WStep(w, Visit(stat))
        == w.(phase := if stat && n in src.names && Changed(w.cache, src, n) then Statted(n, Mtime(src, n), todo)
                       else Scanning(todo))
  {
    assert ([n] + todo)[1..] == todo;
  }

  lemma RecordStep(m: WState)
    requires WValid(m) && m.phase.Copied?
    ensures WStep(m, Record) == m.(cache := m.cache[m.phase.name := m.phase.stamp], phase := Scanning(m.phase.todo))
  {
  }

  lemma CopyEntry(w: WState, n: Name, todo: seq<Name>, fate: Fate)
    requires WValid(w) && w.core.writer.Idle? && Opens(w.core.src, n, fate)
    requires w.phase == Statted(n, Mtime(w.core.src, n), todo)
    ensures
      var copy := [CallCopy(true)] + Calls(AfterOpen(w.core.src, Task(n, n, fate)));
      WRun(w, if Succeeds(w.core.src, n, fate) then copy + [Record] else copy) == EntryState(w, n, todo, fate, true)
  {
    var copy := [CallCopy(true)] + Calls(AfterOpen(w.core.src, Task(n, n, fate)));
    CopyCallsRun(w, fate);
    if Succeeds(w.core.src, n, fate) {
      WRunOne(w, copy, Record);
      RecordStep(WRun(w, copy));
    }
  }

  lemma EntryIsRun(w: WState, n: Name, todo: seq<Name>, stat: bool, fate: Fate)
    requires WValid(w) && w.phase == Scanning([n] + todo) && w.core.writer.Idle?
    ensures
      var copies := stat && n in w.core.src.names && Changed(w.cache, w.core.src, n);
      WRun(w, EntrySteps(w.core.src, n, stat, fate, copies)) == EntryState(w, n, todo, fate, copies)
  {
    var src := w.core.src;
    VisitChanged(w, n, todo, stat);
    WRunSingle(w, Visit(stat));
    if stat && n in src.names && Changed(w.cache, src, n) {
      var m := WStep(w, Visit(stat));
      if Opens(src, n, fate) {
        var copy := [CallCopy(true)] + Calls(AfterOpen(src, Task(n, n, fate)));
        CopyEntry(m, n, todo, fate);
        WRunTwice(w, [Visit(stat)], if Succeeds(src, n, fate) then copy + [Record] else copy);
      } else {
        WRunOne(w, [Visit(stat)], CallCopy(false));
      }
    }
  }

  /******* One pass *******/

  // The files of a listing.
  function FileNames(entries: seq<Entry>): seq<Name> {
    if entries == [] then []
    else (if entries[0].isDir then [] else [entries[0].name]) + FileNames(entries[1..])
  }

  lemma {:induction false} FileNamesIn(entries: seq<Entry>, n: Name)
    requires n in FileNames(entries)
    ensures exists e :: e in entries && !e.isDir && e.name == n
    decreases |entries|
  {
    if entries[0].isDir || n != entries[0].name {
      FileNamesIn(entries[1..], n);
    }
  }

  function ReportOf(src: Source, t: Task): (a: Attempt)
    requires SourceOk(src)
    ensures Reports(src, t, a)
  {
    Attempt(t.dst, Contents(src, t.path),
            if Succeeds(src, t.path, t.fate) then Published
            else if !(Opens(src, t.path, t.fate) && t.fate.create) then Untouched
            else if t.fate.remove then Cleaned else Littered(Inode([], CREATE_MODE)))
  }

  // The watcher when it has passed the given tasks and has todo before it.
  function PassState(w: WState, tasks: seq<Task>, attempts: seq<Attempt>, todo: seq<Name>): WState
    requires WValid(w) && w.core.writer.Idle?
  {
    WState(TasksState(w.core, tasks), Recorded(w.cache, w.core.src, attempts), Scanning(todo))
  }

  // The entries before i are passed.
  ghost predicate PassedUpTo(w: WState, entries: seq<Entry>, skip: set<Name>, fates: Name -> Fate, i: nat,
                             attempts: seq<Attempt>, m: WState)
    requires WValid(w) && w.core.writer.Idle? && i <= |entries|
  {
    && AllReport(w.core.src, FileTasks(entries[..i], skip, fates), attempts)
    && m == PassState(w, FileTasks(entries[..i], skip, fates), attempts, FileNames(entries[i..]))
  }

  lemma NamesFrom(entries: seq<Entry>, i: nat)
    requires i < |entries|
    ensures
      var rest := FileNames(entries[i + 1..]);
      FileNames(entries[i..]) == if entries[i].isDir then rest else [entries[i].name] + rest
  {
    assert entries[i..][1..] == entries[i + 1..];
  }

  lemma PassDirectory(w: WState, entries: seq<Entry>, skip: set<Name>, fates: Name -> Fate, i: nat,
                      attempts: seq<Attempt>, m: WState)
    requires WValid(w) && w.core.writer.Idle? && i < |entries| && entries[i].isDir
    requires PassedUpTo(w, entries, skip, fates, i, attempts, m)
    ensures PassedUpTo(w, entries, skip, fates, i + 1, attempts, m)
  {
    FileTasksStep(entries, skip, fates, i);
    NamesFrom(entries, i);
  }

  // Whether an entry is copied does not depend on the copies before it.
  lemma SkipsSame(w: WState, entries: seq<Entry>, stats: Name -> bool, fates: Name -> Fate, i: nat,
                  attempts: seq<Attempt>)
    requires WValid(w) && Listing(entries) && i < |entries|
    requires
      AllReport(w.core.src, FileTasks(entries[..i], Skipped(entries, w.core.src, stats, w.cache), fates), attempts)
    ensures
      var src, n := w.core.src, entries[i].name;
      n !in Skipped(entries, src, stats, w.cache)
      <==> stats(n) && n in src.names && Changed(Recorded(w.cache, src, attempts), src, n)
  {
    var src, n := w.core.src, entries[i].name;
    NotYetCopied(src, entries, Skipped(entries, src, stats, w.cache), fates, i, attempts);
    RecordedFrame(w.cache, src, attempts, n);
    SkippedEntry(entries, src, stats, w.cache, i);
  }

  lemma PassFile(w: WState, entries: seq<Entry>, skip: set<Name>, fates: Name -> Fate, i: nat,
                 attempts: seq<Attempt>, m: WState, copies: bool, a: Attempt)
    requires WValid(w) && w.core.writer.Idle? && i < |entries| && !entries[i].isDir
    requires PassedUpTo(w, entries, skip, fates, i, attempts, m)
    requires copies == (entries[i].name !in skip) && (copies ==> entries[i].name in w.core.src.names)
    requires copies ==> Reports(w.core.src, Task(entries[i].name, entries[i].name, fates(entries[i].name)), a)
    ensures WValid(m) && m.core.writer.Idle? && m.core.src == w.core.src
    ensures PassedUpTo(w, entries, skip, fates, i + 1, if copies then attempts + [a] else attempts,
                       EntryState(m, entries[i].name, FileNames(entries[i + 1..]), fates(entries[i].name), copies))
  {
    var n := entries[i].name;
    var done, t := FileTasks(entries[..i], skip, fates), Task(n, n, fates(n));
    FileTasksStep(entries, skip, fates, i);
    if copies {
      ReportOne(w.core.src, done, attempts, t, a);
      RecordOne(w.cache, w.core.src, attempts, a);
      AppendedInit(done, t);
    }
  }

  // The watcher's steps at a file.
  lemma FileIsRun(w: WState, entries: seq<Entry>, stats: Name -> bool, fates: Name -> Fate, i: nat,
                  attempts: seq<Attempt>, m: WState, copies: bool, a: Attempt)
    requires WValid(w) && WValid(m) && w.core.writer.Idle? && Listing(entries) && i < |entries| && !entries[i].isDir
    requires PassedUpTo(w, entries, Skipped(entries, w.core.src, stats, w.cache), fates, i, attempts, m)
    requires copies == (entries[i].name !in Skipped(entries, w.core.src, stats, w.cache))
    requires Reports(w.core.src, Task(entries[i].name, entries[i].name, fates(entries[i].name)), a)
    ensures
      var n, skip := entries[i].name, Skipped(entries, w.core.src, stats, w.cache);
      PassedUpTo(w, entries, skip, fates, i + 1, if copies then attempts + [a] else attempts,
                 WRun(m, EntrySteps(w.core.src, n, stats(n), fates(n), copies)))
  {
    var n, skip := entries[i].name, Skipped(entries, w.core.src, stats, w.cache);
    SkipsSame(w, entries, stats, fates, i, attempts);
    PassFile(w, entries, skip, fates, i, attempts, m, copies, a);
    NamesFrom(entries, i);
    EntryIsRun(m, n, FileNames(entries[i + 1..]), stats(n), fates(n));
  }

  lemma Continues(w: WState, a: seq<WAction>, b: seq<WAction>, c: seq<WAction>)
    requires WValid(w)
    ensures WRun(w, a + (b + c)) == WRun(WRun(w, a + b), c)
  {
    WRunTwice(w, a + b, c);
    AppendTwice(a, b, c);
  }

  lemma PassPrefix(w: WState, entries: seq<Entry>, stats: Name -> bool, fates: Name -> Fate, i: nat)
    returns (steps: seq<WAction>, attempts: seq<Attempt>)
    requires WValid(w) && w.phase.Resting? && w.core.writer.Idle? && Listing(entries) && i <= |entries|
    ensures PassedUpTo(w, entries, Skipped(entries, w.core.src, stats, w.cache), fates, i, attempts,
                       WRun(w, [Begin(FileNames(entries))] + steps))
    ensures forall a | a in steps :: !a.Begin?
  {
    var begin, skip := [Begin(FileNames(entries))], Skipped(entries, w.core.src, stats, w.cache);
    if i == 0 {
      steps, attempts := [], [];
      assert begin + [] == begin && entries[0..] == entries && entries[..0] == [];
      WRunSingle(w, begin[0]);
    } else {
      var first, before := PassPrefix(w, entries, stats, fates, i - 1);
      var m, e := WRun(w, begin + first), entries[i - 1];
      if e.isDir {
        PassDirectory(w, entries, skip, fates, i - 1, before, m);
        steps, attempts := first, before;
      } else {
        var n, copies := e.name, e.name !in skip;
        var a := ReportOf(w.core.src, Task(n, n, fates(n)));
        FileIsRun(w, entries, stats, fates, i - 1, before, m, copies, a);
        var more := EntrySteps(w.core.src, n, stats(n), fates(n), copies);
        Continues(w, begin, first, more);
        NoBegin(w.core.src, n, stats(n), fates(n), copies);
        steps, attempts := first + more, if copies then before + [a] else before;
      }
    }
  }

  lemma NoBegin(src: Source, n: Name, stat: bool, fate: Fate, copies: bool)
    requires SourceOk(src)
    ensures forall a | a in EntrySteps(src, n, stat, fate, copies) :: !a.Begin?
  {
    CallsBeginNothing(AfterOpen(src, Task(n, n, fate)));
  }

  lemma {:induction false} CallsBeginNothing(calls: seq<Action>)
    ensures forall a | a in Calls(calls) :: !a.Begin?
    decreases |calls|
  {
    if calls != [] {
      CallsBeginNothing(calls[..|calls| - 1]);
    }
  }

  // What a pass records does not depend on how its failures are reported.
  lemma {:induction false} RecordedSame(cache: Cache, src: Source, tasks: seq<Task>, a: seq<Attempt>, b: seq<Attempt>)
    requires SourceOk(src) && AllReport(src, tasks, a) && AllReport(src, tasks, b)
    ensures Recorded(cache, src, a) == Recorded(cache, src, b)
    decreases |tasks|
  {
    if tasks != [] {
      RecordedSame(cache, src, tasks[..|tasks| - 1], a[..|a| - 1], b[..|b| - 1]);
    }
  }

  lemma PassListsOnly(dsts: set<Name>, entries: seq<Entry>, visits: seq<WAction>)
    requires forall e | e in entries && !e.isDir :: e.name in dsts
    requires forall a | a in visits :: !a.Begin?
    ensures ListsOnly(dsts, [Begin(FileNames(entries))] + visits + [Visit(true)])
  {
    var steps := [Begin(FileNames(entries))] + visits + [Visit(true)];
    forall k | 0 < k <= |visits|
      ensures !steps[k].Begin?
    {
      assert steps[k] == visits[k - 1];
    }
    forall n | n in FileNames(entries)
      ensures n in dsts
    {
      FileNamesIn(entries, n);
    }
  }

  /**
   A pass of Sync is a run of the watcher's machine, from any state at rest and for every
   fate of its calls: it ends at rest, with the directory and the cache that the method's
   contract gives.
   */
  lemma SyncIsRun(w: WState, dsts: set<Name>, entries: seq<Entry>, stats: Name -> bool, fates: Name -> Fate)
    returns (steps: seq<WAction>)
    requires WValid(w) && w.phase.Resting? && w.core.writer.Idle? && Listing(entries)
    requires forall e | e in entries && !e.isDir :: e.name in dsts
    ensures ListsOnly(dsts, steps)
    ensures
      var r, tasks := WRun(w, steps), PassTasks(w.core.src, true, entries, stats, w.cache, fates);
      && r.phase.Resting? && r.core == TasksState(w.core, tasks)
      && r.core.dir == TasksDir(w.core.dir, w.core.src, tasks)
      && (exists attempts :: AllReport(w.core.src, tasks, attempts))
      && (forall attempts | AllReport(w.core.src, tasks, attempts) ::
            r.cache == Recorded(w.cache, w.core.src, attempts))
  {
    assert entries[..|entries|] == entries;
    var begin, tasks := [Begin(FileNames(entries))], PassTasks(w.core.src, true, entries, stats, w.cache, fates);
    var visits, made := PassPrefix(w, entries, stats, fates, |entries|);
    steps := begin + visits + [Visit(true)];
    WRunOne(w, begin + visits, Visit(true));
    CopiesAreRun(w.core, tasks);
    forall attempts | AllReport(w.core.src, tasks, attempts)
      ensures Recorded(w.cache, w.core.src, made) == Recorded(w.cache, w.core.src, attempts)
    {
      RecordedSame(w.cache, w.core.src, tasks, made, attempts);
    }
    PassListsOnly(dsts, entries, visits);
  }

  /******* Convergence *******/

  // A failure-free pass leaves the current time of every file in the cache.
  lemma PassRecordsAll(cache: Cache, src: Source, entries: seq<Entry>, stats: Name -> bool, fates: Name -> Fate,
                       attempts: seq<Attempt>, n: Name)
    requires SourceOk(src) && ListsAll(entries, src) && FaultFree(src, stats, fates) && n in src.names
    requires AllReport(src, PassTasks(src, true, entries, stats, cache, fates), attempts)
    ensures !Changed(Recorded(cache, src, attempts), src, n)
  {
    PassPublishes(cache, src, entries, stats, fates, attempts);
    if Changed(cache, src, n) {
      RecordedHits(cache, src, attempts, n);
    } else {
      RecordedFrame(cache, src, attempts, n);
    }
  }

  /**
   Convergence. Once edits stop, the next pass of the machine in which nothing fails, from
   whatever state the run has reached, ends with every source file published with its
   current content, mode 0755 and its current time recorded.
   */
  lemma QuietPassConverges(dsts: set<Name>, w: WState, acts: seq<WAction>, entries: seq<Entry>,
                           stats: Name -> bool, fates: Name -> Fate) returns (steps: seq<WAction>)
    requires NoClash(dsts) && WInit(dsts, w) && ListsOnly(dsts, acts)
    requires
      var t := WRun(w, acts);
      && t.phase.Resting? && t.core.src.names.Keys <= dsts
      && ListsAll(entries, t.core.src) && FaultFree(t.core.src, stats, fates)
    ensures
      var t, r := WRun(w, acts), WRun(w, acts + steps);
      && r.phase.Resting? && r.core.src == t.core.src
      && r.core.dir == TasksDir(t.core.dir, t.core.src, PassTasks(t.core.src, true, entries, stats, t.cache, fates))
      && forall n | n in r.core.src.names :: UpToDate(r.core, n) && !Changed(r.cache, r.core.src, n)
  {
    var t := WRun(w, acts);
    WRunKeepsWInv(dsts, w, acts);
    var src := t.core.src;
    steps := SyncIsRun(t, dsts, entries, stats, fates);
    var attempts :| AllReport(src, PassTasks(src, true, entries, stats, t.cache, fates), attempts);
    WRunTwice(w, acts, steps);
    var r := WRun(t, steps);
    WRunKeepsWInv(dsts, t, steps);
    forall n | n in src.names
      ensures UpToDate(r.core, n) && !Changed(r.cache, src, n)
    {
      PassRecordsAll(t.cache, src, entries, stats, fates, attempts, n);
      assert Current(r.core, n, r.cache[n]);
    }
  }
}
