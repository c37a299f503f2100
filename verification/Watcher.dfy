/**
 The file watcher: copies only files whose modification time differs from the one
 recorded at their last successful copy.
 */
module Watcher {
  import opened Fs
  import opened Publish
  import opened Attempts
  import opened Copier

  type Stamp = nat
  type Cache = map<Name, Stamp>

  function Mtime(src: Source, n: Name): Stamp
    requires SourceOk(src) && n in src.names
  {
    src.files[src.names[n]].mtime
  }

  // The recorded time is missing or not the current one.
  predicate Changed(cache: Cache, src: Source, n: Name)
    requires SourceOk(src) && n in src.names
  {
    n !in cache || cache[n] != Mtime(src, n)
  }

  // The entries that a pass leaves alone: those it cannot stat, and the unchanged.
  function Skipped(entries: seq<Entry>, src: Source, stats: Name -> bool, cache: Cache): set<Name>
    requires SourceOk(src)
  {
    set e | e in entries && (e.name !in src.names || !stats(e.name) || !Changed(cache, src, e.name)) :: e.name
  }

  // The copies that a pass makes.
  function PassTasks(src: Source, readable: bool, entries: seq<Entry>, stats: Name -> bool, cache: Cache,
                     fates: Name -> Fate): seq<Task>
    requires SourceOk(src)
  {
    if readable then FileTasks(entries, Skipped(entries, src, stats, cache), fates) else []
  }

  // The cache after a pass: the time of every file whose copy succeeded.
  function Recorded(cache: Cache, src: Source, attempts: seq<Attempt>): Cache
    requires SourceOk(src)
  {
    if attempts == [] then cache
    else
      var c, a := Recorded(cache, src, attempts[..|attempts| - 1]), attempts[|attempts| - 1];
      if a.outcome.Published? && a.dst in src.names then c[a.dst := Mtime(src, a.dst)] else c
  }

  lemma RecordOne(cache: Cache, src: Source, attempts: seq<Attempt>, a: Attempt)
    requires SourceOk(src)
    ensures
      var c := Recorded(cache, src, attempts);
      Recorded(cache, src, attempts + [a])
        == if a.outcome.Published? && a.dst in src.names then c[a.dst := Mtime(src, a.dst)] else c
  {
    assert (attempts + [a])[..|attempts|] == attempts;
  }

  lemma {:induction false} RecordedFrame(cache: Cache, src: Source, attempts: seq<Attempt>, n: Name)
    requires SourceOk(src) && n !in Targets(attempts)
    ensures n in Recorded(cache, src, attempts) <==> n in cache
    ensures n in cache ==> Recorded(cache, src, attempts)[n] == cache[n]
    decreases |attempts|
  {
    if attempts != [] {
      var init, a := attempts[..|attempts| - 1], attempts[|attempts| - 1];
      assert a in attempts && forall b | b in init :: b in attempts;
      RecordedFrame(cache, src, init, n);
    }
  }

  class FileWatcher {
    const copier: ScriptCopier
    var fileHashes: Cache

    constructor (output: SharedDir)
      ensures fileHashes == map[] && copier.outputDir == output
    {
      copier := new ScriptCopier(output);
      fileHashes := map[];
    }

    // The pass at one entry: a copy, if it is a file that has changed.
    method SyncEntry(src: Source, entry: Entry, stat: bool, fate: Fate) returns (did: bool, ghost attempt: Attempt)
      requires copier.outputDir.Valid() && SourceOk(src)
      modifies this, copier.outputDir
      ensures copier.outputDir.Valid()
      ensures did <==> !entry.isDir && entry.name in src.names && stat && Changed(old(fileHashes), src, entry.name)
      ensures did && entry.name in old(fileHashes) ==>
        old(fileHashes)[entry.name] != src.files[src.names[entry.name]].mtime
      ensures did ==> Reports(src, Task(entry.name, entry.name, fate), attempt)
      ensures copier.outputDir.View() ==
        if did then Apply(old(copier.outputDir.View()), attempt) else old(copier.outputDir.View())
      ensures copier.outputDir.dir ==
        if did then TaskDir(old(copier.outputDir.dir), src, Task(entry.name, entry.name, fate))
        else old(copier.outputDir.dir)
      ensures fileHashes ==
        if did && attempt.outcome.Published? then old(fileHashes)[entry.name := Mtime(src, entry.name)]
        else old(fileHashes)
    {
      attempt := Attempt(entry.name, [], Untouched);
      if entry.isDir || entry.name !in src.names || !stat {
        return false, attempt;
      }
      var currentHash := Mtime(src, entry.name);
      if entry.name in fileHashes && fileHashes[entry.name] == currentHash {
        return false, attempt;
      }
      var ok;
      ok, attempt := copier.Copy(src, Task(entry.name, entry.name, fate));
      if ok {
        fileHashes := fileHashes[entry.name := currentHash];
      }
      did := true;
    }

    /**
     One pass over the source directory: the changed files are copied, in the order of
     the listing, and the time of each is recorded exactly when its copy succeeds.
     copies counts the copies attempted.
     */
    method Sync(src: Source, readable: bool, entries: seq<Entry>, stats: Name -> bool, fates: Name -> Fate)
      returns (ok: bool, copies: nat, ghost attempts: seq<Attempt>)
      requires copier.outputDir.Valid() && SourceOk(src) && Listing(entries)
      modifies this, copier.outputDir
      ensures copier.outputDir.Valid()
      ensures ok <==> readable
      ensures AllReport(src, PassTasks(src, readable, entries, stats, old(fileHashes), fates), attempts)
      ensures copies == |attempts|
      ensures copier.outputDir.dir ==
        TasksDir(old(copier.outputDir.dir), src, PassTasks(src, readable, entries, stats, old(fileHashes), fates))
      ensures copier.outputDir.View() == Fold(old(copier.outputDir.View()), attempts)
      ensures fileHashes == Recorded(old(fileHashes), src, attempts)
    {
      attempts, copies := [], 0;
      if !readable {
        return false, 0, [];
      }
      ghost var v, d, cache := copier.outputDir.View(), copier.outputDir.dir, fileHashes;
      ghost var skip := Skipped(entries, src, stats, cache);
      for i := 0 to |entries|
        invariant copier.outputDir.Valid()
        invariant Passed(src, entries[..i], skip, fates, attempts, v, copier.outputDir.View(), cache, fileHashes)
        invariant copier.outputDir.dir == TasksDir(d, src, FileTasks(entries[..i], skip, fates))
        invariant copies == |attempts|
      {
        ghost var view, hashes := copier.outputDir.View(), fileHashes;
        var did;
        ghost var attempt;
        did, attempt := SyncEntry(src, entries[i], stats(entries[i].name), fates(entries[i].name));
        PassedOne(src, entries, stats, fates, i, attempts, v, view, cache, hashes, did, attempt);
        PassedDir(d, src, entries, stats, fates, i, cache, did);
        if did {
          copies := copies + 1;
          attempts := attempts + [attempt];
        }
      }
      assert entries[..|entries|] == entries;
      ok := true;
    }
  }

  // Where a pass stands after the given entries: view and hashes are the directory and
  // the cache it started with, after the attempts so far.
  ghost predicate Passed(src: Source, entries: seq<Entry>, skip: set<Name>, fates: Name -> Fate,
                         attempts: seq<Attempt>, v: View, view: View, cache: Cache, hashes: Cache)
    requires SourceOk(src)
  {
    && AllReport(src, FileTasks(entries, skip, fates), attempts)
    && view == Fold(v, attempts)
    && hashes == Recorded(cache, src, attempts)
  }

  lemma PassedOne(src: Source, entries: seq<Entry>, stats: Name -> bool, fates: Name -> Fate, i: nat,
                  attempts: seq<Attempt>, v: View, view: View, cache: Cache, hashes: Cache,
                  did: bool, attempt: Attempt)
    requires SourceOk(src) && Listing(entries) && i < |entries|
    requires Passed(src, entries[..i], Skipped(entries, src, stats, cache), fates, attempts, v, view, cache, hashes)
    requires
      var e := entries[i];
      && (did <==> !e.isDir && e.name in src.names && stats(e.name) && Changed(hashes, src, e.name))
      && (did ==> Reports(src, Task(e.name, e.name, fates(e.name)), attempt))
    ensures
      var e := entries[i];
      Passed(src, entries[..i + 1], Skipped(entries, src, stats, cache), fates,
             if did then attempts + [attempt] else attempts,
             v, if did then Apply(view, attempt) else view,
             cache, if did && attempt.outcome.Published? then hashes[e.name := Mtime(src, e.name)] else hashes)
    ensures did <==> !entries[i].isDir && entries[i].name !in Skipped(entries, src, stats, cache)
  {
    var n, skip := entries[i].name, Skipped(entries, src, stats, cache);
    FileTasksStep(entries, skip, fates, i);
    NotYetCopied(src, entries, skip, fates, i, attempts);
    RecordedFrame(cache, src, attempts, n);
    SkippedEntry(entries, src, stats, cache, i);
    if did {
      FoldOne(v, attempts, attempt);
      RecordOne(cache, src, attempts, attempt);
      ReportOne(src, FileTasks(entries[..i], skip, fates), attempts, Task(n, n, fates(n)), attempt);
    }
  }

  lemma PassedDir(d: Dir, src: Source, entries: seq<Entry>, stats: Name -> bool, fates: Name -> Fate, i: nat,
                  cache: Cache, did: bool)
    requires InRange(d) && SourceOk(src) && i < |entries|
    requires
      var e := entries[i];
      did <==> !e.isDir && e.name !in Skipped(entries, src, stats, cache)
    ensures
      var n, skip := entries[i].name, Skipped(entries, src, stats, cache);
      var dir := TasksDir(d, src, FileTasks(entries[..i], skip, fates));
      TasksDir(d, src, FileTasks(entries[..i + 1], skip, fates))
        == if did then TaskDir(dir, src, Task(n, n, fates(n))) else dir
  {
    var n, skip := entries[i].name, Skipped(entries, src, stats, cache);
    FileTasksStep(entries, skip, fates, i);
    TasksDirOne(d, src, FileTasks(entries[..i], skip, fates), Task(n, n, fates(n)));
  }

  // Names in a listing are distinct, so an entry's cached time is not touched before
  // the pass reaches it.
  lemma NotYetCopied(src: Source, entries: seq<Entry>, skip: set<Name>, fates: Name -> Fate,
                     i: nat, attempts: seq<Attempt>)
    requires SourceOk(src) && Listing(entries) && i < |entries|
    requires AllReport(src, FileTasks(entries[..i], skip, fates), attempts)
    ensures entries[i].name !in Targets(attempts)
  {
    var tasks := FileTasks(entries[..i], skip, fates);
    FileTasksSorted(entries[..i], skip, fates);
    forall a | a in attempts
      ensures a.dst != entries[i].name
    {
      var k :| 0 <= k < |attempts| && attempts[k] == a;
      ReportsEach(src, tasks, attempts, k);
      assert tasks[k] in tasks;
      var j :| 0 <= j < i && entries[..i][j] == Entry(a.dst, false);
      assert Less(entries[j].name, entries[i].name);
      LessAsymmetric(entries[j].name, entries[i].name);
    }
  }

  lemma SkippedEntry(entries: seq<Entry>, src: Source, stats: Name -> bool, cache: Cache, i: nat)
    requires SourceOk(src) && i < |entries|
    ensures
      var n := entries[i].name;
      n in Skipped(entries, src, stats, cache) <==> n !in src.names || !stats(n) || !Changed(cache, src, n)
  {
    assert entries[i] in entries;
  }

  /******* Incremental copying against copying everything *******/

  // Every recorded time that is still current stands for a file published intact.
  predicate Coherent(cache: Cache, v: View, src: Source)
    requires SourceOk(src)
  {
    forall n | n in cache && n in src.names && !Changed(cache, src, n) ::
      n in v && v[n] == Script(Contents(src, n))
  }

  // The listing has exactly the files of the source.
  ghost predicate ListsAll(entries: seq<Entry>, src: Source) {
    && Listing(entries)
    && forall n :: n in src.names <==> Entry(n, false) in entries
  }

  // Every stat works and every copy's calls succeed.
  ghost predicate FaultFree(src: Source, stats: Name -> bool, fates: Name -> Fate)
    requires SourceOk(src)
  {
    forall n | n in src.names :: stats(n) && Succeeds(src, n, fates(n))
  }

  // No changed file n has an unchanged companion n.tmp.
  predicate NoStaleCompanion(cache: Cache, src: Source)
    requires SourceOk(src)
  {
    forall n | n in src.names && Tmp(n) in src.names && Changed(cache, src, n) :: Changed(cache, src, Tmp(n))
  }

  lemma {:induction false} AllSucceed(src: Source, tasks: seq<Task>, attempts: seq<Attempt>)
    requires SourceOk(src) && AllReport(src, tasks, attempts)
    requires forall t | t in tasks :: Succeeds(src, t.path, t.fate)
    ensures AllPublished(attempts)
    ensures forall n :: n in Targets(attempts) <==> exists t :: t in tasks && t.dst == n
    decreases |tasks|
  {
    if tasks != [] {
      var last := |tasks| - 1;
      assert tasks[last] in tasks && forall t | t in tasks[..last] :: t in tasks;
      AllSucceed(src, tasks[..last], attempts[..last]);
      assert attempts == attempts[..last] + [attempts[last]];
      assert Targets(attempts) == Targets(attempts[..last]) + {attempts[last].dst};
      assert tasks == tasks[..last] + [tasks[last]];
    }
  }

  lemma AttemptsSorted(src: Source, entries: seq<Entry>, skip: set<Name>, fates: Name -> Fate, attempts: seq<Attempt>)
    requires SourceOk(src) && Listing(entries)
    requires AllReport(src, FileTasks(entries, skip, fates), attempts)
    ensures SortedTargets(attempts)
    ensures forall k | 0 <= k < |attempts| ::
      && attempts[k].data == Contents(src, attempts[k].dst)
      && (attempts[k].outcome.Published? <==> Succeeds(src, attempts[k].dst, fates(attempts[k].dst)))
  {
    var tasks := FileTasks(entries, skip, fates);
    FileTasksSorted(entries, skip, fates);
    forall k | 0 <= k < |attempts|
      ensures Reports(src, tasks[k], attempts[k]) && tasks[k] in tasks
    {
      ReportsEach(src, tasks, attempts, k);
    }
  }

  // The tasks of a pass are the changed files.
  lemma TasksAreChanged(cache: Cache, src: Source, entries: seq<Entry>, stats: Name -> bool, fates: Name -> Fate,
                        n: Name)
    requires SourceOk(src) && ListsAll(entries, src) && FaultFree(src, stats, fates)
    ensures
      var tasks := FileTasks(entries, Skipped(entries, src, stats, cache), fates);
      (exists t :: t in tasks && t.dst == n) <==> n in src.names && Changed(cache, src, n)
  {
    var skip := Skipped(entries, src, stats, cache);
    FileTasksSorted(entries, skip, fates);
    if n in src.names && Changed(cache, src, n) {
      FileTasksAreFiles(entries, skip, fates, Entry(n, false));
    }
  }

  lemma TasksSucceed(cache: Cache, src: Source, entries: seq<Entry>, stats: Name -> bool, fates: Name -> Fate)
    requires SourceOk(src) && ListsAll(entries, src) && FaultFree(src, stats, fates)
    ensures forall t | t in FileTasks(entries, Skipped(entries, src, stats, cache), fates) ::
      Succeeds(src, t.path, t.fate)
  {
    FileTasksSorted(entries, Skipped(entries, src, stats, cache), fates);
  }

  // The names that a failure-free pass publishes are the changed files.
  lemma PassPublishes(cache: Cache, src: Source, entries: seq<Entry>, stats: Name -> bool, fates: Name -> Fate,
                      attempts: seq<Attempt>)
    requires SourceOk(src) && ListsAll(entries, src) && FaultFree(src, stats, fates)
    requires AllReport(src, PassTasks(src, true, entries, stats, cache, fates), attempts)
    ensures AllPublished(attempts) && SortedTargets(attempts)
    ensures forall k | 0 <= k < |attempts| :: attempts[k].data == Contents(src, attempts[k].dst)
    ensures forall n :: n in Targets(attempts) <==> n in src.names && Changed(cache, src, n)
  {
    var skip := Skipped(entries, src, stats, cache);
    TasksSucceed(cache, src, entries, stats, fates);
    AllSucceed(src, FileTasks(entries, skip, fates), attempts);
    AttemptsSorted(src, entries, skip, fates, attempts);
    forall n
      ensures n in Targets(attempts) <==> n in src.names && Changed(cache, src, n)
    {
      TasksAreChanged(cache, src, entries, stats, fates, n);
    }
  }

  // A published n removes n.tmp for good, unless n.tmp is itself copied.
  lemma {:induction false} FoldLoses(v: View, attempts: seq<Attempt>, n: Name)
    requires AllPublished(attempts) && Tmp(n) !in Targets(attempts) && n in Targets(attempts)
    ensures Tmp(n) !in Fold(v, attempts)
    decreases |attempts|
  {
    var init, a := attempts[..|attempts| - 1], attempts[|attempts| - 1];
    assert a in attempts && forall b | b in init :: b in attempts;
    if a.dst != n {
      assert n in Targets(init);
      FoldLoses(v, init, n);
    }
  }

  lemma {:induction false} RecordedHits(cache: Cache, src: Source, attempts: seq<Attempt>, n: Name)
    requires SourceOk(src) && AllPublished(attempts) && n in Targets(attempts) && n in src.names
    ensures n in Recorded(cache, src, attempts) && Recorded(cache, src, attempts)[n] == Mtime(src, n)
    decreases |attempts|
  {
    var init, a := attempts[..|attempts| - 1], attempts[|attempts| - 1];
    if a.dst != n {
      assert n in Targets(init);
      RecordedHits(cache, src, init, n);
    }
  }

  // A pass does not mend a file that it takes for unchanged.
  lemma IncoherentStays(v: View, cache: Cache, src: Source, attempts: seq<Attempt>, n: Name)
    requires SourceOk(src) && AllPublished(attempts) && n !in Targets(attempts)
    requires n !in v || v[n] != Script(Contents(src, n))
    ensures n !in Fold(v, attempts) || Fold(v, attempts)[n] != Script(Contents(src, n))
  {
    if n in Temps(attempts) {
      var a :| a in attempts && Tmp(a.dst) == n;
      FoldLoses(v, attempts, a.dst);
    } else {
      FoldFrame(v, attempts, n);
    }
  }

  /**
   Incremental against full. On a quiet source, a failure-free pass leaves every source
   file's destination as CopyAll would leave it exactly when the cache is coherent and no
   changed n has an unchanged companion n.tmp: copying n removes the published n.tmp, and
   the cache keeps the pass from copying it again.
   */
  lemma IncrementalMatchesFull(v: View, cache: Cache, src: Source, entries: seq<Entry>,
                               stats: Name -> bool, fates: Name -> Fate, attempts: seq<Attempt>)
    requires SourceOk(src) && ListsAll(entries, src) && FaultFree(src, stats, fates)
    requires AllReport(src, PassTasks(src, true, entries, stats, cache, fates), attempts)
    ensures Intact(Fold(v, attempts), src, entries) <==> NoStaleCompanion(cache, src) && Coherent(cache, v, src)
  {
    PassPublishes(cache, src, entries, stats, fates, attempts);
    if !NoStaleCompanion(cache, src) {
      var n :| n in src.names && Tmp(n) in src.names && Changed(cache, src, n) && !Changed(cache, src, Tmp(n));
      FoldLoses(v, attempts, n);
      assert Entry(Tmp(n), false) in entries;
    } else if !Coherent(cache, v, src) {
      var n :| n in cache && n in src.names && !Changed(cache, src, n) && (n !in v || v[n] != Script(Contents(src, n)));
      IncoherentStays(v, cache, src, attempts, n);
      assert Entry(n, false) in entries;
    } else {
      CoherentPassIsIntact(v, cache, src, entries, stats, fates, attempts);
    }
  }

  lemma CoherentPassIsIntact(v: View, cache: Cache, src: Source, entries: seq<Entry>,
                             stats: Name -> bool, fates: Name -> Fate, attempts: seq<Attempt>)
    requires SourceOk(src) && ListsAll(entries, src) && FaultFree(src, stats, fates)
    requires Coherent(cache, v, src) && NoStaleCompanion(cache, src)
    requires AllReport(src, PassTasks(src, true, entries, stats, cache, fates), attempts)
    ensures Intact(Fold(v, attempts), src, entries)
  {
    PassPublishes(cache, src, entries, stats, fates, attempts);
    var after := Fold(v, attempts);
    forall e | e in entries && !e.isDir
      ensures e.name in after && after[e.name] == Script(Contents(src, e.name))
    {
      assert e == Entry(e.name, false);
      if Changed(cache, src, e.name) {
        var k :| 0 <= k < |attempts| && attempts[k].dst == e.name;
        EachPublished(attempts, k);
        SortedSuccessSurvives(v, attempts, k);
      } else {
        FoldFrame(v, attempts, e.name);
      }
    }
  }

  /**
   A failure-free pass records the current time of every file, so a pass that follows
   with no edit in between attempts no copy.
   */
  lemma SecondPassIsIdle(cache: Cache, src: Source, entries: seq<Entry>, stats: Name -> bool, fates: Name -> Fate,
                         attempts: seq<Attempt>, stats': Name -> bool, fates': Name -> Fate)
    requires SourceOk(src) && ListsAll(entries, src) && FaultFree(src, stats, fates)
    requires AllReport(src, PassTasks(src, true, entries, stats, cache, fates), attempts)
    ensures
      var cache' := Recorded(cache, src, attempts);
      FileTasks(entries, Skipped(entries, src, stats', cache'), fates') == []
  {
    PassPublishes(cache, src, entries, stats, fates, attempts);
    var cache' := Recorded(cache, src, attempts);
    forall n | n in src.names
      ensures !Changed(cache', src, n)
    {
      if Changed(cache, src, n) {
        RecordedHits(cache, src, attempts, n);
      } else {
        RecordedFrame(cache, src, attempts, n);
      }
    }
    var skip := Skipped(entries, src, stats', cache');
    forall e | e in entries && !e.isDir
      ensures e.name in skip
    {
      assert e == Entry(e.name, false);
    }
    NothingToDo(entries, skip, fates');
  }

  lemma {:induction false} NothingToDo(entries: seq<Entry>, skip: set<Name>, fates: Name -> Fate)
    requires forall e | e in entries && !e.isDir :: e.name in skip
    ensures FileTasks(entries, skip, fates) == []
    decreases |entries|
  {
    if entries != [] {
      NothingToDo(entries[..|entries| - 1], skip, fates);
    }
  }

  // A pass, whatever fails in it, keeps the cache coherent when no name is another
  // name's temporary name.
  lemma PassKeepsCoherent(v: View, cache: Cache, src: Source, entries: seq<Entry>,
                          stats: Name -> bool, fates: Name -> Fate, attempts: seq<Attempt>)
    requires SourceOk(src) && ListsAll(entries, src) && Coherent(cache, v, src) && NoClash(src.names.Keys)
    requires AllReport(src, PassTasks(src, true, entries, stats, cache, fates), attempts)
    ensures Coherent(Recorded(cache, src, attempts), Fold(v, attempts), src)
  {
    var skip := Skipped(entries, src, stats, cache);
    var tasks := FileTasks(entries, skip, fates);
    FileTasksSorted(entries, skip, fates);
    forall k | 0 <= k < |attempts|
      ensures Reports(src, tasks[k], attempts[k]) && tasks[k] in tasks
    {
      ReportsEach(src, tasks, attempts, k);
    }
    var cache', after := Recorded(cache, src, attempts), Fold(v, attempts);
    forall n | n in cache' && n in src.names && !Changed(cache', src, n)
      ensures n in after && after[n] == Script(Contents(src, n))
    {
      if k :| 0 <= k < |attempts| && attempts[k].dst == n && attempts[k].outcome.Published? {
        SortedSuccessSurvives(v, attempts, k);
      } else {
        KeptName(v, cache, src, attempts, n);
      }
    }
  }

  // A file without a success keeps its recorded time and, when no target clashes
  // with it, its published content.
  lemma {:induction false} KeptName(v: View, cache: Cache, src: Source, attempts: seq<Attempt>, n: Name)
    requires SourceOk(src) && n in src.names
    requires forall k | 0 <= k < |attempts| :: attempts[k].dst == n ==> !attempts[k].outcome.Published?
    requires forall k | 0 <= k < |attempts| :: Tmp(attempts[k].dst) != n
    ensures n in Recorded(cache, src, attempts) <==> n in cache
    ensures n in cache ==> Recorded(cache, src, attempts)[n] == cache[n]
    ensures n in Fold(v, attempts) <==> n in v
    ensures n in v ==> Fold(v, attempts)[n] == v[n]
    decreases |attempts|
  {
    if attempts != [] {
      KeptName(v, cache, src, attempts[..|attempts| - 1], n);
    }
  }

  // In sorted order each target has one attempt, which decides what is recorded for it.
  lemma {:induction false} RecordedAt(cache: Cache, src: Source, attempts: seq<Attempt>, k: nat)
    requires SourceOk(src) && SortedTargets(attempts) && k < |attempts| && attempts[k].dst in src.names
    ensures
      var n, recorded := attempts[k].dst, Recorded(cache, src, attempts);
      && (attempts[k].outcome.Published? ==> n in recorded && recorded[n] == Mtime(src, n))
      && (!attempts[k].outcome.Published? ==>
            (n in recorded <==> n in cache) && (n in cache ==> recorded[n] == cache[n]))
    decreases |attempts|
  {
    var last := |attempts| - 1;
    if k < last {
      RecordedAt(cache, src, attempts[..last], k);
      SortedNeverClobbers(attempts, k, last);
    } else {
      forall a | a in attempts[..last]
        ensures a.dst != attempts[k].dst
      {
        var i :| 0 <= i < last && attempts[i] == a;
        SortedNeverClobbers(attempts, i, last);
      }
      RecordedFrame(cache, src, attempts[..last], attempts[k].dst);
    }
  }

  /**
   A pass goes on after errors: whatever becomes of the other files, a listed file that can
   be statted and whose time is not the recorded one is published with its time recorded if
   its copy succeeds, and keeps its record if not.
   */
  lemma PassGoesOn(v: View, cache: Cache, src: Source, entries: seq<Entry>, stats: Name -> bool, fates: Name -> Fate,
                   attempts: seq<Attempt>, n: Name)
    requires SourceOk(src) && Listing(entries)
    requires AllReport(src, PassTasks(src, true, entries, stats, cache, fates), attempts)
    requires Entry(n, false) in entries && n in src.names && stats(n)
    requires n in cache ==> cache[n] != src.files[src.names[n]].mtime
    ensures
      var after, recorded := Fold(v, attempts), Recorded(cache, src, attempts);
      if Succeeds(src, n, fates(n)) then
        && n in after && after[n] == Script(src.files[src.names[n]].content)
        && n in recorded && recorded[n] == src.files[src.names[n]].mtime
      else (n in recorded <==> n in cache) && (n in cache ==> recorded[n] == cache[n])
  {
    var skip := Skipped(entries, src, stats, cache);
    var tasks := FileTasks(entries, skip, fates);
    FileTasksAreFiles(entries, skip, fates, Entry(n, false));
    var k :| 0 <= k < |tasks| && tasks[k] == Task(n, n, fates(n));
    AttemptsSorted(src, entries, skip, fates, attempts);
    ReportsEach(src, tasks, attempts, k);
    RecordedAt(cache, src, attempts, k);
    if attempts[k].outcome.Published? {
      SortedSuccessSurvives(v, attempts, k);
    }
  }

  // A script ls, changed since time 1, and its unchanged companion ls.tmp.
  function PairSource(content: Bytes): Source {
    Source(map["ls" := 0, "ls.tmp" := 1], [SrcFile(content, 2), SrcFile(content, 1)])
  }

  const PAIR_ENTRIES := [Entry("ls", false), Entry("ls.tmp", false)]
  const PAIR_CACHE: Cache := map["ls" := 1, "ls.tmp" := 1]

  lemma PairIsListed(content: Bytes)
    ensures ListsAll(PAIR_ENTRIES, PairSource(content))
  {
    PrefixIsLess("ls", ".tmp");
    assert PAIR_ENTRIES[0] == Entry("ls", false) && PAIR_ENTRIES[1] == Entry("ls.tmp", false);
  }

  // A pass without a failure loses the companion.
  lemma CompanionIsLost(v: View, content: Bytes, stats: Name -> bool, fates: Name -> Fate, attempts: seq<Attempt>)
    requires
      var src := PairSource(content);
      && FaultFree(src, stats, fates)
      && AllReport(src, PassTasks(src, true, PAIR_ENTRIES, stats, PAIR_CACHE, fates), attempts)
    ensures "ls.tmp" !in Fold(v, attempts)
  {
    PairIsListed(content);
    assert Tmp("ls") == "ls.tmp";
    PassPublishes(PAIR_CACHE, PairSource(content), PAIR_ENTRIES, stats, fates, attempts);
    FoldLoses(v, attempts, "ls");
  }

  // An edit in place of n that keeps its modification time.
  function SameTimeEdit(src: Source, n: Name, content: Bytes): (after: Source)
    requires SourceOk(src) && n in src.names
    ensures SourceOk(after) && after.names == src.names
  {
    var fd := src.names[n];
    src.(files := src.files[fd := SrcFile(content, src.files[fd].mtime)])
  }

  /**
   An edit that keeps the modification time of an up-to-date file is missed: apart from
   stale companions, the pass after it is right exactly when the edit changed nothing.
   */
  lemma SameTimeEditIsMissed(v: View, cache: Cache, src: Source, n: Name, content: Bytes, entries: seq<Entry>,
                             stats: Name -> bool, fates: Name -> Fate, attempts: seq<Attempt>)
    requires SourceOk(src) && Coherent(cache, v, src) && n in src.names && !Changed(cache, src, n)
    requires
      var edited := SameTimeEdit(src, n, content);
      && ListsAll(entries, edited) && FaultFree(edited, stats, fates)
      && AllReport(edited, PassTasks(edited, true, entries, stats, cache, fates), attempts)
    ensures
      Intact(Fold(v, attempts), SameTimeEdit(src, n, content), entries)
      <==> NoStaleCompanion(cache, src) && content == Contents(src, n)
  {
    var edited := SameTimeEdit(src, n, content);
    IncrementalMatchesFull(v, cache, edited, entries, stats, fates, attempts);
    forall m | m in src.names
      ensures Changed(cache, edited, m) <==> Changed(cache, src, m)
    {
    }
    if content == Contents(src, n) {
      assert edited == src;
    } else {
      assert v[n] == Script(Contents(src, n)) && Contents(edited, n) == content;
    }
  }
}
