/**
 The sidecar manager: publishes the script of each behaviour of its stub under the
 command's name, or the whole source directory when the stub cannot be fetched, and
 follows the stub's watch events.
 */
module Sidecar {
  import opened Fs
  import opened Publish
  import opened Attempts
  import opened Copier
  import opened CommandNames

  datatype Behavior = Behavior(
    name: string, targetPath: string, scriptPath: string, enableLogging: bool, logPath: string)

  datatype Fetch = Fetched(behaviors: seq<Behavior>) | FetchFailed

  // What one synchronisation meets: the API's answer, whether the shared directory can
  // be made, the source files by their path below the mount point and their directory
  // listing, and the fate of each copy.
  datatype SyncInput = SyncInput(
    fetch: Fetch, mkdir: bool, src: Source, readable: bool, entries: seq<Entry>,
    fates: nat -> Fate, fileFates: Name -> Fate)

  predicate InputOk(x: SyncInput) {
    SourceOk(x.src) && Listing(x.entries)
  }

  // The copy that behaviour b asks for.
  function BehaviorTask(b: Behavior, fate: Fate): Task {
    Task(b.scriptPath, CommandName(b.targetPath), fate)
  }

  // The copies that a list of behaviours makes.
  function BehaviorTasks(behaviors: seq<Behavior>, fates: nat -> Fate): seq<Task> {
    if behaviors == [] then []
    else
      var last := |behaviors| - 1;
      var tasks, task := BehaviorTasks(behaviors[..last], fates), BehaviorTask(behaviors[last], fates(last));
      if Proper(task.dst) then tasks + [task] else tasks
  }

  // The copies that a synchronisation makes.
  function SyncTasks(x: SyncInput): seq<Task> {
    if !x.mkdir then []
    else
      match x.fetch
      case Fetched(behaviors) => BehaviorTasks(behaviors, x.fates)
      case FetchFailed => if x.readable then FileTasks(x.entries, {}, x.fileFates) else []
  }

  lemma BehaviorTasksOne(d: Dir, src: Source, behaviors: seq<Behavior>, fates: nat -> Fate, i: nat)
    requires InRange(d) && SourceOk(src) && i < |behaviors|
    ensures
      var task, dir := BehaviorTask(behaviors[i], fates(i)), TasksDir(d, src, BehaviorTasks(behaviors[..i], fates));
      TasksDir(d, src, BehaviorTasks(behaviors[..i + 1], fates))
        == if Proper(task.dst) then TaskDir(dir, src, task) else dir
  {
    assert behaviors[..i + 1][..i] == behaviors[..i];
    TasksDirOne(d, src, BehaviorTasks(behaviors[..i], fates), BehaviorTask(behaviors[i], fates(i)));
  }

  // a is how behaviour b turned out. A name that is not proper denotes the shared
  // directory or its parent; no file can be renamed over a directory.
  predicate BehaviorReport(src: Source, b: Behavior, fate: Fate, a: Attempt)
    requires SourceOk(src)
  {
    && a.dst == CommandName(b.targetPath) && a.data == Contents(src, b.scriptPath)
    && if Proper(a.dst) then Reports(src, BehaviorTask(b, fate), a) else a.outcome.Untouched?
  }

  predicate BehaviorReports(src: Source, behaviors: seq<Behavior>, fates: nat -> Fate, attempts: seq<Attempt>)
    requires SourceOk(src)
  {
    && |attempts| == |behaviors|
    && (behaviors != [] ==>
          var last := |behaviors| - 1;
          && BehaviorReports(src, behaviors[..last], fates, attempts[..last])
          && BehaviorReport(src, behaviors[last], fates(last), attempts[last]))
  }

  lemma BehaviorReportsOne(src: Source, behaviors: seq<Behavior>, fates: nat -> Fate, attempts: seq<Attempt>,
                           a: Attempt)
    requires SourceOk(src) && |attempts| < |behaviors|
    requires BehaviorReports(src, behaviors[..|attempts|], fates, attempts)
    requires BehaviorReport(src, behaviors[|attempts|], fates(|attempts|), a)
    ensures BehaviorReports(src, behaviors[..|attempts| + 1], fates, attempts + [a])
  {
    var n := |attempts|;
    assert behaviors[..n + 1][..n] == behaviors[..n] && (attempts + [a])[..n] == attempts;
  }

  lemma {:induction false} BehaviorReportsEach(src: Source, behaviors: seq<Behavior>, fates: nat -> Fate,
                                               attempts: seq<Attempt>, k: nat)
    requires SourceOk(src) && BehaviorReports(src, behaviors, fates, attempts) && k < |behaviors|
    ensures BehaviorReport(src, behaviors[k], fates(k), attempts[k])
    decreases |behaviors|
  {
    var last := |behaviors| - 1;
    if k < last {
      BehaviorReportsEach(src, behaviors[..last], fates, attempts[..last], k);
      assert behaviors[..last][k] == behaviors[k] && attempts[..last][k] == attempts[k];
    }
  }

  function CountPublished(attempts: seq<Attempt>): nat {
    if attempts == [] then 0
    else
      CountPublished(attempts[..|attempts| - 1])
        + if attempts[|attempts| - 1].outcome.Published? then 1 else 0
  }

  lemma CountOne(attempts: seq<Attempt>, a: Attempt)
    ensures CountPublished(attempts + [a]) == CountPublished(attempts) + if a.outcome.Published? then 1 else 0
  {
    assert (attempts + [a])[..|attempts|] == attempts;
  }

  // Where the synchronisation stands after these behaviours: it started with the view v
  // of the directory d.
  ghost predicate Listed(x: SyncInput, behaviors: seq<Behavior>, attempts: seq<Attempt>, v: View, view: View,
                         d: Dir, dir: Dir, count: nat)
    requires InputOk(x) && InRange(d)
  {
    && BehaviorReports(x.src, behaviors, x.fates, attempts) && count == CountPublished(attempts)
    && view == Fold(v, attempts) && dir == TasksDir(d, x.src, BehaviorTasks(behaviors, x.fates))
  }

  lemma ListedOne(x: SyncInput, behaviors: seq<Behavior>, i: nat, attempts: seq<Attempt>, v: View, view: View,
                  d: Dir, dir: Dir, count: nat, a: Attempt)
    requires InputOk(x) && InRange(d) && InRange(dir) && i < |behaviors|
    requires Listed(x, behaviors[..i], attempts, v, view, d, dir, count)
    requires BehaviorReport(x.src, behaviors[i], x.fates(i), a)
    ensures
      var task := BehaviorTask(behaviors[i], x.fates(i));
      Listed(x, behaviors[..i + 1], attempts + [a], v, Apply(view, a),
             d, if Proper(task.dst) then TaskDir(dir, x.src, task) else dir,
             if a.outcome.Published? then count + 1 else count)
  {
    FoldOne(v, attempts, a);
    CountOne(attempts, a);
    BehaviorReportsOne(x.src, behaviors, x.fates, attempts, a);
    BehaviorTasksOne(d, x.src, behaviors, x.fates, i);
  }

  // The attempts of a pass over a directory that goes on after errors.
  predicate DirectoryReports(x: SyncInput, attempts: seq<Attempt>)
    requires InputOk(x)
  {
    if x.mkdir && x.readable then AllReport(x.src, FileTasks(x.entries, {}, x.fileFates), attempts)
    else attempts == []
  }

  // The attempts of one synchronisation.
  predicate SyncReports(x: SyncInput, attempts: seq<Attempt>)
    requires InputOk(x)
  {
    match x.fetch
    case FetchFailed => DirectoryReports(x, attempts)
    case Fetched(behaviors) =>
      if x.mkdir then BehaviorReports(x.src, behaviors, x.fates, attempts) else attempts == []
  }

  datatype Event =
    | Added(input: SyncInput)
    | Modified(input: SyncInput)
    // the polling loop that takes over when the watch cannot be set up
    | Tick(input: SyncInput)
    // kept: the names that the cleanup could not remove
    | Deleted(kept: set<Name>)
    | WatchError
    | Unknown

  // What an event did to the directory.
  datatype Effect = Synced(attempts: seq<Attempt>) | Cleared(kept: set<Name>) | Ignored

  predicate EventOk(e: Event) {
    e.Added? || e.Modified? || e.Tick? ==> InputOk(e.input)
  }

  predicate EffectOf(e: Event, f: Effect)
    requires EventOk(e)
  {
    match e
    case Added(x) => f.Synced? && SyncReports(x, f.attempts)
    case Modified(x) => f.Synced? && SyncReports(x, f.attempts)
    case Tick(x) => f.Synced? && SyncReports(x, f.attempts)
    case Deleted(kept) => f == Cleared(kept)
    case WatchError => f.Ignored?
    case Unknown => f.Ignored?
  }

  function Restrict(v: View, kept: set<Name>): View {
    map n | n in v && n in kept :: v[n]
  }

  function ApplyEffect(v: View, f: Effect): View {
    match f
    case Synced(attempts) => Fold(v, attempts)
    case Cleared(kept) => Restrict(v, kept)
    case Ignored => v
  }

  function Replay(v: View, effects: seq<Effect>): View {
    if effects == [] then v
    else ApplyEffect(Replay(v, effects[..|effects| - 1]), effects[|effects| - 1])
  }

  class SidecarManager {
    const shared: SharedDir
    var behaviors: seq<Behavior>

    constructor (shared: SharedDir)
      ensures this.shared == shared && behaviors == []
    {
      this.shared := shared;
      behaviors := [];
    }

    /**
     Publishes the script of one behaviour under its command name. A missing source, a
     failed call and a name that is no file name are errors that leave every published
     script as it was.
     */
    method SyncBehaviorScript(src: Source, b: Behavior, fate: Fate) returns (ok: bool, ghost attempt: Attempt)
      requires shared.Valid() && SourceOk(src)
      modifies shared
      ensures shared.Valid()
      ensures BehaviorReport(src, b, fate, attempt) && (ok <==> attempt.outcome.Published?)
      ensures ok <==> CommandName(b.targetPath) !in {"", ".", "..", "/"} && Succeeds(src, b.scriptPath, fate)
      ensures shared.View() == Apply(old(shared.View()), attempt)
      ensures shared.dir ==
        if Proper(CommandName(b.targetPath)) then TaskDir(old(shared.dir), src, BehaviorTask(b, fate))
        else old(shared.dir)
    {
      var targetCommand := CommandName(b.targetPath);
      attempt := Attempt(targetCommand, Contents(src, b.scriptPath), Untouched);
      if b.scriptPath !in src.names {
        return false, attempt;
      }
      if !Proper(targetCommand) {
        return false, attempt;
      }
      attempt := attempt.(outcome := OutcomeOf(shared.dir, src, b.scriptPath, targetCommand, fate));
      ok := AtomicCopy(shared, src, b.scriptPath, targetCommand, fate);
    }

    // The fallback: every file of the source directory, going on after errors.
    method SyncAllFromDirectory(x: SyncInput) returns (ok: bool, ghost attempts: seq<Attempt>)
      requires shared.Valid() && InputOk(x)
      modifies shared
      ensures shared.Valid()
      ensures ok <==> x.mkdir && x.readable
      ensures DirectoryReports(x, attempts)
      ensures shared.View() == Fold(old(shared.View()), attempts)
      ensures shared.dir == TasksDir(old(shared.dir), x.src, SyncTasks(x.(fetch := FetchFailed)))
    {
      attempts := [];
      if !x.mkdir || !x.readable {
        return false, attempts;
      }
      ghost var v, d := shared.View(), shared.dir;
      for i := 0 to |x.entries|
        invariant shared.Valid()
        invariant Made(x.src, FileTasks(x.entries[..i], {}, x.fileFates), attempts, v, shared.View(), d, shared.dir)
      {
        FileTasksStep(x.entries, {}, x.fileFates, i);
        if !x.entries[i].isDir {
          var n := x.entries[i].name;
          var fate := x.fileFates(n);
          ghost var view, dir := shared.View(), shared.dir;
          ghost var attempt := Attempt(n, Contents(x.src, n), OutcomeOf(shared.dir, x.src, n, n, fate));
          var copied := AtomicCopy(shared, x.src, n, n, fate);
          MadeOne(x.src, FileTasks(x.entries[..i], {}, x.fileFates), attempts, v, view, d, dir,
                  Task(n, n, fate), attempt);
          attempts := attempts + [attempt];
        }
      }
      assert x.entries[..|x.entries|] == x.entries;
      ok := true;
    }

    /**
     One synchronisation: the fetched behaviours in order, each on its own, failures
     skipped; the whole directory when the stub cannot be fetched. successCount is the
     number of behaviours whose script was published.
     */
    method SyncAllScripts(x: SyncInput) returns (ok: bool, successCount: nat, ghost attempts: seq<Attempt>)
      requires shared.Valid() && InputOk(x)
      modifies this, shared
      ensures shared.Valid()
      ensures ok <==> x.mkdir && (x.fetch.Fetched? || x.readable)
      ensures SyncReports(x, attempts)
      ensures shared.View() == Fold(old(shared.View()), attempts)
      ensures shared.dir == TasksDir(old(shared.dir), x.src, SyncTasks(x))
      ensures behaviors == if x.fetch.Fetched? then x.fetch.behaviors else old(behaviors)
      ensures x.fetch.Fetched? && x.mkdir ==>
        successCount
          == |set k: nat | k < |x.fetch.behaviors| && BehaviorSucceeds(x.src, x.fetch.behaviors[k], x.fates(k))|
    {
      successCount := 0;
      if x.fetch.FetchFailed? {
        ok, attempts := SyncAllFromDirectory(x);
        return;
      }
      behaviors := x.fetch.behaviors;
      attempts := [];
      if !x.mkdir {
        return false, 0, attempts;
      }
      ghost var v, d := shared.View(), shared.dir;
      for i := 0 to |behaviors|
        invariant shared.Valid() && behaviors == x.fetch.behaviors
        invariant Listed(x, behaviors[..i], attempts, v, shared.View(), d, shared.dir, successCount)
      {
        ghost var view, dir, count := shared.View(), shared.dir, successCount;
        var synced;
        ghost var attempt;
        synced, attempt := SyncBehaviorScript(x.src, behaviors[i], x.fates(i));
        ListedOne(x, behaviors, i, attempts, v, view, d, dir, count, attempt);
        attempts := attempts + [attempt];
        if synced {
          successCount := successCount + 1;
        }
      }
      assert behaviors[..|behaviors|] == behaviors;
      CountIsSuccesses(x.src, behaviors, x.fates, attempts);
      ok := true;
    }

    // os.RemoveAll on the shared directory.
    method CleanupScripts(kept: set<Name>)
      requires shared.Valid()
      modifies shared
      ensures shared.Valid() && shared.View() == Restrict(old(shared.View()), kept)
      ensures shared.View().Keys == old(shared.View()).Keys * kept
    {
      shared.dir := shared.dir.(names := map n | n in shared.dir.names && n in kept :: shared.dir.names[n]);
    }

    // One turn of the watch loop, or one tick of the polling loop.
    method HandleEvent(e: Event) returns (ghost effect: Effect)
      requires shared.Valid() && EventOk(e)
      modifies this, shared
      ensures shared.Valid()
      ensures EffectOf(e, effect) && shared.View() == ApplyEffect(old(shared.View()), effect)
    {
      effect := Ignored;
      match e
      case Added(x) =>
        var _, _, attempts := SyncAllScripts(x);
        effect := Synced(attempts);
      case Modified(x) =>
        var _, _, attempts := SyncAllScripts(x);
        effect := Synced(attempts);
      case Tick(x) =>
        var _, _, attempts := SyncAllScripts(x);
        effect := Synced(attempts);
      case Deleted(kept) =>
        CleanupScripts(kept);
        effect := Cleared(kept);
      case WatchError =>
      case Unknown =>
    }

    // The event loops, up to any point of their run.
    method Watch(events: seq<Event>) returns (ghost effects: seq<Effect>)
      requires shared.Valid() && forall e | e in events :: EventOk(e)
      modifies this, shared
      ensures shared.Valid()
      ensures |effects| == |events| && forall k | 0 <= k < |events| :: EffectOf(events[k], effects[k])
      ensures shared.View() == Replay(old(shared.View()), effects)
    {
      ghost var v := shared.View();
      effects := [];
      for i := 0 to |events|
        invariant shared.Valid()
        invariant |effects| == i && forall k | 0 <= k < i :: EffectOf(events[k], effects[k])
        invariant shared.View() == Replay(v, effects)
      {
        ghost var effect := HandleEvent(events[i]);
        assert (effects + [effect])[..i] == effects;
        effects := effects + [effect];
      }
    }
  }

  /******* What a synchronisation means *******/

  // The script of b reaches the shared directory.
  predicate BehaviorSucceeds(src: Source, b: Behavior, fate: Fate)
    requires SourceOk(src)
  {
    Proper(CommandName(b.targetPath)) && Succeeds(src, b.scriptPath, fate)
  }

  // The names of the behaviours that can be published.
  function Commands(behaviors: seq<Behavior>): set<Name> {
    set b | b in behaviors && Proper(CommandName(b.targetPath)) :: CommandName(b.targetPath)
  }

  // Behaviour i is the last listed for its command whose copy succeeds.
  predicate LastListed(src: Source, behaviors: seq<Behavior>, fates: nat -> Fate, i: nat)
    requires SourceOk(src)
  {
    && i < |behaviors| && BehaviorSucceeds(src, behaviors[i], fates(i))
    && forall j | i < j < |behaviors| && CommandName(behaviors[j].targetPath) == CommandName(behaviors[i].targetPath) ::
         !BehaviorSucceeds(src, behaviors[j], fates(j))
  }

  lemma ReportsTo(src: Source, behaviors: seq<Behavior>, fates: nat -> Fate, attempts: seq<Attempt>)
    requires SourceOk(src) && BehaviorReports(src, behaviors, fates, attempts)
    ensures AttemptsTo(Commands(behaviors), attempts)
  {
    forall a | a in attempts && !a.outcome.Untouched?
      ensures a.dst in Commands(behaviors)
    {
      var k :| 0 <= k < |attempts| && attempts[k] == a;
      BehaviorReportsEach(src, behaviors, fates, attempts, k);
      assert behaviors[k] in behaviors;
    }
  }

  lemma ReportSucceeds(src: Source, behaviors: seq<Behavior>, fates: nat -> Fate, attempts: seq<Attempt>, k: nat)
    requires SourceOk(src) && BehaviorReports(src, behaviors, fates, attempts) && k < |behaviors|
    ensures attempts[k].dst == CommandName(behaviors[k].targetPath)
    ensures attempts[k].data == Contents(src, behaviors[k].scriptPath)
    ensures attempts[k].outcome.Published? <==> BehaviorSucceeds(src, behaviors[k], fates(k))
  {
    BehaviorReportsEach(src, behaviors, fates, attempts, k);
  }

  /**
   A behaviour-list synchronisation is a last-success-wins override: each command holds,
   with mode 0755, the source of the last listed behaviour for it whose copy succeeds,
   and a name with no such behaviour keeps what it had; temporary names aside.
   */
  lemma CommandHoldsLastListed(v: View, src: Source, behaviors: seq<Behavior>, fates: nat -> Fate,
                               attempts: seq<Attempt>, i: nat)
    requires SourceOk(src) && BehaviorReports(src, behaviors, fates, attempts)
    requires NoClash(Commands(behaviors)) && LastListed(src, behaviors, fates, i)
    ensures
      var cmd, after := CommandName(behaviors[i].targetPath), Fold(v, attempts);
      cmd in after && after[cmd] == Script(Contents(src, behaviors[i].scriptPath))
  {
    var cmd, dsts := CommandName(behaviors[i].targetPath), Commands(behaviors);
    forall k | 0 <= k < |attempts|
      ensures attempts[k].outcome.Published? <==> BehaviorSucceeds(src, behaviors[k], fates(k))
      ensures attempts[k].dst == CommandName(behaviors[k].targetPath)
      ensures attempts[k].data == Contents(src, behaviors[k].scriptPath)
    {
      ReportSucceeds(src, behaviors, fates, attempts, k);
    }
    assert LastSuccess(attempts, cmd, i);
    OverrideHoldsLastSuccess(attempts, cmd, i);
    ReportsTo(src, behaviors, fates, attempts);
    FoldIsOverride(dsts, v, attempts);
    assert behaviors[i] in behaviors && cmd in dsts && cmd !in TempsOf(dsts);
    assert cmd in Fold(v, attempts) - TempsOf(dsts);
  }

  lemma UnpublishedNameKept(v: View, src: Source, behaviors: seq<Behavior>, fates: nat -> Fate,
                            attempts: seq<Attempt>, n: Name)
    requires SourceOk(src) && BehaviorReports(src, behaviors, fates, attempts)
    requires NoClash(Commands(behaviors)) && n !in TempsOf(Commands(behaviors))
    requires forall k | 0 <= k < |behaviors| && CommandName(behaviors[k].targetPath) == n ::
      !BehaviorSucceeds(src, behaviors[k], fates(k))
    ensures n in Fold(v, attempts) <==> n in v
    ensures n in v ==> Fold(v, attempts)[n] == v[n]
  {
    var temps := TempsOf(Commands(behaviors));
    ReportsTo(src, behaviors, fates, attempts);
    FoldIsOverride(Commands(behaviors), v, attempts);
    if n in Override(attempts) {
      OverrideNeedsSuccess(attempts, n);
      var k :| 0 <= k < |attempts| && attempts[k].dst == n && attempts[k].outcome.Published?;
      ReportSucceeds(src, behaviors, fates, attempts, k);
      assert false;
    }
    assert n in Fold(v, attempts) <==> n in Fold(v, attempts) - temps;
    assert n in v <==> n in v - temps;
  }

  // The behaviours whose copy succeeds.
  ghost function Succeeding(src: Source, behaviors: seq<Behavior>, fates: nat -> Fate): set<nat>
    requires SourceOk(src)
  {
    set k: nat | k < |behaviors| && BehaviorSucceeds(src, behaviors[k], fates(k))
  }

  lemma SucceedingOne(src: Source, behaviors: seq<Behavior>, fates: nat -> Fate)
    requires SourceOk(src) && behaviors != []
    ensures
      var last := |behaviors| - 1;
      var before := Succeeding(src, behaviors[..last], fates);
      Succeeding(src, behaviors, fates)
        == if BehaviorSucceeds(src, behaviors[last], fates(last)) then before + {last} else before
  {
    var last := |behaviors| - 1;
    forall k: nat | k < last
      ensures behaviors[..last][k] == behaviors[k]
    {
    }
  }

  // The success count is the number of behaviours whose copy succeeds.
  lemma {:induction false} CountIsSuccesses(src: Source, behaviors: seq<Behavior>, fates: nat -> Fate,
                                            attempts: seq<Attempt>)
    requires SourceOk(src) && BehaviorReports(src, behaviors, fates, attempts)
    ensures CountPublished(attempts) == |Succeeding(src, behaviors, fates)|
    decreases |behaviors|
  {
    if behaviors != [] {
      var last := |behaviors| - 1;
      CountIsSuccesses(src, behaviors[..last], fates, attempts[..last]);
      ReportSucceeds(src, behaviors, fates, attempts, last);
      SucceedingOne(src, behaviors, fates);
    }
  }

  // Targets whose base names have no dot never clash.
  lemma DotFreeNeverClashes(behaviors: seq<Behavior>)
    requires forall b | b in behaviors :: '.' !in Base(b.targetPath)
    ensures NoClash(Commands(behaviors))
  {
    forall n, b | n in Commands(behaviors) && b in behaviors
      ensures CommandName(b.targetPath) != Tmp(n)
    {
      assert Tmp(n)[|n|] == '.' && '.' in Tmp(n);
      CommandNameAgrees(b.targetPath);
    }
  }

  /******* What a sequence of events means *******/

  // The names an event can publish.
  function EventNames(e: Event): set<Name>
    requires EventOk(e)
  {
    if e.Added? || e.Modified? || e.Tick? then
      match e.input.fetch
      case Fetched(behaviors) => Commands(behaviors)
      case FetchFailed => set f | f in e.input.entries && !f.isDir :: f.name
    else {}
  }

  // The attempts of every synchronisation since the last deletion, in order.
  function AttemptsSince(effects: seq<Effect>): seq<Attempt> {
    if effects == [] then []
    else
      var before := AttemptsSince(effects[..|effects| - 1]);
      match effects[|effects| - 1]
      case Synced(attempts) => before + attempts
      case Cleared(_) => []
      case Ignored => before
  }

  predicate WasCleared(effects: seq<Effect>) {
    exists k :: 0 <= k < |effects| && effects[k].Cleared?
  }

  predicate CleanupsSucceed(effects: seq<Effect>) {
    forall k | 0 <= k < |effects| && effects[k].Cleared? :: effects[k].kept == {}
  }

  lemma {:induction false} FoldAppend(v: View, a: seq<Attempt>, b: seq<Attempt>)
    ensures Fold(v, a + b) == Fold(Fold(v, a), b)
    decreases |b|
  {
    if b == [] {
      assert a + b == a;
    } else {
      var last := |b| - 1;
      FoldAppend(v, a, b[..last]);
      FoldOne(v, a + b[..last], b[last]);
      assert a + b == (a + b[..last]) + [b[last]];
    }
  }

  // Replaying events is one fold over the attempts since the last deletion.
  lemma {:induction false} ReplayIsFold(v: View, effects: seq<Effect>)
    requires CleanupsSucceed(effects)
    ensures Replay(v, effects) == Fold(if WasCleared(effects) then map[] else v, AttemptsSince(effects))
    decreases |effects|
  {
    if effects != [] {
      var init, f := effects[..|effects| - 1], effects[|effects| - 1];
      assert effects == init + [f];
      ReplayIsFold(v, init);
      assert WasCleared(init) ==> WasCleared(effects);
      match f
      case Synced(attempts) =>
        FoldAppend(if WasCleared(init) then map[] else v, AttemptsSince(init), attempts);
      case Cleared(_) =>
        assert Restrict(Replay(v, init), {}) == map[];
      case Ignored =>
    }
  }

  lemma DirectoryAttemptsTo(x: SyncInput, attempts: seq<Attempt>)
    requires InputOk(x) && DirectoryReports(x, attempts)
    ensures AttemptsTo(set f | f in x.entries && !f.isDir :: f.name, attempts)
  {
    forall a | a in attempts
      ensures Entry(a.dst, false) in x.entries
    {
      var k :| 0 <= k < |attempts| && attempts[k] == a;
      var tasks := FileTasks(x.entries, {}, x.fileFates);
      FileTasksSorted(x.entries, {}, x.fileFates);
      ReportsEach(x.src, tasks, attempts, k);
      assert tasks[k] in tasks;
    }
  }

  lemma EffectAttemptsTo(dsts: set<Name>, e: Event, f: Effect)
    requires EventOk(e) && EffectOf(e, f) && EventNames(e) <= dsts && f.Synced?
    ensures AttemptsTo(dsts, f.attempts)
  {
    var x := e.input;
    match x.fetch
    case FetchFailed => DirectoryAttemptsTo(x, f.attempts);
    case Fetched(behaviors) =>
      if x.mkdir {
        ReportsTo(x.src, behaviors, x.fates, f.attempts);
      }
  }

  lemma {:induction false} AttemptsSinceTo(dsts: set<Name>, events: seq<Event>, effects: seq<Effect>)
    requires |effects| == |events|
    requires forall k | 0 <= k < |events| ::
      EventOk(events[k]) && EffectOf(events[k], effects[k]) && EventNames(events[k]) <= dsts
    ensures AttemptsTo(dsts, AttemptsSince(effects))
    decreases |events|
  {
    if events != [] {
      var last := |events| - 1;
      AttemptsSinceTo(dsts, events[..last], effects[..last]);
      if effects[last].Synced? {
        EffectAttemptsTo(dsts, events[last], effects[last]);
      }
    }
  }

  /**
   Event traces. After any sequence of watch events with successful cleanups and no
   clash among the names they publish, the shared directory, temporary names aside, is
   the override of everything synchronised since the last deletion, on top of nothing
   after a deletion and of the initial directory otherwise.
   */
  lemma TraceIsOverride(dsts: set<Name>, v: View, events: seq<Event>, effects: seq<Effect>)
    requires NoClash(dsts) && |effects| == |events| && CleanupsSucceed(effects)
    requires forall k | 0 <= k < |events| ::
      EventOk(events[k]) && EffectOf(events[k], effects[k]) && EventNames(events[k]) <= dsts
    ensures
      var start: View := if WasCleared(effects) then map[] else v;
      Replay(v, effects) - TempsOf(dsts) == (start - TempsOf(dsts)) + Override(AttemptsSince(effects))
  {
    ReplayIsFold(v, effects);
    AttemptsSinceTo(dsts, events, effects);
    FoldIsOverride(dsts, if WasCleared(effects) then map[] else v, AttemptsSince(effects));
  }

  // Right after a deletion the directory is empty, and once one has happened every
  // name that is not temporary was published by a later synchronisation.
  lemma NothingOutlivesDeletion(dsts: set<Name>, v: View, events: seq<Event>, effects: seq<Effect>, n: Name)
    requires NoClash(dsts) && |effects| == |events| && CleanupsSucceed(effects) && WasCleared(effects)
    requires forall k | 0 <= k < |events| ::
      EventOk(events[k]) && EffectOf(events[k], effects[k]) && EventNames(events[k]) <= dsts
    ensures effects[|effects| - 1].Cleared? ==> Replay(v, effects) == map[]
    ensures n in Replay(v, effects) && n !in TempsOf(dsts) ==> Succeeded(AttemptsSince(effects), n)
  {
    ReplayIsFold(v, effects);
    TraceIsOverride(dsts, v, events, effects);
    if n in Replay(v, effects) && n !in TempsOf(dsts) {
      assert n in Replay(v, effects) - TempsOf(dsts);
      OverrideNeedsSuccess(AttemptsSince(effects), n);
    }
  }
}
