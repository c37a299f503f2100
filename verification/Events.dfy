/**
 From events to the shared directory: which script each watch event and each polling tick
 publishes under which name, and what a whole trace of them leaves there.
 */
module Events {
  import opened Fs
  import opened Publish
  import opened Attempts
  import opened Copier
  import opened CommandNames
  import opened Sidecar

  /**
   The event publishes data under n: it makes the sidecar synchronise, and data is the
   source of the last behaviour for n whose copy succeeds, or, when the stub cannot be
   fetched, of the file n whose copy succeeds.
   */
  ghost predicate Publishes(e: Event, n: Name, data: Bytes)
    requires EventOk(e)
  {
    && (e.Added? || e.Modified? || e.Tick?) && e.input.mkdir
    && var x := e.input;
    match x.fetch
    case Fetched(behaviors) =>
      exists i: nat ::
        && LastListed(x.src, behaviors, x.fates, i)
        && CommandName(behaviors[i].targetPath) == n && Contents(x.src, behaviors[i].scriptPath) == data
    case FetchFailed =>
      x.readable && Entry(n, false) in x.entries && Succeeds(x.src, n, x.fileFates(n)) && Contents(x.src, n) == data
  }

  /******* One event *******/

  /**
   An event that makes the sidecar synchronise, with the stub fetched: each command holds
   the script of the last listed behaviour for it whose copy succeeds.
   */
  lemma SyncEventPublishes(v: View, e: Event, f: Effect, i: nat)
    requires EventOk(e) && EffectOf(e, f) && (e.Added? || e.Modified? || e.Tick?)
    requires e.input.mkdir && e.input.fetch.Fetched? && NoClash(Commands(e.input.fetch.behaviors))
    requires LastListed(e.input.src, e.input.fetch.behaviors, e.input.fates, i)
    ensures
      var b, after := e.input.fetch.behaviors[i], ApplyEffect(v, f);
      && CommandName(b.targetPath) in after
      && after[CommandName(b.targetPath)] == Script(Contents(e.input.src, b.scriptPath))
  {
    CommandHoldsLastListed(v, e.input.src, e.input.fetch.behaviors, e.input.fates, f.attempts, i);
  }

  // With the stub not fetched, each file whose copy succeeds is there under its own name,
  // whatever the names.
  lemma FallbackPublishes(v: View, e: Event, f: Effect, n: Name)
    requires EventOk(e) && EffectOf(e, f) && (e.Added? || e.Modified? || e.Tick?)
    requires e.input.mkdir && e.input.fetch.FetchFailed? && e.input.readable
    requires Entry(n, false) in e.input.entries && Succeeds(e.input.src, n, e.input.fileFates(n))
    ensures
      var after := ApplyEffect(v, f);
      n in after && after[n] == Script(Contents(e.input.src, n))
  {
    var x := e.input;
    var tasks := FileTasks(x.entries, {}, x.fileFates);
    FileTasksSorted(x.entries, {}, x.fileFates);
    FileTasksAreFiles(x.entries, {}, x.fileFates, Entry(n, false));
    var k :| 0 <= k < |tasks| && tasks[k] == Task(n, n, x.fileFates(n));
    forall j | 0 <= j < |tasks|
      ensures Reports(x.src, tasks[j], f.attempts[j])
    {
      ReportsEach(x.src, tasks, f.attempts, j);
    }
    SortedSuccessSurvives(v, f.attempts, k);
  }

  // The other events: a deletion leaves what cannot be removed, an error or an unknown
  // event changes nothing, and neither does a synchronisation without its directory.
  lemma OtherEvents(v: View, e: Event, f: Effect)
    requires EventOk(e) && EffectOf(e, f)
    ensures e.Deleted? ==>
      && ApplyEffect(v, f).Keys == v.Keys * e.kept
      && forall n | n in ApplyEffect(v, f) :: ApplyEffect(v, f)[n] == v[n]
    ensures e.WatchError? || e.Unknown? ==> ApplyEffect(v, f) == v
    ensures (e.Added? || e.Modified? || e.Tick?) && !e.input.mkdir ==> ApplyEffect(v, f) == v
  {
  }

  lemma EventPublishes(v: View, e: Event, f: Effect, n: Name, data: Bytes)
    requires EventOk(e) && EffectOf(e, f) && NoClash(EventNames(e)) && Publishes(e, n, data)
    ensures n in ApplyEffect(v, f) && ApplyEffect(v, f)[n] == Script(data)
  {
    var x := e.input;
    match x.fetch
    case Fetched(behaviors) =>
      var i: nat :| LastListed(x.src, behaviors, x.fates, i) && CommandName(behaviors[i].targetPath) == n
                 && Contents(x.src, behaviors[i].scriptPath) == data;
      SyncEventPublishes(v, e, f, i);
    case FetchFailed => FallbackPublishes(v, e, f, n);
  }

  lemma PublishesItsNames(e: Event, n: Name, data: Bytes)
    requires EventOk(e) && Publishes(e, n, data)
    ensures n in EventNames(e)
  {
    var x := e.input;
    match x.fetch
    case Fetched(behaviors) =>
      var i: nat :| LastListed(x.src, behaviors, x.fates, i) && CommandName(behaviors[i].targetPath) == n
                 && Contents(x.src, behaviors[i].scriptPath) == data;
      assert behaviors[i] in behaviors;
    case FetchFailed =>
  }

  // A name that an event publishes nothing under keeps what it had, temporary names aside.
  lemma EventKeeps(dsts: set<Name>, v: View, e: Event, f: Effect, n: Name)
    requires EventOk(e) && EffectOf(e, f) && NoClash(dsts) && EventNames(e) <= dsts && !e.Deleted?
    requires n !in TempsOf(dsts) && forall data :: !Publishes(e, n, data)
    ensures n in ApplyEffect(v, f) <==> n in v
    ensures n in v ==> ApplyEffect(v, f)[n] == v[n]
  {
    if f.Synced? {
      EffectAttemptsTo(dsts, e, f);
      FoldIsOverride(dsts, v, f.attempts);
      assert n in Fold(v, f.attempts) <==> n in Fold(v, f.attempts) - TempsOf(dsts);
      if n in Override(f.attempts) {
        OverridesPublish(e, f, n);
        assert false;
      }
    }
  }

  lemma OverridesPublish(e: Event, f: Effect, n: Name)
    requires EventOk(e) && EffectOf(e, f) && f.Synced? && n in Override(f.attempts)
    ensures exists data :: Publishes(e, n, data)
  {
    var x := e.input;
    OverrideNeedsSuccess(f.attempts, n);
    LastSuccessExists(f.attempts, n);
    var i: nat :| LastSuccess(f.attempts, n, i);
    match x.fetch
    case Fetched(behaviors) =>
      forall k: nat | k < |f.attempts|
        ensures f.attempts[k].outcome.Published? <==> BehaviorSucceeds(x.src, behaviors[k], x.fates(k))
        ensures f.attempts[k].dst == CommandName(behaviors[k].targetPath)
      {
        ReportSucceeds(x.src, behaviors, x.fates, f.attempts, k);
      }
      assert LastListed(x.src, behaviors, x.fates, i);
      assert Publishes(e, n, Contents(x.src, behaviors[i].scriptPath));
    case FetchFailed =>
      var tasks := FileTasks(x.entries, {}, x.fileFates);
      FileTasksSorted(x.entries, {}, x.fileFates);
      ReportsEach(x.src, tasks, f.attempts, i);
      assert tasks[i] in tasks;
      assert Publishes(e, n, Contents(x.src, n));
  }

  /******* Traces *******/

  // The trace's events and their effects fit, and their names do not clash.
  predicate TraceOk(dsts: set<Name>, events: seq<Event>, effects: seq<Effect>) {
    && NoClash(dsts) && |effects| == |events|
    && forall k | 0 <= k < |events| ::
         EventOk(events[k]) && EffectOf(events[k], effects[k]) && EventNames(events[k]) <= dsts
  }

  // Event k is the last that publishes anything under n, and no deletion comes after it.
  ghost predicate LastToPublish(events: seq<Event>, n: Name, k: nat)
    requires forall m | 0 <= m < |events| :: EventOk(events[m])
  {
    && k < |events|
    && forall m | k < m < |events| :: !events[m].Deleted? && forall data :: !Publishes(events[m], n, data)
  }

  /**
   A trace leaves under each name the script that the last event to publish one published,
   if no deletion came after it.
   */
  lemma {:induction false} TraceHoldsLast(dsts: set<Name>, v: View, events: seq<Event>, effects: seq<Effect>,
                                          n: Name, k: nat, data: Bytes)
    requires TraceOk(dsts, events, effects)
    requires LastToPublish(events, n, k) && Publishes(events[k], n, data)
    ensures n in Replay(v, effects) && Replay(v, effects)[n] == Script(data)
    decreases |events|
  {
    var last := |events| - 1;
    var before := Replay(v, effects[..last]);
    if k == last {
      assert NoClash(EventNames(events[last]));
      EventPublishes(before, events[last], effects[last], n, data);
    } else {
      TraceHoldsLast(dsts, v, events[..last], effects[..last], n, k, data);
      PublishesItsNames(events[k], n, data);
      assert n in dsts && n !in TempsOf(dsts);
      EventKeeps(dsts, before, events[last], effects[last], n);
    }
  }

  /**
   A name under which nothing was published since the last deletion is not there after it,
   and keeps what it had when there was none.
   */
  lemma {:induction false} TraceKeeps(dsts: set<Name>, v: View, events: seq<Event>, effects: seq<Effect>, n: Name,
                                      k: nat)
    requires TraceOk(dsts, events, effects) && n !in TempsOf(dsts) && k <= |events|
    requires k > 0 ==> events[k - 1].Deleted? && n !in events[k - 1].kept
    requires forall m | k <= m < |events| :: !events[m].Deleted? && forall data :: !Publishes(events[m], n, data)
    ensures k > 0 ==> n !in Replay(v, effects)
    ensures k == 0 ==> (n in Replay(v, effects) <==> n in v) && (n in v ==> Replay(v, effects)[n] == v[n])
    decreases |events|
  {
    if events != [] {
      var last := |events| - 1;
      if k < |events| {
        TraceKeeps(dsts, v, events[..last], effects[..last], n, k);
        EventKeeps(dsts, Replay(v, effects[..last]), events[last], effects[last], n);
      }
    }
  }
}
