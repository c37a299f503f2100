/**
 The controller: counts a stub's pods, derives the phase, and writes the status under
 optimistic concurrency.
 */
module Controller {
  import opened Options
  import opened Pods
  import opened Sequences
  import opened Status

  // The API server's object: content stands for all that is not status.
  datatype Version = Version(content: string, generation: int, status: StubStatus)

  datatype Error = NotFound | Conflict | OtherError | Exhausted | InvalidSelector
  datatype Outcome = Nil | Err(error: Error)

  datatype ReadResult = ReadFails(error: Error) | ReadsVersion(version: nat)

  // One turn of the retry loop: what others commit before the read, what the read
  // returns (any past version; the newest when the number is beyond it), what others
  // commit between the read and the update, and an error of the update other than the
  // version check.
  datatype Turn = Turn(
    before: seq<Version>, read: ReadResult, between: seq<Version>, writeError: Outcome, now: Time)

  // The versions of one object, oldest first; its resource version is the position.
  class Store {
    var log: seq<Version>

    // The optimistic commit of a status: accepted only against the newest version, of
    // which it replaces the status alone.
    method UpdateStatus(bs: StubObject, failure: Outcome) returns (r: Outcome)
      requires log != []
      modifies this
      ensures r == if failure.Err? then failure
                   else if bs.resourceVersion == |old(log)| - 1 then Nil
                   else Err(Conflict)
      ensures log == if r.Nil? then old(log) + [Last(old(log)).(status := bs.status)] else old(log)
    {
      if failure.Err? {
        return failure;
      }
      if bs.resourceVersion != |log| - 1 {
        return Err(Conflict);
      }
      log := log + [log[|log| - 1].(status := bs.status)];
      return Nil;
    }
  }

  function Last(log: seq<Version>): Version
    requires log != []
  {
    log[|log| - 1]
  }

  // A stub as read into memory.
  class StubObject {
    var resourceVersion: nat
    var content: string
    var generation: int
    var status: StubStatus

    constructor (resourceVersion: nat, v: Version)
      ensures this.resourceVersion == resourceVersion && Value() == v
    {
      this.resourceVersion := resourceVersion;
      content, generation, status := v.content, v.generation, v.status;
    }

    function Value(): Version
      reads this
    {
      Version(content, generation, status)
    }
  }

  // Rewrites the status of the object in memory and submits it.
  method UpdateStatus(store: Store, bs: StubObject, u: Update, failure: Outcome) returns (r: Outcome)
    requires store.log != []
    modifies bs, store
    ensures bs.Value() == old(bs.Value()).(status := Updated(old(bs.status), old(bs.generation), u))
    ensures bs.resourceVersion == old(bs.resourceVersion)
    ensures r == if failure.Err? then failure
                 else if bs.resourceVersion == |old(store.log)| - 1 then Nil
                 else Err(Conflict)
    ensures store.log ==
      if r.Nil? then old(store.log) + [Last(old(store.log)).(status := bs.status)] else old(store.log)
  {
    bs.status := bs.status.(phase := u.phase, injectedPods := u.injectedPods, totalPods := u.totalPods);
    bs.status := bs.status.(lastUpdateTime := At(u.now));
    var conditions := UpsertInPlace(bs.status.conditions, ReadyCondition(u, bs.generation));
    bs.status := bs.status.(conditions := conditions);
    r := store.UpdateStatus(bs, failure);
  }

  /******* The retry loop *******/

  // The position that a read of version v returns.
  function Position(log: seq<Version>, v: nat): nat
    requires log != []
  {
    if v < |log| then v else |log| - 1
  }

  // Everything other writers commit in a turn that gets as far as its update.
  function OtherWrites(t: Turn): seq<Version> {
    t.before + t.between
  }

  // Nobody committed between the version that was read and the update.
  predicate ReadsNewest(log: seq<Version>, t: Turn)
    requires log != []
  {
    t.read.ReadsVersion? && t.between == [] && Position(log + t.before, t.read.version) == |log + t.before| - 1
  }

  predicate TurnCommits(log: seq<Version>, t: Turn)
    requires log != []
  {
    ReadsNewest(log, t) && t.writeError.Nil?
  }

  predicate TurnConflicts(log: seq<Version>, t: Turn)
    requires log != []
  {
    t.read.ReadsVersion? && (t.writeError == Err(Conflict) || (t.writeError.Nil? && !ReadsNewest(log, t)))
  }

  // The store after turns that all conflicted.
  function LogAfter(log: seq<Version>, turns: seq<Turn>): seq<Version> {
    if turns == [] then log
    else LogAfter(log, turns[..|turns| - 1]) + OtherWrites(turns[|turns| - 1])
  }

  lemma {:induction false} LogAfterGrows(log: seq<Version>, turns: seq<Turn>)
    ensures log <= LogAfter(log, turns)
    decreases |turns|
  {
    if turns != [] {
      LogAfterGrows(log, turns[..|turns| - 1]);
    }
  }

  predicate AllConflict(log: seq<Version>, turns: seq<Turn>)
    requires log != []
    decreases |turns|
  {
    turns != [] ==>
      var init := turns[..|turns| - 1];
      LogAfterGrows(log, init);
      AllConflict(log, init) && TurnConflicts(LogAfter(log, init), turns[|turns| - 1])
  }

  // The version that a committed update adds.
  function Committed(log: seq<Version>, u: Update): Version
    requires log != []
  {
    Last(log).(status := Updated(Last(log).status, Last(log).generation, u))
  }

  // How a turn that does not conflict ends the loop.
  predicate EndsWith(log: seq<Version>, t: Turn, u: Update, r: Outcome, after: seq<Version>)
    requires log != []
  {
    if t.read.ReadFails? then r == Err(t.read.error) && after == log + t.before
    else if TurnCommits(log, t) then
      r == Nil && after == log + OtherWrites(t) + [Committed(log + OtherWrites(t), u)]
    else r == t.writeError && r.Err? && after == log + OtherWrites(t)
  }

  // The retry loop after n turns: it ended at its first turn without a conflict, or
  // gave up after three conflicts.
  predicate Retried(log: seq<Version>, turns: seq<Turn>, u: Update, n: nat, r: Outcome, after: seq<Version>)
    requires log != [] && |turns| == 3
  {
    && 1 <= n <= 3
    && if AllConflict(log, turns) then n == 3 && r == Err(Exhausted) && after == LogAfter(log, turns)
       else
         LogAfterGrows(log, turns[..n - 1]);
         var reached := LogAfter(log, turns[..n - 1]);
         && AllConflict(log, turns[..n - 1]) && !TurnConflicts(reached, turns[n - 1])
         && EndsWith(reached, turns[n - 1], u.(now := turns[n - 1].now), r, after)
  }

  // One turn: read a fresh copy, rewrite its status, submit it. retry: the update met
  // a conflict.
  method TryUpdate(store: Store, u: Update, t: Turn) returns (r: Outcome, retry: bool)
    requires store.log != []
    modifies store
    ensures retry <==> TurnConflicts(old(store.log), t)
    ensures retry <==>
      && t.read.ReadsVersion?
      && (|| t.writeError == Err(Conflict)
          || (t.writeError == Nil
              && (t.between != [] || t.read.version + 1 < |old(store.log)| + |t.before|)))
    ensures retry ==> store.log == old(store.log) + OtherWrites(t)
    ensures !retry ==> EndsWith(old(store.log), t, u.(now := t.now), r, store.log)
  {
    ghost var log := store.log;
    store.log := store.log + t.before;
    if t.read.ReadFails? {
      return Err(t.read.error), false;
    }
    var i := Position(store.log, t.read.version);
    var bs := new StubObject(i, store.log[i]);
    store.log := store.log + t.between;
    AppendTwice(log, t.before, t.between);
    r := UpdateStatus(store, bs, u.(now := t.now), t.writeError);
    retry := r == Err(Conflict);
  }

  /**
   Tries up to three times to commit the update. turns is what other writers, the cache
   behind the reads and the API server do meanwhile.
   */
  method UpdateStatusWithRetry(store: Store, u: Update, turns: seq<Turn>) returns (r: Outcome, attempts: nat)
    requires store.log != [] && |turns| == 3
    modifies store
    ensures Retried(old(store.log), turns, u, attempts, r, store.log)
  {
    ghost var log := store.log;
    for i := 0 to 3
      invariant store.log != []
      invariant store.log == LogAfter(log, turns[..i]) && AllConflict(log, turns[..i])
    {
      var retry;
      r, retry := TryUpdate(store, u, turns[i]);
      assert turns[..i + 1][..i] == turns[..i];
      if !retry {
        FirstStop(log, turns, i);
        LogAfterGrows(log, turns[..i]);
        return r, i + 1;
      }
    }
    assert turns[..3] == turns;
    return Err(Exhausted), 3;
  }

  // A turn without a conflict means that not all turns conflict.
  lemma {:induction false} FirstStop(log: seq<Version>, turns: seq<Turn>, i: nat)
    requires log != [] && i < |turns|
    requires LogAfter(log, turns[..i]) != [] && !TurnConflicts(LogAfter(log, turns[..i]), turns[i])
    ensures !AllConflict(log, turns)
    decreases |turns|
  {
    var init := turns[..|turns| - 1];
    if i < |init| {
      assert init[..i] == turns[..i];
      FirstStop(log, init, i);
    }
  }

  /******* What the retry loop guarantees *******/

  // What other writers committed while n turns ran.
  function OthersDuring(turns: seq<Turn>, n: nat): seq<Version>
    requires n <= |turns|
  {
    if n == 0 then []
    else
      var t := turns[n - 1];
      OthersDuring(turns, n - 1) + if t.read.ReadFails? then t.before else OtherWrites(t)
  }

  lemma {:induction false} LogAfterIsOthers(log: seq<Version>, turns: seq<Turn>, n: nat)
    requires log != [] && n <= |turns| && AllConflict(log, turns[..n])
    ensures LogAfter(log, turns[..n]) == log + OthersDuring(turns, n)
    decreases n
  {
    if n > 0 {
      assert turns[..n][..n - 1] == turns[..n - 1];
      LogAfterIsOthers(log, turns, n - 1);
      LogAfterGrows(log, turns[..n - 1]);
    }
  }

  lemma HistoryAfterEnd(log: seq<Version>, turns: seq<Turn>, u: Update, n: nat, r: Outcome, after: seq<Version>)
    requires log != [] && |turns| == 3 && Retried(log, turns, u, n, r, after) && !AllConflict(log, turns)
    ensures
      var others := log + OthersDuring(turns, n);
      after == if r.Nil? then others + [Committed(others, u.(now := turns[n - 1].now))] else others
  {
    var t, before := turns[n - 1], OthersDuring(turns, n - 1);
    LogAfterIsOthers(log, turns, n - 1);
    AppendTwice(log, before, if t.read.ReadFails? then t.before else OtherWrites(t));
  }

  // The history after the loop: one more version than others committed if it
  // succeeded, none otherwise.
  lemma HistoryAfterRetry(log: seq<Version>, turns: seq<Turn>, u: Update, n: nat, r: Outcome, after: seq<Version>)
    requires log != [] && |turns| == 3 && Retried(log, turns, u, n, r, after)
    ensures
      var others := log + OthersDuring(turns, n);
      after == if r.Nil? then others + [Committed(others, u.(now := turns[n - 1].now))] else others
  {
    if AllConflict(log, turns) {
      assert turns[..3] == turns;
      LogAfterIsOthers(log, turns, 3);
    } else {
      HistoryAfterEnd(log, turns, u, n, r, after);
    }
  }

  // after has c in the place of the first Ready condition of before, or at its end.
  predicate ReadyReplaced(before: seq<Condition>, after: seq<Condition>, c: Condition) {
    || (after == before + [c] && forall k | 0 <= k < |before| :: before[k].kind != "Ready")
    || (exists i :: 0 <= i < |before| && before[i].kind == "Ready" && after == before[i := c]
          && forall k | 0 <= k < i :: before[k].kind != "Ready")
  }

  lemma ReadyIsReplaced(before: seq<Condition>, c: Condition)
    requires c.kind == "Ready"
    ensures ReadyReplaced(before, Upsert(before, c), c)
  {
    var i := FirstIndex(before, "Ready");
    if i < |before| {
      assert FirstOfKind(before, "Ready", i);
    } else {
      assert !HasKind(before, "Ready");
    }
  }

  lemma CommittedStatus(log: seq<Version>, u: Update)
    requires log != []
    ensures
      var own, last := Committed(log, u), Last(log);
      && own == last.(status := own.status)
      && own.status == StubStatus(u.phase, u.injectedPods, u.totalPods, At(u.now), own.status.conditions)
      && NonReady(own.status.conditions) == NonReady(last.status.conditions)
      && HasKind(own.status.conditions, READY)
  {
    var ready := ReadyCondition(u, Last(log).generation);
    UpsertKeeps(Last(log).status.conditions, ready);
    UpsertHasKind(Last(log).status.conditions, ready);
  }

  /**
   No lost update. After at most three attempts, the object's history is its history
   before, then every version that others committed meanwhile, then one version more
   exactly when the result is nil. That version takes over everything of the version
   just before it, except for the phase, the counts, the time and the Ready condition.
   */
  lemma NoLostUpdate(log: seq<Version>, turns: seq<Turn>, u: Update, n: nat, r: Outcome, after: seq<Version>)
    requires log != [] && |turns| == 3 && Retried(log, turns, u, n, r, after)
    ensures
      var others := log + OthersDuring(turns, n);
      && 1 <= n <= 3
      && (r.Err? ==> after == others)
      && (r.Nil? ==>
            && after != [] && after[..|after| - 1] == others
            && var own, last := Last(after), Last(others);
            && own == last.(status := own.status)
            && own.status
               == StubStatus(u.phase, u.injectedPods, u.totalPods, At(turns[n - 1].now), own.status.conditions)
            && NonReady(own.status.conditions) == NonReady(last.status.conditions)
            && HasKind(own.status.conditions, READY)
            && ReadyReplaced(last.status.conditions, own.status.conditions,
                 Condition("Ready", u.phase.Running?, last.generation, turns[n - 1].now,
                   if u.phase.Running? then "Running" else if u.phase.Partial? then "Partial" else "Reconciling",
                   if u.phase.Running? then "All target pods have been injected"
                   else if u.phase.Partial? then "Some target pods have been injected"
                   else "BehaviorStub is being reconciled")))
  {
    HistoryAfterRetry(log, turns, u, n, r, after);
    var last := Last(log + OthersDuring(turns, n));
    ReadyIsReplaced(last.status.conditions, ReadyCondition(u.(now := turns[n - 1].now), last.generation));
    CommittedStatus(log + OthersDuring(turns, n), u.(now := turns[n - 1].now));
  }

  // A turn of a run of conflicts, without the words of the loop: a version was read, and
  // the update was answered with a conflict or came too late for the version read.
  lemma {:induction false} ConflictsExactly(log: seq<Version>, turns: seq<Turn>, k: nat)
    requires log != [] && k <= |turns|
    ensures
      AllConflict(log, turns[..k]) <==>
      forall j | 0 <= j < k ::
        && turns[j].read.ReadsVersion?
        && (|| turns[j].writeError == Err(Conflict)
            || (turns[j].writeError == Nil
                && (turns[j].between != []
                    || turns[j].read.version + 1 < |log| + |OthersDuring(turns, j)| + |turns[j].before|)))
    decreases k
  {
    if k > 0 {
      assert turns[..k][..k - 1] == turns[..k - 1] && turns[..k][k - 1] == turns[k - 1];
      ConflictsExactly(log, turns, k - 1);
      LogAfterGrows(log, turns[..k - 1]);
      if AllConflict(log, turns[..k - 1]) {
        LogAfterIsOthers(log, turns, k - 1);
      }
    }
  }

  // The loop ends in its first turn that is not one of conflict.
  lemma EndsAtFirst(log: seq<Version>, turns: seq<Turn>, u: Update, n: nat, r: Outcome, after: seq<Version>, k: nat)
    requires log != [] && |turns| == 3 && Retried(log, turns, u, n, r, after) && k < 3
    requires AllConflict(log, turns[..k]) && !AllConflict(log, turns[..k + 1])
    ensures n == k + 1 && !AllConflict(log, turns)
  {
    assert turns[..3] == turns;
    ConflictsBefore(log, turns, k + 1, 3);
    if k + 1 < n {
      ConflictsBefore(log, turns, k + 1, n - 1);
    } else if n <= k {
      ConflictsBefore(log, turns, n, k);
    }
  }

  lemma ConflictsBefore(log: seq<Version>, turns: seq<Turn>, i: nat, k: nat)
    requires log != [] && i <= k <= |turns|
    ensures AllConflict(log, turns[..k]) ==> AllConflict(log, turns[..i])
  {
    if AllConflict(log, turns[..k]) {
      AllConflictPrefix(log, turns[..k], i);
      assert turns[..k][..i] == turns[..i];
    }
  }

  lemma {:induction false} AllConflictPrefix(log: seq<Version>, turns: seq<Turn>, k: nat)
    requires log != [] && k <= |turns| && AllConflict(log, turns)
    ensures AllConflict(log, turns[..k])
    decreases |turns|
  {
    if k < |turns| {
      AllConflictPrefix(log, turns[..|turns| - 1], k);
      assert turns[..|turns| - 1][..k] == turns[..k];
    } else {
      assert turns[..k] == turns;
    }
  }

  /**
   Only a conflict is tried again: a failing read, or an answer to the update other than
   nil and conflict, in the first turn or after turns that all met a conflict, is the
   result, after that many attempts and without a commit.
   */
  lemma OtherErrorsEnd(log: seq<Version>, turns: seq<Turn>, u: Update, n: nat, r: Outcome, after: seq<Version>, k: nat)
    requires log != [] && |turns| == 3 && Retried(log, turns, u, n, r, after) && k < 3
    requires forall j | 0 <= j < k ::
      && turns[j].read.ReadsVersion?
      && (|| turns[j].writeError == Err(Conflict)
          || (turns[j].writeError == Nil
              && (turns[j].between != []
                  || turns[j].read.version + 1 < |log| + |OthersDuring(turns, j)| + |turns[j].before|)))
    requires turns[k].read.ReadFails? || (turns[k].writeError != Nil && turns[k].writeError != Err(Conflict))
    ensures n == k + 1 && after == log + OthersDuring(turns, n)
    ensures r == if turns[k].read.ReadFails? then Err(turns[k].read.error) else turns[k].writeError
  {
    ConflictsExactly(log, turns, k);
    ConflictsExactly(log, turns, k + 1);
    EndsAtFirst(log, turns, u, n, r, after, k);
    HistoryAfterRetry(log, turns, u, n, r, after);
  }

  /**
   A commit takes a turn in which nothing failed and nobody committed after the version
   that was read, and the first such turn, if only conflicts come before it, commits.
   */
  lemma CommitsExactly(log: seq<Version>, turns: seq<Turn>, u: Update, n: nat, r: Outcome, after: seq<Version>)
    requires log != [] && |turns| == 3 && Retried(log, turns, u, n, r, after)
    ensures
      r == Nil <==>
        && turns[n - 1].read.ReadsVersion? && turns[n - 1].writeError == Nil && turns[n - 1].between == []
        && turns[n - 1].read.version + 1 >= |log| + |OthersDuring(turns, n - 1)| + |turns[n - 1].before|
    ensures forall j | 0 <= j < n - 1 ::
      && turns[j].read.ReadsVersion?
      && (|| turns[j].writeError == Err(Conflict)
          || (turns[j].writeError == Nil
              && (turns[j].between != []
                  || turns[j].read.version + 1 < |log| + |OthersDuring(turns, j)| + |turns[j].before|)))
  {
    assert turns[..3] == turns;
    if AllConflict(log, turns) {
      AllConflictPrefix(log, turns, n - 1);
      ConflictsExactly(log, turns, 3);
    } else {
      LogAfterIsOthers(log, turns, n - 1);
    }
    ConflictsExactly(log, turns, n - 1);
  }

  /**
   The loop gives up exactly when in each of the three turns a version was read and the
   update met a conflict. The error it gives up with is its own: the API has no such answer.
   */
  lemma GivesUpExactly(log: seq<Version>, turns: seq<Turn>, u: Update, n: nat, r: Outcome, after: seq<Version>)
    requires log != [] && |turns| == 3 && Retried(log, turns, u, n, r, after)
    requires forall t | t in turns :: t.read != ReadFails(Exhausted) && t.writeError != Err(Exhausted)
    ensures
      r == Err(Exhausted) <==>
      forall j | 0 <= j < 3 ::
        && turns[j].read.ReadsVersion?
        && (|| turns[j].writeError == Err(Conflict)
            || (turns[j].writeError == Nil
                && (turns[j].between != []
                    || turns[j].read.version + 1 < |log| + |OthersDuring(turns, j)| + |turns[j].before|)))
    ensures r == Err(Exhausted) ==> n == 3
  {
    assert turns[..3] == turns;
    ConflictsExactly(log, turns, 3);
    assert turns[n - 1] in turns;
  }

  // The first turn's answer is final if it is an error of another kind.
  lemma FirstErrorIsFinal(log: seq<Version>, turns: seq<Turn>, u: Update, n: nat, r: Outcome, after: seq<Version>)
    requires log != [] && |turns| == 3 && Retried(log, turns, u, n, r, after)
    requires turns[0].read.ReadsVersion? && turns[0].writeError == Err(OtherError)
    ensures n == 1 && r == Err(OtherError) && after == log + turns[0].before + turns[0].between
  {
    OtherErrorsEnd(log, turns, u, n, r, after, 0);
    assert OthersDuring(turns, 1) == turns[0].before + turns[0].between;
  }

  lemma UpsertHasKind(conditions: seq<Condition>, c: Condition)
    ensures HasKind(Upsert(conditions, c), c.kind)
  {
    assert Upsert(conditions, c)[FirstIndex(conditions, c.kind)] == c;
  }

  /******* Reconciliation *******/

  const INT32_LIMIT: nat := 0x8000_0000

  // Conversion to int32: the count wraps around.
  function Int32(n: int): (r: int)
    ensures -0x8000_0000 <= r < 0x8000_0000 && (r - n) % 0x1_0000_0000 == 0
  {
    (n + 0x8000_0000) % 0x1_0000_0000 - 0x8000_0000
  }

  lemma Int32Next(n: int)
    ensures Int32(Int32(n) + 1) == Int32(n + 1)
  {
  }

  function CountInjected(pods: seq<PodSpec>): nat {
    if pods == [] then 0
    else CountInjected(pods[..|pods| - 1]) + if IsInjected(pods[|pods| - 1]) then 1 else 0
  }

  lemma {:induction false} CountBounds(pods: seq<PodSpec>)
    ensures CountInjected(pods) <= |pods|
    ensures CountInjected(pods) == |pods| <==> forall p | p in pods :: IsInjected(p)
    ensures CountInjected(pods) == 0 <==> forall p | p in pods :: !IsInjected(p)
    decreases |pods|
  {
    if pods != [] {
      var init, p := pods[..|pods| - 1], pods[|pods| - 1];
      CountBounds(init);
      assert pods == init + [p];
    }
  }

  // It counts each injected pod once.
  lemma {:induction false} CountIsCardinality(pods: seq<PodSpec>)
    ensures CountInjected(pods) == |set i | 0 <= i < |pods| && IsInjected(pods[i])|
    decreases |pods|
  {
    var all := set i | 0 <= i < |pods| && IsInjected(pods[i]);
    if pods != [] {
      var last := |pods| - 1;
      var init := pods[..last];
      CountIsCardinality(init);
      var before := set i | 0 <= i < |init| && IsInjected(init[i]);
      assert forall i | 0 <= i < last :: init[i] == pods[i];
      assert all == if IsInjected(pods[last]) then before + {last} else before;
    } else {
      assert all == {};
    }
  }

  // The phase for a pair of int32 counts.
  function PhaseOf(injected: int, total: int): Phase {
    if total > 0 then
      if injected == total then Running
      else if injected > 0 then Partial
      else Pending
    else Pending
  }

  method IsPodInjected(pod: PodSpec) returns (injected: bool)
    ensures injected <==> IsInjected(pod)
    ensures injected <==>
      || (exists k :: 0 <= k < |pod.containers| && pod.containers[k].name == "dynastub-sidecar")
      || (exists k :: 0 <= k < |pod.initContainers| && pod.initContainers[k].name == "dynastub-sidecar")
  {
    for i := 0 to |pod.containers|
      invariant forall k | 0 <= k < i :: pod.containers[k].name != SIDECAR_NAME
    {
      if pod.containers[i].name == SIDECAR_NAME {
        return true;
      }
    }
    for i := 0 to |pod.initContainers|
      invariant forall k | 0 <= k < i :: pod.initContainers[k].name != SIDECAR_NAME
    {
      if pod.initContainers[i].name == SIDECAR_NAME {
        return true;
      }
    }
    return false;
  }

  // The counts and the phase of a list of pods.
  method Classify(pods: seq<PodSpec>) returns (u: Update)
    ensures u.totalPods == Int32(|pods|)
    ensures u.injectedPods == Int32(|set i | 0 <= i < |pods| && IsInjected(pods[i])|)
    ensures u.now == 0 && u.phase ==
      if u.totalPods <= 0 then Pending
      else if u.injectedPods == u.totalPods then Running
      else if u.injectedPods > 0 then Partial
      else Pending
  {
    var totalPods := Int32(|pods|);
    var injectedPods := 0;
    for i := 0 to |pods|
      invariant injectedPods == Int32(CountInjected(pods[..i]))
    {
      assert pods[..i + 1][..i] == pods[..i];
      var injected := IsPodInjected(pods[i]);
      if injected {
        Int32Next(CountInjected(pods[..i]));
        injectedPods := Int32(injectedPods + 1);
      }
    }
    assert pods[..|pods|] == pods;
    CountIsCardinality(pods);
    var phase := Pending;
    if totalPods > 0 {
      if injectedPods == totalPods {
        phase := Running;
      } else if injectedPods > 0 {
        phase := Partial;
      }
    }
    return Update(phase, injectedPods, totalPods, 0);
  }

  // What the phase should say about a list of pods.
  function TruePhase(pods: seq<PodSpec>): Phase {
    if pods != [] && (forall p | p in pods :: IsInjected(p)) then Running
    else if exists p :: p in pods && IsInjected(p) then Partial
    else Pending
  }

  lemma Int32Value(n: nat)
    ensures Int32(n) == n <==> n < INT32_LIMIT
    ensures n < INT32_LIMIT ==> Int32(n) == n
  {
  }

  // The 32-bit count of n things is positive.
  predicate CountsPositive(n: nat) {
    0 < n % 0x1_0000_0000 < INT32_LIMIT
  }

  lemma Int32Sign(n: nat)
    ensures Int32(n) > 0 <==> CountsPositive(n)
  {
  }

  lemma Int32Same(m: nat, n: nat)
    ensures Int32(m) == Int32(n) <==> m % 0x1_0000_0000 == n % 0x1_0000_0000
  {
  }

  // The wrapped counts give the phase that the counts themselves would.
  predicate PhaseIsRight(injected: nat, total: nat) {
    || injected == 0
    || (CountsPositive(total)
        && (injected == total
            || (CountsPositive(injected) && injected % 0x1_0000_0000 != total % 0x1_0000_0000)))
  }

  lemma PhaseOfCounts(injected: nat, total: nat)
    requires injected <= total
    ensures
      PhaseOf(Int32(injected), Int32(total))
        == (if total != 0 && injected == total then Running else if injected > 0 then Partial else Pending)
      <==> PhaseIsRight(injected, total)
  {
    Int32Value(injected);
    Int32Sign(total);
    Int32Sign(injected);
    Int32Same(injected, total);
  }

  /**
   Exactly when the reported total and phase are right, for every list. The total is right
   for lists shorter than two to the 31. The phase is right for a list without an injected
   pod; else the total must count as positive, and if some pods are not injected, the
   injected ones must count as positive too and not look like all of them.
   */
  lemma ReportIsRightExactly(pods: seq<PodSpec>)
    ensures Int32(|pods|) == |pods| <==> |pods| < INT32_LIMIT
    ensures PhaseOf(Int32(CountInjected(pods)), Int32(|pods|)) == TruePhase(pods)
       <==> PhaseIsRight(CountInjected(pods), |pods|)
  {
    CountBounds(pods);
    Int32Value(|pods|);
    PhaseOfCounts(CountInjected(pods), |pods|);
  }

  // Below two to the 32 pods that leaves lists shorter than two to the 31 and lists
  // without an injected pod.
  lemma RightBelow(injected: nat, total: nat)
    requires injected <= total < 0x1_0000_0000
    ensures PhaseIsRight(injected, total) <==> total < INT32_LIMIT || injected == 0
  {
    assert injected % 0x1_0000_0000 == injected && total % 0x1_0000_0000 == total;
  }

  // Two to the 31 injected pods are reported as Pending.
  lemma CountWraps(pod: PodSpec)
    requires IsInjected(pod)
    ensures
      var pods := seq(INT32_LIMIT, _ => pod);
      && TruePhase(pods) == Running
      && PhaseOf(Int32(CountInjected(pods)), Int32(|pods|)) == Pending
  {
    var pods := seq(INT32_LIMIT, _ => pod);
    CountBounds(pods);
    Int32Value(|pods|);
  }

  // One reconciliation of a stub. got, listed: what the API answers; first: the version
  // read at the start; failure: the answer to the status update for a bad selector.
  method Reconcile(store: Store, got: Outcome, first: nat, validSelector: bool, now: Time, failure: Outcome,
                   listed: Outcome, pods: seq<PodSpec>, turns: seq<Turn>)
    returns (r: Outcome, requeue: bool, ghost attempts: nat)
    requires store.log != [] && |turns| == 3
    modifies store
    ensures
      var log := old(store.log);
      if got.Err? then
        r == (if got.error.NotFound? then Nil else got) && !requeue && store.log == log
      else if !validSelector then
        && r == Err(InvalidSelector) && !requeue
        && store.log == if failure.Nil? && Position(log, first) == |log| - 1
                        then log + [Committed(log, Update(Failed, 0, 0, now))] else log
      else if listed.Err? then r == listed && !requeue && store.log == log
      else
        var injected, total := Int32(|set i | 0 <= i < |pods| && IsInjected(pods[i])|), Int32(|pods|);
        var phase := if total <= 0 then Pending else if injected == total then Running
                     else if injected > 0 then Partial else Pending;
        && (requeue <==> r.Nil?)
        && Retried(log, turns, Update(phase, injected, total, 0), attempts, r, store.log)
  {
    requeue, attempts := false, 0;
    if got.Err? {
      if got.error.NotFound? {
        return Nil, false, 0;
      }
      return got, false, 0;
    }
    var i := Position(store.log, first);
    var bs := new StubObject(i, store.log[i]);
    if !validSelector {
      var _ := UpdateStatus(store, bs, Update(Failed, 0, 0, now), failure);
      return Err(InvalidSelector), false, 0;
    }
    if listed.Err? {
      return listed, false, 0;
    }
    var u := Classify(pods);
    var n;
    r, n := UpdateStatusWithRetry(store, u, turns);
    attempts := n;
    requeue := r.Nil?;
  }
}
