/** The status that the controller writes to a stub, and the upsert of its Ready condition. */
module Status {

  type Time = nat

  datatype Phase = Pending | Running | Partial | Failed

  datatype Condition = Condition(
    kind: string, isTrue: bool, observedGeneration: int, lastTransitionTime: Time, reason: string, message: string)

  datatype LastUpdate = Never | At(time: Time)

  datatype StubStatus = StubStatus(
    phase: Phase, injectedPods: int, totalPods: int, lastUpdateTime: LastUpdate, conditions: seq<Condition>)

  const READY := "Ready"

  // One status update: what the controller found, and when.
  datatype Update = Update(phase: Phase, injectedPods: int, totalPods: int, now: Time)

  function ReadyCondition(u: Update, generation: int): Condition {
    match u.phase
    case Running => Condition(READY, true, generation, u.now, "Running", "All target pods have been injected")
    case Partial => Condition(READY, false, generation, u.now, "Partial", "Some target pods have been injected")
    case _ => Condition(READY, false, generation, u.now, "Reconciling", "BehaviorStub is being reconciled")
  }

  // Condition i is the first of its kind.
  predicate FirstOfKind(conditions: seq<Condition>, kind: string, i: nat) {
    && i < |conditions| && conditions[i].kind == kind
    && forall k | 0 <= k < i :: conditions[k].kind != kind
  }

  predicate HasKind(conditions: seq<Condition>, kind: string) {
    exists k :: 0 <= k < |conditions| && conditions[k].kind == kind
  }

  // The first condition of c's kind is replaced; without one, c is appended.
  predicate Upserted(conditions: seq<Condition>, c: Condition, after: seq<Condition>) {
    && (!HasKind(conditions, c.kind) ==> after == conditions + [c])
    && (forall i | 0 <= i < |conditions| && FirstOfKind(conditions, c.kind, i) :: after == conditions[i := c])
  }

  function FirstIndex(conditions: seq<Condition>, kind: string): (i: nat)
    ensures i <= |conditions|
    ensures i < |conditions| ==> FirstOfKind(conditions, kind, i)
    ensures i == |conditions| <==> !HasKind(conditions, kind)
  {
    if conditions == [] || conditions[0].kind == kind then 0
    else FirstIndex(conditions[1..], kind) + 1
  }

  function Upsert(conditions: seq<Condition>, c: Condition): (after: seq<Condition>)
    ensures Upserted(conditions, c, after)
  {
    var i := FirstIndex(conditions, c.kind);
    if i < |conditions| then conditions[i := c] else conditions + [c]
  }

  method UpsertInPlace(conditions: seq<Condition>, c: Condition) returns (after: seq<Condition>)
    ensures after == Upsert(conditions, c)
    ensures (forall k | 0 <= k < |conditions| :: conditions[k].kind != c.kind) ==> after == conditions + [c]
    ensures forall i | 0 <= i < |conditions| && conditions[i].kind == c.kind ::
      (forall k | 0 <= k < i :: conditions[k].kind != c.kind) ==> after == conditions[i := c]
  {
    after := conditions;
    var found := false;
    for i := 0 to |conditions|
      invariant !found && after == conditions
      invariant forall k | 0 <= k < i :: conditions[k].kind != c.kind
    {
      if after[i].kind == c.kind {
        after := after[i := c];
        found := true;
        assert FirstOfKind(conditions, c.kind, i);
        break;
      }
    }
    if !found {
      after := after + [c];
    }
  }

  function Updated(s: StubStatus, generation: int, u: Update): StubStatus {
    StubStatus(u.phase, u.injectedPods, u.totalPods, At(u.now),
               Upsert(s.conditions, ReadyCondition(u, generation)))
  }

  /******* What a run of updates keeps *******/

  function NonReady(conditions: seq<Condition>): seq<Condition> {
    if conditions == [] then []
    else
      var init, last := NonReady(conditions[..|conditions| - 1]), conditions[|conditions| - 1];
      if last.kind == READY then init else init + [last]
  }

  predicate UniqueKinds(conditions: seq<Condition>) {
    forall i, j | 0 <= i < j < |conditions| :: conditions[i].kind != conditions[j].kind
  }

  // Exactly one condition is Ready, and it is true exactly when asked.
  predicate OneReady(conditions: seq<Condition>, isTrue: bool) {
    exists i :: 0 <= i < |conditions| && conditions[i].kind == READY && conditions[i].isTrue == isTrue
      && forall j | 0 <= j < |conditions| && j != i :: conditions[j].kind != READY
  }

  // Replacing a Ready condition or appending one leaves the others alone.
  lemma {:induction false} NonReadyReplace(conditions: seq<Condition>, i: nat, c: Condition)
    requires i < |conditions| && conditions[i].kind == READY && c.kind == READY
    ensures NonReady(conditions[i := c]) == NonReady(conditions)
    decreases |conditions|
  {
    var last := |conditions| - 1;
    if i < last {
      NonReadyReplace(conditions[..last], i, c);
      assert conditions[i := c][..last] == conditions[..last][i := c];
    } else {
      assert conditions[i := c][..last] == conditions[..last];
    }
  }

  lemma NonReadyAppend(conditions: seq<Condition>, c: Condition)
    requires c.kind == READY
    ensures NonReady(conditions + [c]) == NonReady(conditions)
  {
    assert (conditions + [c])[..|conditions|] == conditions;
  }

  lemma UpsertKeeps(conditions: seq<Condition>, c: Condition)
    requires c.kind == READY
    ensures NonReady(Upsert(conditions, c)) == NonReady(conditions)
    ensures UniqueKinds(conditions) ==>
      UniqueKinds(Upsert(conditions, c)) && OneReady(Upsert(conditions, c), c.isTrue)
  {
    var i := FirstIndex(conditions, READY);
    var after := Upsert(conditions, c);
    if i < |conditions| {
      NonReadyReplace(conditions, i, c);
    } else {
      NonReadyAppend(conditions, c);
    }
    assert after[i] == c;
  }

  // A status after a run of updates, each made when the stub had some generation.
  function UpdatedBy(s: StubStatus, updates: seq<(Update, int)>): StubStatus {
    if updates == [] then s
    else
      var (u, generation) := updates[|updates| - 1];
      Updated(UpdatedBy(s, updates[..|updates| - 1]), generation, u)
  }

  /**
   Condition upsert over runs: whatever the phases, the conditions other than Ready keep
   their values and their order; if kinds start unique they stay unique, and after any
   update there is exactly one Ready condition, true exactly when the last phase was
   Running.
   */
  lemma {:induction false} ConditionsOverRuns(s: StubStatus, updates: seq<(Update, int)>)
    ensures NonReady(UpdatedBy(s, updates).conditions) == NonReady(s.conditions)
    ensures UniqueKinds(s.conditions) ==> UniqueKinds(UpdatedBy(s, updates).conditions)
    ensures UniqueKinds(s.conditions) && updates != [] ==>
      OneReady(UpdatedBy(s, updates).conditions, updates[|updates| - 1].0.phase == Running)
    decreases |updates|
  {
    if updates != [] {
      var (u, generation) := updates[|updates| - 1];
      var before := UpdatedBy(s, updates[..|updates| - 1]);
      ConditionsOverRuns(s, updates[..|updates| - 1]);
      UpsertKeeps(before.conditions, ReadyCondition(u, generation));
    }
  }
}
