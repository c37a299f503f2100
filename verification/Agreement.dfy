/**
 The webhook and the controller over whole runs of a cluster: stubs and pods come and
 go in any order, every pod passes the webhook when it is created, and the controller
 judges it later by its containers alone.
 */
module Agreement {
  import opened Options
  import opened Pods
  import opened Status
  import opened Webhook
  import opened Controller

  datatype Key = Key(namespace: string, name: string)

  // born: the moment of creation.
  datatype LiveStub = LiveStub(stub: Stub, born: nat)
  datatype LivePod = LivePod(namespace: string, labels: Labels, spec: PodSpec, born: nat)

  datatype Cluster = Cluster(clock: nat, stubs: map<Key, LiveStub>, pods: map<Key, LivePod>)

  const EMPTY_CLUSTER := Cluster(0, map[], map[])

  // decodedNamespace: the namespace in the admitted pod, which may be empty; an empty
  // one makes the webhook list the stubs of every namespace. order: the keys of that
  // list, in the order in which they are returned.
  datatype Action =
    | CreateStub(stub: Stub)
    | DeleteStub(key: Key)
    | CreatePod(key: Key, decodedNamespace: string, labels: Labels, spec: PodSpec, order: seq<Key>)
    | DeletePod(key: Key)

  function StubKey(stub: Stub): Key {
    Key(stub.namespace, stub.name)
  }

  // order holds the live stubs of a namespace, or of all of them.
  predicate ListsStubs(c: Cluster, namespace: string, order: seq<Key>) {
    && (forall k | k in order :: k in c.stubs)
    && (forall k | k in c.stubs && (namespace == "" || c.stubs[k].stub.namespace == namespace) :: k in order)
  }

  predicate CanCreatePod(c: Cluster, a: Action)
    requires a.CreatePod?
  {
    && a.key !in c.pods
    && (a.decodedNamespace == "" || a.decodedNamespace == a.key.namespace)
    && ListsStubs(c, a.decodedNamespace, a.order)
  }

  function StubsAt(c: Cluster, order: seq<Key>): seq<Stub>
    requires forall k | k in order :: k in c.stubs
  {
    seq(|order|, i requires 0 <= i < |order| => c.stubs[order[i]].stub)
  }

  // The spec that the webhook lets through.
  function Admitted(match_: Matcher, stubs: seq<Stub>, labels: Labels, spec: PodSpec): PodSpec {
    match FirstMatching(match_, stubs, labels)
    case None => spec
    case Some(stub) => InjectSpec(spec, stub)
  }

  // An action that is not possible leaves the cluster as it is.
  function Step(match_: Matcher, c: Cluster, a: Action): Cluster {
    match a
    case CreateStub(stub) =>
      if StubKey(stub) in c.stubs then c
      else c.(clock := c.clock + 1, stubs := c.stubs[StubKey(stub) := LiveStub(stub, c.clock)])
    case DeleteStub(key) => c.(stubs := c.stubs - {key})
    case CreatePod(key, namespace, labels, spec, order) =>
      if CanCreatePod(c, a) then
        var admitted := Admitted(match_, StubsAt(c, order), labels, spec);
        c.(clock := c.clock + 1, pods := c.pods[key := LivePod(key.namespace, labels, admitted, c.clock)])
      else c
    case DeletePod(key) => c.(pods := c.pods - {key})
  }

  function Run(match_: Matcher, c: Cluster, acts: seq<Action>): Cluster {
    if acts == [] then c else Step(match_, Run(match_, c, acts[..|acts| - 1]), acts[|acts| - 1])
  }

  // Pod p is one that stub k targets.
  predicate Targets(match_: Matcher, c: Cluster, k: Key, p: Key)
    requires k in c.stubs && p in c.pods
  {
    c.pods[p].namespace == c.stubs[k].stub.namespace && AcceptedBy(match_, c.stubs[k].stub, c.pods[p].labels)
  }

  // Every pod is injected that is younger than some stub that targets it.
  predicate YoungerInjected(match_: Matcher, c: Cluster) {
    forall k, p | k in c.stubs && p in c.pods && c.stubs[k].born < c.pods[p].born && Targets(match_, c, k, p) ::
      IsInjected(c.pods[p].spec)
  }

  predicate BornBefore(c: Cluster) {
    && (forall k | k in c.stubs :: c.stubs[k].born < c.clock)
    && (forall p | p in c.pods :: c.pods[p].born < c.clock)
  }

  lemma AdmittedIsInjected(match_: Matcher, c: Cluster, a: Action, k: Key)
    requires a.CreatePod? && CanCreatePod(c, a) && k in c.stubs
    requires c.stubs[k].stub.namespace == a.key.namespace && AcceptedBy(match_, c.stubs[k].stub, a.labels)
    ensures IsInjected(Admitted(match_, StubsAt(c, a.order), a.labels, a.spec))
  {
    var stubs := StubsAt(c, a.order);
    assert k in a.order;
    var i :| 0 <= i < |a.order| && a.order[i] == k;
    assert stubs[i] == c.stubs[k].stub;
    var found := FirstMatching(match_, stubs, a.labels);
    InjectedIsSeen(a.spec, found.value, InjectSpec(a.spec, found.value));
  }

  lemma {:induction false} RunKeepsAgreement(match_: Matcher, acts: seq<Action>)
    ensures BornBefore(Run(match_, EMPTY_CLUSTER, acts)) && YoungerInjected(match_, Run(match_, EMPTY_CLUSTER, acts))
    decreases |acts|
  {
    if acts != [] {
      var c, a := Run(match_, EMPTY_CLUSTER, acts[..|acts| - 1]), acts[|acts| - 1];
      RunKeepsAgreement(match_, acts[..|acts| - 1]);
      if a.CreatePod? && CanCreatePod(c, a) {
        var d := Step(match_, c, a);
        forall k, p | k in d.stubs && p in d.pods && d.stubs[k].born < d.pods[p].born && Targets(match_, d, k, p)
          ensures IsInjected(d.pods[p].spec)
        {
          if p == a.key {
            AdmittedIsInjected(match_, c, a, k);
          } else {
            assert Targets(match_, c, k, p);
          }
        }
      } else {
        StepKeepsAgreement(match_, c, a);
      }
    }
  }

  lemma StepKeepsAgreement(match_: Matcher, c: Cluster, a: Action)
    requires BornBefore(c) && YoungerInjected(match_, c)
    requires a.CreatePod? ==> !CanCreatePod(c, a)
    ensures BornBefore(Step(match_, c, a)) && YoungerInjected(match_, Step(match_, c, a))
  {
    var d := Step(match_, c, a);
    forall k, p | k in d.stubs && p in d.pods && d.stubs[k].born < d.pods[p].born && Targets(match_, d, k, p)
      ensures IsInjected(d.pods[p].spec)
    {
      if k in c.stubs && c.stubs[k] == d.stubs[k] {
        assert Targets(match_, c, k, p);
      }
    }
  }

  // listed holds the pods that stub k targets, in some order.
  predicate ListsPods(match_: Matcher, c: Cluster, k: Key, listed: seq<Key>)
    requires k in c.stubs
  {
    && (forall p | p in listed :: p in c.pods && Targets(match_, c, k, p))
    && (forall p | p in c.pods && Targets(match_, c, k, p) :: p in listed)
  }

  function SpecsAt(c: Cluster, listed: seq<Key>): seq<PodSpec>
    requires forall p | p in listed :: p in c.pods
  {
    seq(|listed|, i requires 0 <= i < |listed| => c.pods[listed[i]].spec)
  }

  /**
   Agreement. In every state that a cluster can reach, a stub that was created before
   all the pods it targets is never reported Partial, even if another stub won the first
   match for those pods; and, for counts that fit, it is reported Pending exactly when
   it targets no pod.
   */
  lemma EarlyStubIsNeverPartial(match_: Matcher, acts: seq<Action>, k: Key, listed: seq<Key>)
    requires
      var c := Run(match_, EMPTY_CLUSTER, acts);
      && k in c.stubs && ListsPods(match_, c, k, listed)
      && forall p | p in listed :: c.stubs[k].born < c.pods[p].born
    ensures
      var c := Run(match_, EMPTY_CLUSTER, acts);
      var specs := SpecsAt(c, listed);
      var phase := PhaseOf(Int32(CountInjected(specs)), Int32(|specs|));
      && phase != Partial
      && (|specs| < INT32_LIMIT ==> (phase == Pending <==> listed == []) && phase == TruePhase(specs))
  {
    var c := Run(match_, EMPTY_CLUSTER, acts);
    RunKeepsAgreement(match_, acts);
    var specs := SpecsAt(c, listed);
    forall s | s in specs
      ensures IsInjected(s)
    {
      var i :| 0 <= i < |specs| && specs[i] == s;
      assert listed[i] in listed;
    }
    CountBounds(specs);
    ReportIsRightExactly(specs);
    Int32Value(|specs|);
  }

  /******* What the steps do *******/

  /**
   A pod that is created is there, with its labels, and was injected exactly if its spec
   already was or some stub of the list accepts it; a deletion takes its object away; and
   nothing else of the cluster changes.
   */
  lemma StepsTakeEffect(match_: Matcher, c: Cluster, a: Action)
    ensures
      && a.CreatePod? && a.key !in c.pods
      && (a.decodedNamespace == "" || a.decodedNamespace == a.key.namespace)
      && (forall k | k in a.order :: k in c.stubs)
      && (forall k | k in c.stubs ::
            a.decodedNamespace == "" || c.stubs[k].stub.namespace == a.decodedNamespace ==> k in a.order) ==>
      var d := Step(match_, c, a);
      && a.key in d.pods && d.pods - {a.key} == c.pods && d.stubs == c.stubs && d.clock == c.clock + 1
      && d.pods[a.key].namespace == a.key.namespace && d.pods[a.key].labels == a.labels
      && d.pods[a.key].born == c.clock
      && (IsInjected(d.pods[a.key].spec) <==>
            || IsInjected(a.spec)
            || exists i :: 0 <= i < |a.order| && match_(c.stubs[a.order[i]].stub.selector, a.labels) == Matches)
    ensures a.DeletePod? ==>
      Step(match_, c, a).pods == c.pods - {a.key} && Step(match_, c, a).stubs == c.stubs
    ensures a.DeleteStub? ==>
      Step(match_, c, a).stubs == c.stubs - {a.key} && Step(match_, c, a).pods == c.pods
    ensures a.CreateStub? && StubKey(a.stub) !in c.stubs ==>
      var d := Step(match_, c, a);
      d.stubs == c.stubs[StubKey(a.stub) := LiveStub(a.stub, c.clock)] && d.pods == c.pods && d.clock == c.clock + 1
  {
    if a.CreatePod? && CanCreatePod(c, a) {
      var stubs := StubsAt(c, a.order);
      AdmittedExactly(match_, stubs, a.labels, a.spec);
      forall i | 0 <= i < |a.order|
        ensures stubs[i] == c.stubs[a.order[i]].stub
      {
      }
    }
  }

  lemma AdmittedExactly(match_: Matcher, stubs: seq<Stub>, labels: Labels, spec: PodSpec)
    ensures
      IsInjected(Admitted(match_, stubs, labels, spec)) <==>
        || IsInjected(spec)
        || exists i :: 0 <= i < |stubs| && match_(stubs[i].selector, labels) == Matches
  {
    match FirstMatching(match_, stubs, labels)
    case None =>
    case Some(stub) =>
      InjectedIsSeen(spec, stub, InjectSpec(spec, stub));
      var i :| 0 <= i < |stubs| && AcceptedBy(match_, stubs[i], labels);
  }

  lemma RunThree(match_: Matcher, c: Cluster, a1: Action, a2: Action, a3: Action)
    ensures Run(match_, c, [a1, a2, a3]) == Step(match_, Step(match_, Step(match_, c, a1), a2), a3)
  {
    var acts := [a1, a2, a3];
    assert acts[..2] == [a1, a2] && [a1, a2][..1] == [a1] && [a1][..0] == [];
    assert Run(match_, c, [a1]) == Step(match_, c, a1);
    assert Run(match_, c, [a1, a2]) == Step(match_, Step(match_, c, a1), a2);
  }

  lemma OneOfTwoIsPartial(p: PodSpec, q: PodSpec)
    requires !IsInjected(p) && IsInjected(q)
    ensures PhaseOf(Int32(CountInjected([p, q])), Int32(|[p, q]|)) == Partial
  {
    assert [p, q][..1] == [p] && [p][..0] == [];
    assert CountInjected([p]) == 0 && CountInjected([p, q]) == 1;
  }

  // The run of a late stub.
  function LateRun(stub: Stub, labels: Labels, spec: PodSpec, before: string, after: string): seq<Action> {
    [CreatePod(Key(stub.namespace, before), stub.namespace, labels, spec, []), CreateStub(stub),
     CreatePod(Key(stub.namespace, after), stub.namespace, labels, spec, [StubKey(stub)])]
  }

  lemma LateStub(match_: Matcher, stub: Stub, labels: Labels, spec: PodSpec, before: string, after: string)
    requires match_(stub.selector, labels) == Matches && !IsInjected(spec) && before != after
    ensures
      var first, second := Key(stub.namespace, before), Key(stub.namespace, after);
      var c := Run(match_, EMPTY_CLUSTER, LateRun(stub, labels, spec, before, after));
      && StubKey(stub) in c.stubs && c.pods.Keys == {first, second}
      && Targets(match_, c, StubKey(stub), first) && Targets(match_, c, StubKey(stub), second)
      && !IsInjected(c.pods[first].spec) && IsInjected(c.pods[second].spec)
  {
    var first, second, k := Key(stub.namespace, before), Key(stub.namespace, after), StubKey(stub);
    var acts := LateRun(stub, labels, spec, before, after);
    var c1 := Step(match_, EMPTY_CLUSTER, acts[0]);
    var c2 := Step(match_, c1, acts[1]);
    RunThree(match_, EMPTY_CLUSTER, acts[0], acts[1], acts[2]);
    StepsTakeEffect(match_, EMPTY_CLUSTER, acts[0]);
    StepsTakeEffect(match_, c1, acts[1]);
    assert acts[2].order[0] == k;
    StepsTakeEffect(match_, c2, acts[2]);
  }

  /**
   A stub that comes late may be Partial: a pod created before it is not injected, and one
   created after it is.
   */
  lemma LateStubIsPartial(match_: Matcher, stub: Stub, labels: Labels, spec: PodSpec, before: string, after: string)
    requires match_(stub.selector, labels) == Matches && !IsInjected(spec) && before != after
    ensures
      var listed := [Key(stub.namespace, before), Key(stub.namespace, after)];
      var c := Run(match_, EMPTY_CLUSTER, LateRun(stub, labels, spec, before, after));
      && StubKey(stub) in c.stubs && ListsPods(match_, c, StubKey(stub), listed)
      && var specs := SpecsAt(c, listed);
      PhaseOf(Int32(CountInjected(specs)), Int32(|specs|)) == Partial
  {
    var listed := [Key(stub.namespace, before), Key(stub.namespace, after)];
    var c := Run(match_, EMPTY_CLUSTER, LateRun(stub, labels, spec, before, after));
    LateStub(match_, stub, labels, spec, before, after);
    assert listed[0] in listed && listed[1] in listed;
    var specs := SpecsAt(c, listed);
    assert specs == [c.pods[listed[0]].spec, c.pods[listed[1]].spec];
    OneOfTwoIsPartial(c.pods[listed[0]].spec, c.pods[listed[1]].spec);
  }
}
