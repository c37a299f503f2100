/**
 Deep copy of stubs: the pointers, slices and maps of a specification, a status, a stub
 and a list of stubs are rebuilt in fresh memory, so that the copy equals the original
 and shares nothing with it, whatever the parts of the original share with each other.
 */
module DeepCopy {
  import opened Options
  import opened Sequences
  import Sidecar
  import Conditions = Status

  type Behavior = Sidecar.Behavior
  type Condition = Conditions.Condition
  type Table = map<string, string>

  datatype ScriptVolume = ScriptVolume(hostPath: string, mountPath: string)
  datatype Advanced = Advanced(enableLogging: bool, syncIntervalSeconds: int)

  // What a pointer leads to, or the table behind a map.
  class Box<T> {
    var value: T

    constructor (value: T)
      ensures this.value == value
    {
      this.value := value;
    }
  }

  function BoxRepr<T>(b: Box?<T>): set<object> {
    if b == null then {} else {b}
  }

  function BoxValue<T>(b: Box?<T>): Option<T>
    reads b
  {
    if b == null then None else Some(b.value)
  }

  // A slice; null is the nil slice.
  function SliceRepr<T>(a: array?<T>): set<object> {
    if a == null then {} else {a}
  }

  function SliceValue<T>(a: array?<T>): Option<seq<T>>
    reads a
  {
    if a == null then None else Some(a[..])
  }

  // new(T), or a new map, and a copy into it; nil stays nil.
  method CopyBox<T>(b: Box?<T>) returns (c: Box?<T>)
    ensures fresh(BoxRepr(c)) && BoxValue(c) == BoxValue(b)
  {
    if b == null {
      return null;
    }
    c := new Box(b.value);
  }

  // make([]T, len) and copy; nil stays nil.
  method CopySlice<T>(a: array?<T>) returns (c: array?<T>)
    ensures fresh(SliceRepr(c)) && SliceValue(c) == SliceValue(a)
  {
    if a == null {
      return null;
    }
    var s := a[..];
    c := new T[|s|](i requires 0 <= i < |s| => s[i]);
    assert c[..] == s;
  }

  // The same, element by element.
  method CopyConditions(a: array?<Condition>) returns (c: array?<Condition>)
    ensures fresh(SliceRepr(c)) && SliceValue(c) == SliceValue(a)
  {
    if a == null {
      return null;
    }
    var zero := Conditions.Condition("", false, 0, 0, "", "");
    c := new Condition[a.Length](_ => zero);
    for i := 0 to a.Length
      invariant fresh(c) && c.Length == a.Length
      invariant c[..i] == a[..i]
    {
      c[i] := a[i];
    }
    assert c[..] == c[..a.Length] && a[..] == a[..a.Length];
  }

  /******* Structures: values that hold references *******/

  datatype Selector = Selector(matchLabels: Box?<Table>, matchExpressions: array?<string>)
  datatype Resources = Resources(limits: Box?<Table>, requests: Box?<Table>)
  datatype Metadata = Metadata(rest: string, labels: Box?<Table>, annotations: Box?<Table>)
  datatype Spec = Spec(
    targetSelector: Selector, sidecarImage: string, sidecarResources: Box?<Resources>,
    scriptVolume: ScriptVolume, behaviors: array?<Behavior>, advanced: Box?<Advanced>)
  datatype Status = Status(
    phase: string, injectedPods: int, totalPods: int, lastUpdateTime: Box?<nat>, conditions: array?<Condition>)
  datatype Stub = Stub(typeMeta: string, metadata: Metadata, spec: Spec, status: Status)

  // What they mean, references followed.
  datatype SelectorValue = SelectorValue(matchLabels: Option<Table>, matchExpressions: Option<seq<string>>)
  datatype ResourcesValue = ResourcesValue(limits: Option<Table>, requests: Option<Table>)
  datatype MetadataValue = MetadataValue(rest: string, labels: Option<Table>, annotations: Option<Table>)
  datatype SpecValue = SpecValue(
    selector: SelectorValue, sidecarImage: string, resources: Option<ResourcesValue>,
    scriptVolume: ScriptVolume, behaviors: Option<seq<Behavior>>, advanced: Option<Advanced>)
  datatype StatusValue = StatusValue(
    phase: string, injectedPods: int, totalPods: int, lastUpdateTime: Option<nat>, conditions: Option<seq<Condition>>)
  datatype StubValue = StubValue(typeMeta: string, metadata: MetadataValue, spec: SpecValue, status: StatusValue)

  // Everything that can be reached from a structure, and its meaning.
  ghost function SelectorRepr(s: Selector): set<object> {
    BoxRepr(s.matchLabels) + SliceRepr(s.matchExpressions)
  }

  ghost function SelectorMeans(s: Selector): SelectorValue
    reads SelectorRepr(s)
  {
    SelectorValue(BoxValue(s.matchLabels), SliceValue(s.matchExpressions))
  }

  method CopySelector(s: Selector) returns (c: Selector)
    ensures fresh(SelectorRepr(c)) && SelectorMeans(c) == SelectorMeans(s)
  {
    var matchLabels := CopyBox(s.matchLabels);
    var matchExpressions := CopySlice(s.matchExpressions);
    c := Selector(matchLabels, matchExpressions);
  }

  ghost function MetadataRepr(m: Metadata): set<object> {
    BoxRepr(m.labels) + BoxRepr(m.annotations)
  }

  ghost function MetadataMeans(m: Metadata): MetadataValue
    reads MetadataRepr(m)
  {
    MetadataValue(m.rest, BoxValue(m.labels), BoxValue(m.annotations))
  }

  method CopyMetadata(m: Metadata) returns (c: Metadata)
    ensures fresh(MetadataRepr(c)) && MetadataMeans(c) == MetadataMeans(m)
  {
    var labels := CopyBox(m.labels);
    var annotations := CopyBox(m.annotations);
    c := Metadata(m.rest, labels, annotations);
  }

  ghost function ResourcesRepr(r: Box?<Resources>): set<object>
    reads r
  {
    if r == null then {} else {r} + BoxRepr(r.value.limits) + BoxRepr(r.value.requests)
  }

  ghost function ResourcesMeans(r: Box?<Resources>): Option<ResourcesValue>
    reads r, ResourcesRepr(r)
  {
    if r == null then None else Some(ResourcesValue(BoxValue(r.value.limits), BoxValue(r.value.requests)))
  }

  method CopyResources(r: Box?<Resources>) returns (c: Box?<Resources>)
    ensures fresh(ResourcesRepr(c)) && ResourcesMeans(c) == ResourcesMeans(r)
  {
    if r == null {
      return null;
    }
    var limits := CopyBox(r.value.limits);
    var requests := CopyBox(r.value.requests);
    c := new Box(Resources(limits, requests));
  }

  ghost function SpecRepr(s: Spec): set<object>
    reads s.sidecarResources
  {
    SelectorRepr(s.targetSelector) + ResourcesRepr(s.sidecarResources) + SliceRepr(s.behaviors) + BoxRepr(s.advanced)
  }

  ghost function SpecMeans(s: Spec): SpecValue
    reads s.sidecarResources, SpecRepr(s)
  {
    SpecValue(SelectorMeans(s.targetSelector), s.sidecarImage, ResourcesMeans(s.sidecarResources), s.scriptVolume,
              SliceValue(s.behaviors), BoxValue(s.advanced))
  }

  method CopySpec(s: Spec) returns (c: Spec)
    ensures fresh(SpecRepr(c)) && SpecMeans(c) == SpecMeans(s)
  {
    var targetSelector := CopySelector(s.targetSelector);
    var behaviors := CopySlice(s.behaviors);
    var advanced := CopyBox(s.advanced);
    var sidecarResources := CopyResources(s.sidecarResources);
    c := Spec(targetSelector, s.sidecarImage, sidecarResources, s.scriptVolume, behaviors, advanced);
  }

  ghost function StatusRepr(s: Status): set<object> {
    BoxRepr(s.lastUpdateTime) + SliceRepr(s.conditions)
  }

  ghost function StatusMeans(s: Status): StatusValue
    reads StatusRepr(s)
  {
    StatusValue(s.phase, s.injectedPods, s.totalPods, BoxValue(s.lastUpdateTime), SliceValue(s.conditions))
  }

  method CopyStatus(s: Status) returns (c: Status)
    ensures fresh(StatusRepr(c)) && StatusMeans(c) == StatusMeans(s)
  {
    var lastUpdateTime := CopyBox(s.lastUpdateTime);
    var conditions := CopyConditions(s.conditions);
    c := Status(s.phase, s.injectedPods, s.totalPods, lastUpdateTime, conditions);
  }

  ghost function StubRepr(s: Stub): set<object>
    reads s.spec.sidecarResources
  {
    MetadataRepr(s.metadata) + SpecRepr(s.spec) + StatusRepr(s.status)
  }

  ghost function StubMeans(s: Stub): StubValue
    reads s.spec.sidecarResources, StubRepr(s)
  {
    StubValue(s.typeMeta, MetadataMeans(s.metadata), SpecMeans(s.spec), StatusMeans(s.status))
  }

  method CopyStub(s: Stub) returns (c: Stub)
    ensures fresh(StubRepr(c)) && StubMeans(c) == StubMeans(s)
  {
    var metadata := CopyMetadata(s.metadata);
    var status := CopyStatus(s.status);
    var spec := CopySpec(s.spec);
    c := Stub(s.typeMeta, metadata, spec, status);
  }

  // The meaning of a pointer or map, and of a slice, in full.
  predicate Same<T(==)>(b: Box?<T>, v: Option<T>)
    reads b
  {
    (b == null <==> v.None?) && (b != null ==> b.value == v.value)
  }

  predicate SameItems<T(==)>(a: array?<T>, v: Option<seq<T>>)
    reads a
  {
    && (a == null <==> v.None?)
    && (a != null ==> a.Length == |v.value| && forall k | 0 <= k < a.Length :: a[k] == v.value[k])
  }

  // The meaning of a specification has all of its fields, and its memory all that its
  // fields lead to.
  lemma SpecIsWhole(s: Spec)
    ensures
      var v := SpecMeans(s);
      && Same(s.targetSelector.matchLabels, v.selector.matchLabels)
      && SameItems(s.targetSelector.matchExpressions, v.selector.matchExpressions)
      && v.sidecarImage == s.sidecarImage && v.scriptVolume == s.scriptVolume
      && SameItems(s.behaviors, v.behaviors) && Same(s.advanced, v.advanced)
      && (s.sidecarResources == null <==> v.resources.None?)
      && (s.sidecarResources != null ==>
            && Same(s.sidecarResources.value.limits, v.resources.value.limits)
            && Same(s.sidecarResources.value.requests, v.resources.value.requests))
    ensures forall o: object? |
      || o == s.targetSelector.matchLabels || o == s.targetSelector.matchExpressions || o == s.sidecarResources
      || o == s.behaviors || o == s.advanced
      || (s.sidecarResources != null
          && (o == s.sidecarResources.value.limits || o == s.sidecarResources.value.requests)) ::
      o == null || o in SpecRepr(s)
  {
  }

  lemma StatusIsWhole(s: Status)
    ensures
      var v := StatusMeans(s);
      && v.phase == s.phase && v.injectedPods == s.injectedPods && v.totalPods == s.totalPods
      && Same(s.lastUpdateTime, v.lastUpdateTime) && SameItems(s.conditions, v.conditions)
    ensures forall o: object? | o == s.lastUpdateTime || o == s.conditions :: o == null || o in StatusRepr(s)
  {
  }

  lemma StubIsWhole(s: Stub)
    ensures
      var v := StubMeans(s);
      && v.typeMeta == s.typeMeta && v.metadata.rest == s.metadata.rest
      && Same(s.metadata.labels, v.metadata.labels) && Same(s.metadata.annotations, v.metadata.annotations)
      && v.spec == SpecMeans(s.spec) && v.status == StatusMeans(s.status)
    ensures SpecRepr(s.spec) + StatusRepr(s.status) <= StubRepr(s)
    ensures forall o: object? | o == s.metadata.labels || o == s.metadata.annotations :: o == null || o in StubRepr(s)
  {
  }

  /******* Through pointers *******/

  class BehaviorStubSpec {
    var value: Spec

    constructor (value: Spec)
      ensures this.value == value
    {
      this.value := value;
    }

    method DeepCopyInto(out: BehaviorStubSpec)
      modifies out
      ensures fresh(SpecRepr(out.value)) && SpecMeans(out.value) == old(SpecMeans(value))
    {
      var copy := CopySpec(value);
      out.value := copy;
    }

    method DeepCopy() returns (out: BehaviorStubSpec)
      ensures fresh(out) && fresh(SpecRepr(out.value)) && SpecMeans(out.value) == old(SpecMeans(value))
    {
      out := new BehaviorStubSpec(value);
      DeepCopyInto(out);
    }
  }

  class BehaviorStubStatus {
    var value: Status

    constructor (value: Status)
      ensures this.value == value
    {
      this.value := value;
    }

    method DeepCopyInto(out: BehaviorStubStatus)
      modifies out
      ensures fresh(StatusRepr(out.value)) && StatusMeans(out.value) == old(StatusMeans(value))
    {
      var copy := CopyStatus(value);
      out.value := copy;
    }

    method DeepCopy() returns (out: BehaviorStubStatus)
      ensures fresh(out) && fresh(StatusRepr(out.value)) && StatusMeans(out.value) == old(StatusMeans(value))
    {
      out := new BehaviorStubStatus(value);
      DeepCopyInto(out);
    }
  }

  class BehaviorStub {
    var value: Stub

    constructor (value: Stub)
      ensures this.value == value
    {
      this.value := value;
    }

    method DeepCopyInto(out: BehaviorStub)
      modifies out
      ensures fresh(StubRepr(out.value)) && StubMeans(out.value) == old(StubMeans(value))
    {
      var copy := CopyStub(value);
      out.value := copy;
    }

    /** A stub equal to this one, in memory that this one does not reach. */
    method DeepCopy() returns (out: BehaviorStub)
      ensures fresh(out) && fresh(StubRepr(out.value)) && StubMeans(out.value) == old(StubMeans(value))
    {
      out := new BehaviorStub(value);
      DeepCopyInto(out);
    }
  }

  /******* Lists *******/

  // The stubs have these meanings, each in memory of its own within footprint.
  ghost predicate Hold(stubs: seq<Stub>, values: seq<StubValue>, footprint: set<object>)
    requires |stubs| == |values|
    reads footprint
  {
    if stubs == [] then true else
      var n := |stubs| - 1;
      var stub := stubs[n];
      && (stub.spec.sidecarResources != null ==> stub.spec.sidecarResources in footprint)
      && StubRepr(stub) <= footprint && StubMeans(stub) == values[n]
      && Hold(stubs[..n], values[..n], footprint - StubRepr(stub))
  }

  lemma HoldLast(stubs: seq<Stub>, values: seq<StubValue>, footprint: set<object>, stub: Stub, rest: set<object>)
    requires |stubs| == |values| && stubs != [] && Hold(stubs, values, footprint) && stub == stubs[|stubs| - 1]
    requires rest == footprint - StubRepr(stub)
    ensures StubMeans(stub) == values[|stubs| - 1] && StubRepr(stub) <= footprint && rest <= footprint
    ensures Hold(stubs[..|stubs| - 1], values[..|stubs| - 1], rest)
  {
  }

  // The first k stubs hold within a part of the footprint.
  lemma {:induction false} HoldPrefix(stubs: seq<Stub>, values: seq<StubValue>, footprint: set<object>, k: nat)
    returns (part: set<object>)
    requires |stubs| == |values| && Hold(stubs, values, footprint) && k <= |stubs|
    ensures part <= footprint && Hold(stubs[..k], values[..k], part)
    decreases |stubs|
  {
    if k == |stubs| {
      TakeAll(stubs);
      TakeAll(values);
      part := footprint;
    } else {
      var n := |stubs| - 1;
      var rest := footprint - StubRepr(stubs[n]);
      HoldLast(stubs, values, footprint, stubs[n], rest);
      part := HoldPrefix(stubs[..n], values[..n], rest, k);
      TakeTake(stubs, k, n);
      TakeTake(values, k, n);
    }
  }

  // What Hold says of each stub, and of any two.
  lemma HoldEach(stubs: seq<Stub>, values: seq<StubValue>, footprint: set<object>, k: nat, stub: Stub)
    requires |stubs| == |values| && Hold(stubs, values, footprint) && k < |stubs| && stub == stubs[k]
    ensures StubMeans(stub) == values[k] && StubRepr(stub) <= footprint
  {
    var part := HoldPrefix(stubs, values, footprint, k + 1);
    HoldLast(stubs[..k + 1], values[..k + 1], part, stub, part - StubRepr(stub));
  }

  lemma HoldBefore(stubs: seq<Stub>, values: seq<StubValue>, footprint: set<object>, k: nat, stub: Stub)
    returns (rest: set<object>)
    requires |stubs| == |values| && Hold(stubs, values, footprint) && k < |stubs| && stub == stubs[k]
    ensures rest !! StubRepr(stub) && Hold(stubs[..k], values[..k], rest)
  {
    var part := HoldPrefix(stubs, values, footprint, k + 1);
    rest := part - StubRepr(stub);
    HoldLast(stubs[..k + 1], values[..k + 1], part, stub, rest);
    TakeTake(stubs, k, k + 1);
    TakeTake(values, k, k + 1);
  }

  lemma HoldApart(stubs: seq<Stub>, values: seq<StubValue>, footprint: set<object>, j: nat, k: nat, a: Stub, b: Stub)
    requires |stubs| == |values| && Hold(stubs, values, footprint) && j < k < |stubs| && a == stubs[j] && b == stubs[k]
    ensures StubRepr(a) !! StubRepr(b)
  {
    var rest := HoldBefore(stubs, values, footprint, k, b);
    HoldEach(stubs[..k], values[..k], rest, j, a);
  }

  lemma HoldOne(stubs: seq<Stub>, values: seq<StubValue>, footprint: set<object>, stub: Stub)
    requires |stubs| < |values| && Hold(stubs, values[..|stubs|], footprint)
    requires StubRepr(stub) !! footprint && StubMeans(stub) == values[|stubs|]
    ensures Hold(stubs + [stub], values[..|stubs| + 1], footprint + StubRepr(stub))
  {
    var n := |stubs|;
    assert (stubs + [stub])[..n] == stubs && values[..n + 1][..n] == values[..n];
    assert footprint + StubRepr(stub) - StubRepr(stub) == footprint;
  }

  ghost function ResourcesOf(stubs: seq<Stub>): set<object> {
    set s | s in stubs && s.spec.sidecarResources != null :: s.spec.sidecarResources as object
  }

  ghost function StubsRepr(stubs: seq<Stub>): set<object>
    reads ResourcesOf(stubs)
  {
    set s, o | s in stubs && o in StubRepr(s) :: o
  }

  // The stubs have these meanings, whatever they share with each other.
  ghost predicate Mean(stubs: seq<Stub>, values: seq<StubValue>)
    reads ResourcesOf(stubs), StubsRepr(stubs)
  {
    |stubs| == |values| && forall k | 0 <= k < |stubs| :: StubMeans(stubs[k]) == values[k]
  }

  // A deep copy of each item in turn.
  method CopyItems(items: seq<Stub>, ghost values: seq<StubValue>)
    returns (copies: seq<Stub>, ghost copied: set<object>)
    requires Mean(items, values)
    ensures |copies| == |values| && fresh(copied) && Hold(copies, values, copied)
  {
    assert values[..|items|] == values;
    copies, copied := [], {};
    for i := 0 to |items|
      invariant fresh(copied)
      invariant |copies| == i && Hold(copies, values[..i], copied)
    {
      assert StubMeans(items[i]) == values[i];
      var item := CopyStub(items[i]);
      HoldOne(copies, values, copied, item);
      copies, copied := copies + [item], copied + StubRepr(item);
    }
  }

  // make([]BehaviorStub, len) and the copies.
  method MakeItems(stubs: seq<Stub>) returns (items: array<Stub>)
    ensures fresh(items) && items[..] == stubs
  {
    items := new Stub[|stubs|](i requires 0 <= i < |stubs| => stubs[i]);
    assert items[..] == stubs;
  }

  datatype ListValue = ListValue(typeMeta: string, listMeta: string, items: Option<seq<StubValue>>)

  class BehaviorStubList {
    var typeMeta: string
    var listMeta: string
    var items: array?<Stub>

    constructor ()
    {
      typeMeta, listMeta, items := "", "", null;
    }

    ghost function Items(): seq<Stub>
      reads this, items
    {
      if items == null then [] else items[..]
    }

    // The list has this value.
    ghost predicate Means(v: ListValue)
      reads this, items, ResourcesOf(Items()), StubsRepr(Items())
    {
      && v.typeMeta == typeMeta && v.listMeta == listMeta && v.items.None? == (items == null)
      && Mean(Items(), if v.items.Some? then v.items.value else [])
    }

    // It has, and each of its items is alone in its memory, within footprint.
    ghost predicate Owns(v: ListValue, footprint: set<object>)
      reads this, items, footprint
    {
      && v.typeMeta == typeMeta && v.listMeta == listMeta && v.items.None? == (items == null)
      && (v.items.Some? ==> items.Length == |v.items.value| && Hold(items[..], v.items.value, footprint))
    }

    method DeepCopyInto(out: BehaviorStubList, ghost v: ListValue) returns (ghost copied: set<object>)
      requires Means(v)
      modifies out
      ensures out.Owns(v, copied) && fresh(copied) && (out.items == null || fresh(out.items))
      ensures out.typeMeta == old(typeMeta) && out.listMeta == old(listMeta)
      ensures if old(items) == null then out.items == null
              else out.items != null && out.items.Length == old(items.Length)
    {
      copied := {};
      var newItems: array?<Stub> := null;
      if items != null {
        var copies;
        copies, copied := CopyItems(items[..], v.items.value);
        newItems := MakeItems(copies);
      }
      out.typeMeta, out.listMeta, out.items := typeMeta, listMeta, newItems;
    }

    /** A list equal to this one, in memory that this one does not reach. */
    method DeepCopy(ghost v: ListValue) returns (out: BehaviorStubList, ghost copied: set<object>)
      requires Means(v)
      ensures fresh(out) && out.Owns(v, copied) && fresh(copied) && (out.items == null || fresh(out.items))
      ensures out.typeMeta == old(typeMeta) && out.listMeta == old(listMeta)
      ensures if old(items) == null then out.items == null
              else out.items != null && out.items.Length == old(items.Length)
    {
      out := new BehaviorStubList();
      copied := DeepCopyInto(out, v);
    }
  }
}
