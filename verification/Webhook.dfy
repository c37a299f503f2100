/**
 The pod webhook: finds the first stub whose selector matches a pod and injects the
 sidecar, its volumes, and the shared directory at the front of every PATH.
 */
module Webhook {
  import opened PathLookup
  import opened Options
  import opened Pods

  const SHARED_VOLUME := "dynastub-shared"
  const SCRIPTS_VOLUME := "dynastub-scripts"
  const SHARED_DIR := "/dynastub/bin"
  const DEFAULT_IMAGE := "dynastub-sidecar:latest"
  const DEFAULT_PATH := "/usr/local/sbin:/usr/local/bin:/usr/sbin:/usr/bin:/sbin:/bin"

  predicate AcceptedBy(match_: Matcher, stub: Stub, labels: Labels) {
    match_(stub.selector, labels).Matches?
  }

  // Stub i is the first whose selector is valid and matches.
  predicate FirstMatch(match_: Matcher, stubs: seq<Stub>, labels: Labels, i: nat) {
    && i < |stubs| && AcceptedBy(match_, stubs[i], labels)
    && forall j | 0 <= j < i :: !AcceptedBy(match_, stubs[j], labels)
  }

  // The stub that the webhook acts on.
  function FirstMatching(match_: Matcher, stubs: seq<Stub>, labels: Labels): (found: Option<Stub>)
    ensures found.None? <==> forall j | 0 <= j < |stubs| :: !AcceptedBy(match_, stubs[j], labels)
    ensures forall i | 0 <= i < |stubs| && FirstMatch(match_, stubs, labels, i) :: found == Some(stubs[i])
  {
    if stubs == [] then None
    else
      var init, last := stubs[..|stubs| - 1], stubs[|stubs| - 1];
      var before := FirstMatching(match_, init, labels);
      assert forall i | 0 <= i < |init| && FirstMatch(match_, stubs, labels, i) :: FirstMatch(match_, init, labels, i);
      if before.Some? then before
      else if AcceptedBy(match_, last, labels) then Some(last) else None
  }

  method FindMatchingBehaviorStub(match_: Matcher, stubs: seq<Stub>, labels: Labels)
    returns (found: Option<Stub>)
    ensures found == FirstMatching(match_, stubs, labels)
    ensures found.None? ==> forall k | 0 <= k < |stubs| :: match_(stubs[k].selector, labels) != Matches
    ensures found.Some? ==> exists k ::
      && 0 <= k < |stubs| && found.value == stubs[k] && match_(stubs[k].selector, labels) == Matches
      && forall j | 0 <= j < k :: match_(stubs[j].selector, labels) != Matches
  {
    for i := 0 to |stubs|
      invariant forall j | 0 <= j < i :: !AcceptedBy(match_, stubs[j], labels)
    {
      var verdict := match_(stubs[i].selector, labels);
      if verdict.Invalid? {
        continue;
      }
      if verdict.Matches? {
        assert FirstMatch(match_, stubs, labels, i);
        return Some(stubs[i]);
      }
    }
    return None;
  }

  /******* The injection *******/

  function SharedMount(readOnly: bool): VolumeMount {
    VolumeMount(SHARED_VOLUME, SHARED_DIR, readOnly)
  }

  function Literal(name: string, value: string): EnvVar {
    EnvVar(name, value, None)
  }

  function SidecarContainer(stub: Stub): Container {
    Container(
      SIDECAR_NAME, if stub.sidecarImage == "" then DEFAULT_IMAGE else stub.sidecarImage, "IfNotPresent",
      [SharedMount(false), VolumeMount(SCRIPTS_VOLUME, stub.mountPath, true)],
      [Literal("BEHAVIOR_STUB_NAME", stub.name), Literal("BEHAVIOR_STUB_NAMESPACE", stub.namespace),
       Literal("SHARED_DIR", SHARED_DIR), Literal("SCRIPT_MOUNT_PATH", stub.mountPath)],
      stub.resources, true, "")
  }

  // Entry j is the first PATH entry of env.
  predicate FirstPath(env: seq<EnvVar>, j: nat) {
    j < |env| && env[j].name == "PATH" && forall k | 0 <= k < j :: env[k].name != "PATH"
  }

  predicate NoPath(env: seq<EnvVar>) {
    forall k | 0 <= k < |env| :: env[k].name != "PATH"
  }

  // env with the shared directory in front of its first PATH entry, or with a new one.
  predicate PathPrepended(env: seq<EnvVar>, after: seq<EnvVar>) {
    && (NoPath(env) ==> after == env + [Literal("PATH", Prepend(SHARED_DIR, DEFAULT_PATH))])
    && (forall j | 0 <= j < |env| && FirstPath(env, j) ::
          after == env[j := env[j].(value := Prepend(SHARED_DIR, env[j].value))])
  }

  // after is c with one more mount and its PATH prepended, and nothing else changed; a
  // container that bears the sidecar's name is left alone.
  predicate ContainerInjected(c: Container, after: Container) {
    if c.name == SIDECAR_NAME then after == c
    else
      && PathPrepended(c.env, after.env)
      && after == c.(mounts := c.mounts + [SharedMount(true)], env := after.env)
  }

  // The exact edit: two volumes and the sidecar appended, each container injected in
  // its place.
  predicate SpecInjected(spec: PodSpec, stub: Stub, after: PodSpec) {
    && after.volumes == spec.volumes + [EmptyDir(SHARED_VOLUME), HostPath(SCRIPTS_VOLUME, stub.hostPath)]
    && after.initContainers == spec.initContainers + [SidecarContainer(stub)]
    && |after.containers| == |spec.containers|
    && forall i | 0 <= i < |spec.containers| :: ContainerInjected(spec.containers[i], after.containers[i])
  }

  class Pod {
    const namespace: string
    const labels: Labels
    var volumes: seq<Volume>
    var initContainers: seq<Container>
    var containers: seq<Container>

    constructor (namespace: string, labels: Labels, spec: PodSpec)
      ensures this.namespace == namespace && this.labels == labels && Spec() == spec
    {
      this.namespace, this.labels := namespace, labels;
      volumes, initContainers, containers := spec.volumes, spec.initContainers, spec.containers;
    }

    function Spec(): PodSpec
      reads this
    {
      PodSpec(volumes, initContainers, containers)
    }
  }

  // The index of the first PATH entry, or the length of env.
  function PathIndex(env: seq<EnvVar>): (j: nat)
    ensures j <= |env|
    ensures j < |env| ==> FirstPath(env, j)
    ensures j == |env| ==> NoPath(env)
  {
    if env == [] then 0
    else if env[0].name == "PATH" then 0
    else PathIndex(env[1..]) + 1
  }

  method PrependPath(env: seq<EnvVar>) returns (after: seq<EnvVar>)
    ensures PathPrepended(env, after)
  {
    var originalPath := DEFAULT_PATH;
    for j := 0 to |env|
      invariant forall k | 0 <= k < j :: env[k].name != "PATH"
    {
      if env[j].name == "PATH" {
        originalPath := env[j].value;
        return env[j := env[j].(value := Prepend(SHARED_DIR, originalPath))];
      }
    }
    return env + [Literal("PATH", Prepend(SHARED_DIR, originalPath))];
  }

  /** Injects the sidecar of stub into pod. */
  method InjectSidecar(pod: Pod, stub: Stub)
    modifies pod
    ensures SpecInjected(old(pod.Spec()), stub, pod.Spec())
  {
    ghost var spec := pod.Spec();
    pod.volumes := pod.volumes + [EmptyDir(SHARED_VOLUME)];
    pod.volumes := pod.volumes + [HostPath(SCRIPTS_VOLUME, stub.hostPath)];
    pod.initContainers := pod.initContainers + [SidecarContainer(stub)];
    for i := 0 to |pod.containers|
      invariant |pod.containers| == |spec.containers|
      invariant pod.volumes == spec.volumes + [EmptyDir(SHARED_VOLUME), HostPath(SCRIPTS_VOLUME, stub.hostPath)]
      invariant pod.initContainers == spec.initContainers + [SidecarContainer(stub)]
      invariant forall k | 0 <= k < i :: ContainerInjected(spec.containers[k], pod.containers[k])
      invariant forall k | i <= k < |pod.containers| :: pod.containers[k] == spec.containers[k]
    {
      var c := pod.containers[i];
      if c.name == SIDECAR_NAME {
        continue;
      }
      c := c.(mounts := c.mounts + [SharedMount(true)]);
      var env := PrependPath(c.env);
      pod.containers := pod.containers[i := c.(env := env)];
    }
  }

  datatype Response = Errored(code: nat) | Allowed | Patched(spec: PodSpec)

  // Admission of a pod. decoded, listed and encoded tell whether the decoder, the API and
  // the encoder do their work.
  method Handle(match_: Matcher, decoded: bool, pod: Pod, listed: bool, stubs: seq<Stub>, encoded: bool)
    returns (r: Response)
    modifies pod
    ensures !decoded ==> r == Errored(400)
    ensures decoded && !listed ==> r == Errored(500)
    ensures decoded && listed ==>
      match FirstMatching(match_, stubs, pod.labels)
      case None => r == Allowed
      case Some(stub) =>
        && SpecInjected(old(pod.Spec()), stub, pod.Spec())
        && if encoded then r == Patched(pod.Spec()) && IsInjected(pod.Spec()) else r == Errored(500)
    ensures !decoded || !listed || r.Allowed? ==> unchanged(pod)
  {
    if !decoded {
      return Errored(400);
    }
    if !listed {
      return Errored(500);
    }
    var found := FindMatchingBehaviorStub(match_, stubs, pod.labels);
    if found.None? {
      return Allowed;
    }
    ghost var spec := pod.Spec();
    InjectSidecar(pod, found.value);
    if !encoded {
      return Errored(500);
    }
    InjectedIsSeen(spec, found.value, pod.Spec());
    return Patched(pod.Spec());
  }

  // The controller recognises every injected pod.
  lemma InjectedIsSeen(spec: PodSpec, stub: Stub, after: PodSpec)
    requires SpecInjected(spec, stub, after)
    ensures IsInjected(after)
  {
    assert after.initContainers[|spec.initContainers|].name == SIDECAR_NAME;
  }

  function InjectContainer(c: Container): (after: Container)
    ensures ContainerInjected(c, after)
  {
    var j := PathIndex(c.env);
    if c.name == SIDECAR_NAME then c
    else
      c.(mounts := c.mounts + [SharedMount(true)],
         env := if j < |c.env| then c.env[j := c.env[j].(value := Prepend(SHARED_DIR, c.env[j].value))]
                else c.env + [Literal("PATH", Prepend(SHARED_DIR, DEFAULT_PATH))])
  }

  function InjectSpec(spec: PodSpec, stub: Stub): (after: PodSpec)
    ensures SpecInjected(spec, stub, after)
  {
    PodSpec(
      spec.volumes + [EmptyDir(SHARED_VOLUME), HostPath(SCRIPTS_VOLUME, stub.hostPath)],
      spec.initContainers + [SidecarContainer(stub)],
      seq(|spec.containers|, i requires 0 <= i < |spec.containers| => InjectContainer(spec.containers[i])))
  }

  // The exact edit leaves nothing open: it has one result.
  lemma InjectionIsDetermined(spec: PodSpec, stub: Stub, a: PodSpec, b: PodSpec)
    requires SpecInjected(spec, stub, a) && SpecInjected(spec, stub, b)
    ensures a == b
  {
    forall i | 0 <= i < |spec.containers|
      ensures a.containers[i] == b.containers[i]
    {
      var env := spec.containers[i].env;
      assert PathIndex(env) < |env| ==> FirstPath(env, PathIndex(env));
      assert ContainerInjected(spec.containers[i], a.containers[i]);
      assert ContainerInjected(spec.containers[i], b.containers[i]);
    }
  }

  /******* What a container's commands resolve to *******/

  // Of several entries with one name the last counts; without a PATH entry the image's
  // own PATH does. A reference takes the place of the literal value.
  function EffectivePath(env: seq<EnvVar>, imagePath: string): string {
    if env == [] then imagePath
    else
      var last := env[|env| - 1];
      if last.name != "PATH" then EffectivePath(env[..|env| - 1], imagePath)
      else if last.from.Some? then last.from.value
      else last.value
  }

  // The only PATH entry is j.
  predicate OnlyPath(env: seq<EnvVar>, j: nat) {
    FirstPath(env, j) && forall k | j < k < |env| :: env[k].name != "PATH"
  }

  // One PATH entry, with a literal value.
  predicate HasLiteralPath(env: seq<EnvVar>) {
    exists j :: 0 <= j < |env| && OnlyPath(env, j) && env[j].from.None?
  }

  lemma {:induction false} EffectiveAtLast(env: seq<EnvVar>, imagePath: string, l: nat)
    requires l < |env| && env[l].name == "PATH" && forall k | l < k < |env| :: env[k].name != "PATH"
    ensures EffectivePath(env, imagePath) == if env[l].from.Some? then env[l].from.value else env[l].value
    decreases |env|
  {
    if l < |env| - 1 {
      EffectiveAtLast(env[..|env| - 1], imagePath, l);
    }
  }

  lemma {:induction false} EffectiveNone(env: seq<EnvVar>, imagePath: string)
    requires NoPath(env)
    ensures EffectivePath(env, imagePath) == imagePath
    decreases |env|
  {
    if env != [] {
      EffectiveNone(env[..|env| - 1], imagePath);
    }
  }

  // An entry before the last PATH entry has no say.
  lemma {:induction false} EffectiveIgnoresEarlier(env: seq<EnvVar>, imagePath: string, j: nat, e: EnvVar, l: nat)
    requires j < l < |env| && env[l].name == "PATH"
    ensures EffectivePath(env[j := e], imagePath) == EffectivePath(env, imagePath)
    decreases |env|
  {
    var init := env[..|env| - 1];
    if env[|env| - 1].name != "PATH" {
      EffectiveIgnoresEarlier(init, imagePath, j, e, l);
      assert env[j := e][..|env| - 1] == init[j := e];
    }
  }

  /**
   What the rewriting does to the PATH a business container runs with: with one literal
   PATH entry, the shared directory comes in front of it; with none, the image's own
   PATH is replaced by the default with the shared directory in front; otherwise, with
   several entries or a reference, nothing changes.
   */
  lemma PathAfterInjection(c: Container, after: Container, imagePath: string)
    requires c.name != SIDECAR_NAME && ContainerInjected(c, after)
    ensures EffectivePath(after.env, imagePath) ==
      if NoPath(c.env) then Prepend(SHARED_DIR, DEFAULT_PATH)
      else if HasLiteralPath(c.env) then Prepend(SHARED_DIR, EffectivePath(c.env, imagePath))
      else EffectivePath(c.env, imagePath)
  {
    var env, j := c.env, PathIndex(c.env);
    if NoPath(env) {
      EffectiveAtLast(after.env, imagePath, |env|);
    } else {
      var e := env[j].(value := Prepend(SHARED_DIR, env[j].value));
      assert FirstPath(env, j) && after.env == env[j := e];
      if OnlyPath(env, j) {
        EffectiveAtLast(env, imagePath, j);
        EffectiveAtLast(after.env, imagePath, j);
        assert HasLiteralPath(env) <==> env[j].from.None? by {
          forall k | 0 <= k < |env| && OnlyPath(env, k) ensures k == j { }
        }
      } else {
        var l :| j < l < |env| && env[l].name == "PATH";
        EffectiveIgnoresEarlier(env, imagePath, j, e, l);
        assert !HasLiteralPath(env);
      }
    }
  }

  /**
   The injection puts the shared directory in front of what the container would have
   used, and changes nothing else of its PATH, exactly when it has one PATH entry with
   a literal value, or none and an image whose PATH is the default.
   */
  lemma RewritingIsFaithfulExactly(c: Container, after: Container, imagePath: string)
    requires c.name != SIDECAR_NAME && ContainerInjected(c, after)
    ensures
      EffectivePath(after.env, imagePath) == Prepend(SHARED_DIR, EffectivePath(c.env, imagePath))
      <==> HasLiteralPath(c.env) || (NoPath(c.env) && imagePath == DEFAULT_PATH)
  {
    PathAfterInjection(c, after, imagePath);
    var p := EffectivePath(c.env, imagePath);
    assert |Prepend(SHARED_DIR, p)| > |p|;
    if NoPath(c.env) {
      EffectiveNone(c.env, imagePath);
      PrependInjective(imagePath, DEFAULT_PATH);
    }
  }

  // Two ways to miss the shared directory or the image's tools: a second PATH entry
  // wins, and a PATH that only the image sets is dropped.
  lemma RewritingMisses(c: Container, after: Container)
    requires c.name != SIDECAR_NAME && ContainerInjected(c, after)
    ensures c.env == [Literal("PATH", "/bin"), Literal("PATH", "/opt/bin")] ==>
      EffectivePath(after.env, "") == "/opt/bin"
    ensures c.env == [] ==> EffectivePath(after.env, "/opt/bin") == Prepend(SHARED_DIR, DEFAULT_PATH)
  {
    PathAfterInjection(c, after, "/opt/bin");
    if c.env == [Literal("PATH", "/bin"), Literal("PATH", "/opt/bin")] {
      EffectiveIgnoresEarlier(c.env, "", 0, after.env[0], 1);
      assert FirstPath(c.env, 0);
    }
  }

  lemma PrependInjective(p: string, q: string)
    ensures Prepend(SHARED_DIR, p) == Prepend(SHARED_DIR, q) <==> p == q
  {
    var n := |SHARED_DIR| + 1;
    assert p == Prepend(SHARED_DIR, p)[n..] && q == Prepend(SHARED_DIR, q)[n..];
  }

  // The API server takes an entry with a reference only if its literal value is empty.
  predicate Admissible(env: seq<EnvVar>) {
    forall k | 0 <= k < |env| && env[k].from.Some? :: env[k].value == ""
  }

  // An admissible container stays admissible exactly when its first PATH entry, if it
  // has one, is not a reference: the rewriting gives that entry a literal value too.
  lemma AdmissibleAfterExactly(c: Container, after: Container)
    requires c.name != SIDECAR_NAME && ContainerInjected(c, after) && Admissible(c.env)
    ensures Admissible(after.env) <==>
      NoPath(c.env) || exists j :: 0 <= j < |c.env| && FirstPath(c.env, j) && c.env[j].from.None?
  {
    var j := PathIndex(c.env);
    if !NoPath(c.env) {
      assert FirstPath(c.env, j);
      assert after.env[j].from == c.env[j].from && after.env[j].value != "";
      if c.env[j].from.None? {
        assert forall k | 0 <= k < |c.env| && k != j :: after.env[k] == c.env[k];
      }
    }
  }
}
