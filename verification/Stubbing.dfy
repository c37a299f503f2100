/**
 End to end: what a business container runs when it calls a command, after the
 webhook injected its pod and the sidecar published the stub's behaviours.
 */
module Stubbing {
  import opened Fs
  import opened Publish
  import opened Attempts
  import opened Copier
  import opened CommandNames
  import opened Sidecar
  import opened PathLookup
  import opened Options
  import opened Pods
  import opened Webhook

  // The container's files: its image, with the shared volume mounted over one directory.
  function Mounted(image: Files, shared: View): Files {
    (path: string) =>
      var dir := SHARED_DIR + "/";
      if dir <= path then
        var n := path[|dir|..];
        if n in shared then File(shared[n]) else Missing
      else image(path)
  }

  lemma SharedFile(image: Files, shared: View, cmd: string)
    ensures Mounted(image, shared)(Pathname(SHARED_DIR, cmd)) ==
      if cmd in shared then File(shared[cmd]) else Missing
  {
    var p, dir := Pathname(SHARED_DIR, cmd), SHARED_DIR + "/";
    assert p == dir + cmd && p[|dir|..] == cmd;
  }

  // No element of path leads below the shared directory.
  predicate AvoidsShared(path: string, cmd: string) {
    forall p | p in Prefixes(path) :: !("/dynastub/bin/" <= Pathname(p, cmd))
  }

  lemma {:induction false} SearchOutsideShared(image: Files, shared: View, prefixes: seq<string>, cmd: string)
    requires forall p | p in prefixes :: !("/dynastub/bin/" <= Pathname(p, cmd))
    ensures Search(Mounted(image, shared), prefixes, cmd) == Search(image, prefixes, cmd)
    decreases |prefixes|
  {
    if prefixes != [] {
      assert prefixes[0] in prefixes;
      SearchOutsideShared(image, shared, prefixes[1..], cmd);
    }
  }

  // The mount hides nothing of the image outside the shared directory.
  lemma LookupOutsideShared(image: Files, shared: View, path: string, cmd: string)
    requires '/' !in cmd && AvoidsShared(path, cmd)
    ensures Lookup(Mounted(image, shared), path, cmd) == Lookup(image, path, cmd)
  {
    SearchOutsideShared(image, shared, Prefixes(path), cmd);
  }

  // An element leads below the shared directory only if it is that directory or in it.
  lemma LeadsBelow(p: string, cmd: string)
    requires '/' !in cmd && "/dynastub/bin/" <= Pathname(p, cmd)
    ensures "/dynastub/bin" <= p
  {
    var full, dir := Pathname(p, cmd), "/dynastub/bin/";
    var n := |full| - |cmd|;
    assert full[n..] == cmd && full[|dir| - 1] == '/';
    assert full[..|dir| - 1] == dir[..|dir| - 1];
    assert p[..|dir| - 1] == full[..|dir| - 1];
  }

  lemma AvoidsUnlessWithin(path: string, cmd: string)
    requires '/' !in cmd && forall p | p in Prefixes(path) :: !("/dynastub/bin" <= p)
    ensures AvoidsShared(path, cmd)
  {
    forall p | p in Prefixes(path) && "/dynastub/bin/" <= Pathname(p, cmd)
      ensures "/dynastub/bin" <= p
    {
      LeadsBelow(p, cmd);
    }
  }

  // The containers whose PATH the injection puts the shared directory in front of.
  predicate Stubbable(c: Container) {
    c.name != SIDECAR_NAME && (NoPath(c.env) || HasLiteralPath(c.env))
  }

  // The PATH that lookups fall back to.
  function RestOfPath(c: Container, imagePath: string): string {
    if NoPath(c.env) then DEFAULT_PATH else EffectivePath(c.env, imagePath)
  }

  // What cmd runs in an injected container.
  function Resolves(after: Container, image: Files, imagePath: string, shared: View, cmd: string): Found {
    Lookup(Mounted(image, shared), EffectivePath(after.env, imagePath), cmd)
  }

  // A command published with mode 0755 is run; any other resolves as it would have on
  // the rest of the PATH.
  lemma InjectedLookup(c: Container, after: Container, image: Files, imagePath: string, shared: View, cmd: string)
    requires Stubbable(c) && ContainerInjected(c, after) && '/' !in cmd
    ensures Resolves(after, image, imagePath, shared, cmd) ==
      if cmd in shared && Executable(shared[cmd].mode) then File(shared[cmd])
      else Lookup(Mounted(image, shared), RestOfPath(c, imagePath), cmd)
  {
    PathAfterInjection(c, after, imagePath);
    PrependKeepsMeaning(Mounted(image, shared), SHARED_DIR, RestOfPath(c, imagePath), cmd);
    SharedFile(image, shared, cmd);
  }

  lemma PublishedScriptRuns(c: Container, after: Container, image: Files, imagePath: string, shared: View,
                            cmd: string, data: Bytes)
    requires Stubbable(c) && ContainerInjected(c, after) && '/' !in cmd
    requires cmd in shared && shared[cmd] == Script(data)
    ensures Resolves(after, image, imagePath, shared, cmd) == File(Script(data))
  {
    InjectedLookup(c, after, image, imagePath, shared, cmd);
    ScriptIsExecutable(data);
  }

  lemma ScriptIsExecutable(data: Bytes)
    ensures Executable(Script(data).mode)
  {
    assert EXEC_MODE % 2 == 1;
  }

  /**
   End-to-end stubbing: in every business container with at most one PATH entry and that
   one literal, a command runs the script of the last listed behaviour for it whose copy
   succeeds, whatever the shared directory held before, whenever no command is another
   one's temporary name.
   */
  lemma StubbedCommandRunsScript(
    spec: PodSpec, stub: Stub, injected: PodSpec, i: nat, image: Files, imagePath: string,
    v: View, src: Source, behaviors: seq<Behavior>, fates: nat -> Fate, attempts: seq<Attempt>, k: nat)
    requires SpecInjected(spec, stub, injected) && i < |spec.containers| && Stubbable(spec.containers[i])
    requires SourceOk(src) && BehaviorReports(src, behaviors, fates, attempts)
    requires NoClash(Commands(behaviors)) && LastListed(src, behaviors, fates, k)
    ensures
      var cmd := CommandName(behaviors[k].targetPath);
      Resolves(injected.containers[i], image, imagePath, Fold(v, attempts), cmd)
        == File(Script(Contents(src, behaviors[k].scriptPath)))
  {
    var cmd := CommandName(behaviors[k].targetPath);
    CommandHoldsLastListed(v, src, behaviors, fates, attempts, k);
    ProperHasNoSlash(behaviors[k].targetPath);
    assert ContainerInjected(spec.containers[i], injected.containers[i]);
    PublishedScriptRuns(spec.containers[i], injected.containers[i], image, imagePath, Fold(v, attempts), cmd,
                        Contents(src, behaviors[k].scriptPath));
  }

  // With dot-free targets there is no clash, and the stubbed command is the target's
  // base name.
  lemma DotFreeTargetIsStubbed(
    spec: PodSpec, stub: Stub, injected: PodSpec, i: nat, image: Files, imagePath: string,
    v: View, src: Source, behaviors: seq<Behavior>, fates: nat -> Fate, attempts: seq<Attempt>, k: nat)
    requires SpecInjected(spec, stub, injected) && i < |spec.containers| && Stubbable(spec.containers[i])
    requires SourceOk(src) && BehaviorReports(src, behaviors, fates, attempts)
    requires (forall b | b in behaviors :: '.' !in Base(b.targetPath)) && LastListed(src, behaviors, fates, k)
    ensures Resolves(injected.containers[i], image, imagePath, Fold(v, attempts), Base(behaviors[k].targetPath))
        == File(Script(Contents(src, behaviors[k].scriptPath)))
  {
    DotFreeNeverClashes(behaviors);
    assert behaviors[k] in behaviors;
    CommandNameAgrees(behaviors[k].targetPath);
    StubbedCommandRunsScript(spec, stub, injected, i, image, imagePath, v, src, behaviors, fates, attempts, k);
  }

  /**
   Other commands: one that no behaviour publishes, and that the shared directory did not
   hold before, resolves as in the image, on the PATH that the container sets, or on the
   default PATH when it sets none.
   */
  lemma UnstubbedCommandUnchanged(
    spec: PodSpec, stub: Stub, injected: PodSpec, i: nat, image: Files, imagePath: string,
    v: View, src: Source, behaviors: seq<Behavior>, fates: nat -> Fate, attempts: seq<Attempt>, cmd: string)
    requires SpecInjected(spec, stub, injected) && i < |spec.containers| && Stubbable(spec.containers[i])
    requires SourceOk(src) && BehaviorReports(src, behaviors, fates, attempts)
    requires NoClash(Commands(behaviors)) && cmd !in TempsOf(Commands(behaviors)) && '/' !in cmd && cmd !in v
    requires forall k | 0 <= k < |behaviors| && CommandName(behaviors[k].targetPath) == cmd ::
      !BehaviorSucceeds(src, behaviors[k], fates(k))
    ensures
      var shared := Fold(v, attempts);
      var path := if forall k | 0 <= k < |spec.containers[i].env| :: spec.containers[i].env[k].name != "PATH"
                  then "/usr/local/sbin:/usr/local/bin:/usr/sbin:/usr/bin:/sbin:/bin"
                  else EffectivePath(spec.containers[i].env, imagePath);
      var found := Resolves(injected.containers[i], image, imagePath, shared, cmd);
      && found == Lookup(Mounted(image, shared), path, cmd)
      && (AvoidsShared(path, cmd) ==> found == Lookup(image, path, cmd))
  {
    UnpublishedNameKept(v, src, behaviors, fates, attempts, cmd);
    assert ContainerInjected(spec.containers[i], injected.containers[i]);
    InjectedLookup(spec.containers[i], injected.containers[i], image, imagePath, Fold(v, attempts), cmd);
    var path := RestOfPath(spec.containers[i], imagePath);
    if AvoidsShared(path, cmd) {
      LookupOutsideShared(image, Fold(v, attempts), path, cmd);
    }
  }
}
