/**
 What an injected pod is wired like: the sidecar publishes into the directory that leads
 the PATH of every business container, and reads where the stub's scripts are mounted.
 */
module Wiring {
  import opened Options
  import opened PathLookup
  import opened Pods
  import opened Webhook

  // A container's variable has this literal value, and no entry says otherwise.
  predicate Sets(env: seq<EnvVar>, name: string, value: string) {
    && EnvVar(name, value, None) in env
    && forall e | e in env && e.name == name :: e == EnvVar(name, value, None)
  }

  /**
   The sidecar: it may write to the volume whose path is its SHARED_DIR and reads from the
   stub's host directory at the path that is its SCRIPT_MOUNT_PATH; it knows its stub, and
   its image, resources and restart policy are the stub's or the defaults.
   */
  lemma SidecarIsWired(spec: PodSpec, stub: Stub, after: PodSpec)
    requires SpecInjected(spec, stub, after)
    ensures
      && after.volumes
         == spec.volumes + [EmptyDir("dynastub-shared"), HostPath("dynastub-scripts", stub.hostPath)]
      && |after.initContainers| == |spec.initContainers| + 1 && spec.initContainers <= after.initContainers
      && var sidecar := after.initContainers[|spec.initContainers|];
      && sidecar.name == "dynastub-sidecar"
      && sidecar.image == (if stub.sidecarImage == "" then "dynastub-sidecar:latest" else stub.sidecarImage)
      && sidecar.pullPolicy == "IfNotPresent" && sidecar.resources == stub.resources && sidecar.restartAlways
      && |sidecar.mounts| == 2 && |sidecar.env| == 4
      && VolumeMount("dynastub-shared", "/dynastub/bin", false) in sidecar.mounts
      && Sets(sidecar.env, "SHARED_DIR", "/dynastub/bin")
      && VolumeMount("dynastub-scripts", stub.mountPath, true) in sidecar.mounts
      && Sets(sidecar.env, "SCRIPT_MOUNT_PATH", stub.mountPath)
      && Sets(sidecar.env, "BEHAVIOR_STUB_NAME", stub.name)
      && Sets(sidecar.env, "BEHAVIOR_STUB_NAMESPACE", stub.namespace)
  {
    var sidecar := after.initContainers[|spec.initContainers|];
    assert sidecar == SidecarContainer(stub);
    assert sidecar.mounts[0] == VolumeMount("dynastub-shared", "/dynastub/bin", false);
    assert sidecar.mounts[1] == VolumeMount("dynastub-scripts", stub.mountPath, true);
    assert sidecar.env[0] == EnvVar("BEHAVIOR_STUB_NAME", stub.name, None);
    assert sidecar.env[1] == EnvVar("BEHAVIOR_STUB_NAMESPACE", stub.namespace, None);
    assert sidecar.env[2] == EnvVar("SHARED_DIR", "/dynastub/bin", None);
    assert sidecar.env[3] == EnvVar("SCRIPT_MOUNT_PATH", stub.mountPath, None);
  }

  // Where env has its first PATH entry, or its length.
  predicate PathAt(env: seq<EnvVar>, j: nat) {
    j <= |env| && (j < |env| ==> env[j].name == "PATH") && forall k | 0 <= k < j :: env[k].name != "PATH"
  }

  /**
   The business containers: each mounts that volume read-only at that path, which leads
   its first PATH entry, or the one it is given; nothing else of it changes. A container
   that bears the sidecar's name is left alone.
   */
  lemma ContainersAreWired(spec: PodSpec, stub: Stub, after: PodSpec, i: nat, j: nat)
    requires SpecInjected(spec, stub, after) && i < |spec.containers| && PathAt(spec.containers[i].env, j)
    ensures
      && |after.containers| == |spec.containers|
      && var c := spec.containers[i];
      after.containers[i] ==
        if c.name == "dynastub-sidecar" then c
        else
          c.(mounts := c.mounts + [VolumeMount("dynastub-shared", "/dynastub/bin", true)],
             env := if j < |c.env| then c.env[j := c.env[j].(value := "/dynastub/bin:" + c.env[j].value)]
                    else c.env + [EnvVar("PATH",
                      "/dynastub/bin:" + "/usr/local/sbin:/usr/local/bin:/usr/sbin:/usr/bin:/sbin:/bin", None)])
  {
    var c := spec.containers[i];
    assert ContainerInjected(c, after.containers[i]);
    if j < |c.env| {
      assert FirstPath(c.env, j);
      assert Prepend(SHARED_DIR, c.env[j].value) == "/dynastub/bin:" + c.env[j].value;
    } else {
      assert NoPath(c.env);
      assert SHARED_DIR + ":" == "/dynastub/bin:";
    }
  }
}
