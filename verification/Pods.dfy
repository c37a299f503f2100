/** Pods and stubs, as far as the webhook and the controller look at them. */
module Pods {
  import opened Options

  const SIDECAR_NAME := "dynastub-sidecar"

  // from: what a reference to a field, config map or secret resolves to.
  datatype EnvVar = EnvVar(name: string, value: string, from: Option<string>)
  datatype VolumeMount = VolumeMount(name: string, mountPath: string, readOnly: bool)
  datatype Volume = EmptyDir(name: string) | HostPath(name: string, path: string) | OtherVolume(name: string)
  datatype Resources = Resources(limits: map<string, string>, requests: map<string, string>)

  // rest: every other field.
  datatype Container = Container(
    name: string, image: string, pullPolicy: string, mounts: seq<VolumeMount>, env: seq<EnvVar>,
    resources: Option<Resources>, restartAlways: bool, rest: string)

  datatype PodSpec = PodSpec(volumes: seq<Volume>, initContainers: seq<Container>, containers: seq<Container>)

  type Labels = map<string, string>
  datatype Selector = Selector(text: string)

  // The library that evaluates selectors: a selector may be invalid.
  datatype Verdict = Invalid | Matches | Differs
  type Matcher = (Selector, Labels) -> Verdict

  datatype Stub = Stub(
    name: string, namespace: string, selector: Selector, sidecarImage: string,
    resources: Option<Resources>, hostPath: string, mountPath: string)

  predicate HasSidecar(containers: seq<Container>) {
    exists i :: 0 <= i < |containers| && containers[i].name == SIDECAR_NAME
  }

  // A container of that name, among the containers or the init containers.
  predicate IsInjected(spec: PodSpec) {
    HasSidecar(spec.containers) || HasSidecar(spec.initContainers)
  }
}
