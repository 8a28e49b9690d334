/** The operator's pass: get, create or update with partial drift checks, from any cluster state. */
module Operator {
  import opened Common

  /** A StatefulSet or Deployment spec: the two compared fields and `rest`, everything that is built from
      the operator spec but not compared (environment, resources, volumes). */
  datatype Workload = Workload(replicas: Option<int>, images: seq<string>, rest: string)

  datatype ServicePort = ServicePort(port: int, targetPort: int, nodePort: int, protocol: string)

  datatype ServiceSpec = ServiceSpec(kind: string, ports: seq<ServicePort>, clusterIP: string)

  /** The live objects. */
  datatype Live = Live(statefulSet: Option<Workload>, service: Option<ServiceSpec>, deployment: Option<Workload>)

  datatype OperatorSpec = OperatorSpec(
    databaseEnabled: bool, databaseImage: string, databaseRest: string,
    serviceType: string, servicePort: int, serviceNodePort: int,
    controllerImage: string, controllerReplicas: int, controllerRest: string)

  /** Which of the three calls about one object fails. */
  datatype Faults = Faults(get: bool, create: bool, update: bool)

  const NO_FAULTS := Faults(false, false, false)

  /** What the API server fills in on a write: a node port where the type needs one and none is given, and
      the cluster IP of a new Service. */
  datatype Allocation = Allocation(nodePort: int, clusterIP: string)

  // ---------------------------------------------------------------- the desired objects

  function DesiredStatefulSet(op: OperatorSpec): (w: Workload)
    ensures w.replicas == Some(1) && |w.images| == 1 && w.images[0] != ""
    ensures w.images[0] == if op.databaseImage != "" then op.databaseImage else "mariadb:10.11"
    ensures w.rest == op.databaseRest
  {
    Workload(Some(1), [if op.databaseImage != "" then op.databaseImage else "mariadb:10.11"], op.databaseRest)
  }

  function DesiredDeployment(op: OperatorSpec): (w: Workload)
    ensures w.replicas.Some? && w.replicas.value >= 1 && |w.images| == 1 && w.images[0] != ""
    ensures w.replicas.value == if op.controllerReplicas > 0 then op.controllerReplicas else 1
    ensures w.images[0] == if op.controllerImage != "" then op.controllerImage else "multinic:v1alpha1"
    ensures w.rest == op.controllerRest
  {
    Workload(
      Some(if op.controllerReplicas > 0 then op.controllerReplicas else 1),
      [if op.controllerImage != "" then op.controllerImage else "multinic:v1alpha1"],
      op.controllerRest)
  }

  function ServiceKind(t: string): string {
    if t == "NodePort" || t == "LoadBalancer" then t else "ClusterIP"
  }

  /** A valid Service whatever the spec says; a node port only for type NodePort. */
  function DesiredService(op: OperatorSpec): (s: ServiceSpec)
    ensures s.kind in ["ClusterIP", "NodePort", "LoadBalancer"] && |s.ports| == 1
    ensures op.serviceType in ["ClusterIP", "NodePort", "LoadBalancer"] ==> s.kind == op.serviceType
    ensures op.serviceType !in ["ClusterIP", "NodePort", "LoadBalancer"] ==> s.kind == "ClusterIP"
    ensures s.ports[0].port > 0 && s.ports[0].port == if op.servicePort > 0 then op.servicePort else 3306
    ensures s.ports[0].targetPort == 3306 && s.ports[0].protocol == "TCP"
    ensures s.ports[0].nodePort != 0 ==> s.kind == "NodePort" && s.ports[0].nodePort == op.serviceNodePort
    ensures s.kind == "NodePort" && op.serviceNodePort > 0 ==> s.ports[0].nodePort == op.serviceNodePort
  {
    var kind := ServiceKind(op.serviceType);
    var port := if op.servicePort > 0 then op.servicePort else 3306;
    var nodePort := if op.serviceNodePort > 0 && kind == "NodePort" then op.serviceNodePort else 0;
    ServiceSpec(kind, [ServicePort(port, 3306, nodePort, "TCP")], "")
  }

  // ---------------------------------------------------------------- drift

  predicate NeedsWorkloadUpdate(existing: Workload, desired: Workload) {
    if existing.replicas.None? || desired.replicas.None? then existing.replicas != desired.replicas
    else if existing.replicas != desired.replicas then true
    else |existing.images| > 0 && |desired.images| > 0 && existing.images[0] != desired.images[0]
  }

  /** The port loop compares number, target, node port and protocol, index by index. */
  predicate NeedsServiceUpdate(existing: ServiceSpec, desired: ServiceSpec) {
    || existing.kind != desired.kind
    || |existing.ports| != |desired.ports|
    || exists i | 0 <= i < |existing.ports| :: existing.ports[i] != desired.ports[i]
  }

  method CompareServices(existing: ServiceSpec, desired: ServiceSpec) returns (needed: bool)
    ensures needed == NeedsServiceUpdate(existing, desired)
  {
    if existing.kind != desired.kind {
      return true;
    }
    if |existing.ports| != |desired.ports| {
      return true;
    }
    for i := 0 to |existing.ports|
      invariant forall j | 0 <= j < i :: existing.ports[j] == desired.ports[j]
    {
      var e, d := existing.ports[i], desired.ports[i];
      if e.port != d.port || e.targetPort != d.targetPort || e.nodePort != d.nodePort || e.protocol != d.protocol {
        return true;
      }
    }
    needed := false;
  }

  // ---------------------------------------------------------------- one object

  predicate NeedsNodePort(kind: string) {
    kind == "NodePort" || kind == "LoadBalancer"
  }

  /** The Service as the API server stores it. */
  function Admit(s: ServiceSpec, a: Allocation): ServiceSpec {
    s.(ports := seq(|s.ports|, i requires 0 <= i < |s.ports| =>
         if NeedsNodePort(s.kind) && s.ports[i].nodePort == 0 then s.ports[i].(nodePort := a.nodePort)
         else s.ports[i]),
       clusterIP := if s.clusterIP == "" then a.clusterIP else s.clusterIP)
  }

  /** Result of one pass over one object: the live object, whether its spec was written, success. */
  function PassWorkload(live: Option<Workload>, desired: Workload, f: Faults): (Option<Workload>, bool, bool) {
    if f.get then (live, false, false)
    else if live.None? then if f.create then (None, false, false) else (Some(desired), true, true)
    else if !NeedsWorkloadUpdate(live.value, desired) then (live, false, true)
    else if f.update then (live, false, false)
    else (Some(desired), true, true)
  }

  function PassService(live: Option<ServiceSpec>, desired: ServiceSpec, f: Faults, a: Allocation)
    : (Option<ServiceSpec>, bool, bool)
  {
    if f.get then (live, false, false)
    else if live.None? then if f.create then (None, false, false) else (Some(Admit(desired, a)), true, true)
    else if !NeedsServiceUpdate(live.value, desired) then (live, false, true)
    else if f.update then (live, false, false)
    else (Some(Admit(desired.(clusterIP := live.value.clusterIP), a)), true, true)
  }

  datatype PassFaults = PassFaults(statefulSet: Faults, service: Faults, deployment: Faults)

  /** The whole pass: live objects, spec writes, success. A failure ends it. */
  function Pass(live: Live, op: OperatorSpec, f: PassFaults, a: Allocation): (Live, nat, bool) {
    var (live1, n1, ok1) := PassDatabase(live, op, f, a);
    if !ok1 then (live1, n1, false)
    else
      var d := PassWorkload(live1.deployment, DesiredDeployment(op), f.deployment);
      (live1.(deployment := d.0), n1 + (if d.1 then 1 else 0), d.2)
  }

  function PassDatabase(live: Live, op: OperatorSpec, f: PassFaults, a: Allocation): (Live, nat, bool) {
    if !op.databaseEnabled then (live, 0, true)
    else
      var s := PassWorkload(live.statefulSet, DesiredStatefulSet(op), f.statefulSet);
      var live1 := live.(statefulSet := s.0);
      var n1 := if s.1 then 1 else 0;
      if !s.2 then (live1, n1, false)
      else
        var v := PassService(live1.service, DesiredService(op), f.service, a);
        (live1.(service := v.0), n1 + (if v.1 then 1 else 0), v.2)
  }

  // ---------------------------------------------------------------- the reconciler against the cluster

  class Cluster {
    var statefulSet: Option<Workload>
    var service: Option<ServiceSpec>
    var deployment: Option<Workload>
    var specWrites: nat

    constructor (live: Live)
      ensures State() == live && specWrites == 0
    {
      statefulSet, service, deployment, specWrites := live.statefulSet, live.service, live.deployment, 0;
    }

    function State(): Live
      reads this
    {
      Live(statefulSet, service, deployment)
    }

    method ReconcileDatabase(op: OperatorSpec, f: PassFaults, a: Allocation) returns (ok: bool)
      requires op.databaseEnabled
      modifies this
      ensures (State(), specWrites - old(specWrites), ok) == PassDatabase(old(State()), op, f, a)
    {
      var desired := DesiredStatefulSet(op);
      if f.statefulSet.get {
        return false;
      }
      if statefulSet.None? {
        if f.statefulSet.create {
          return false;
        }
        statefulSet, specWrites := Some(desired), specWrites + 1;
      } else if NeedsWorkloadUpdate(statefulSet.value, desired) {
        if f.statefulSet.update {
          return false;
        }
        statefulSet, specWrites := Some(desired), specWrites + 1;
      }
      var wanted := DesiredService(op);
      if f.service.get {
        return false;
      }
      if service.None? {
        if f.service.create {
          return false;
        }
        service, specWrites := Some(Admit(wanted, a)), specWrites + 1;
      } else {
        var needed := CompareServices(service.value, wanted);
        if needed {
          if f.service.update {
            return false;
          }
          var kept := wanted.(clusterIP := service.value.clusterIP);
          service, specWrites := Some(Admit(kept, a)), specWrites + 1;
        }
      }
      ok := true;
    }

    method ReconcileController(op: OperatorSpec, f: PassFaults) returns (ok: bool)
      modifies this
      ensures var d := PassWorkload(old(deployment), DesiredDeployment(op), f.deployment);
              deployment == d.0 && ok == d.2 && specWrites == old(specWrites) + (if d.1 then 1 else 0)
      ensures statefulSet == old(statefulSet) && service == old(service)
    {
      var desired := DesiredDeployment(op);
      if f.deployment.get {
        return false;
      }
      if deployment.None? {
        if f.deployment.create {
          return false;
        }
        deployment, specWrites := Some(desired), specWrites + 1;
      } else if NeedsWorkloadUpdate(deployment.value, desired) {
        if f.deployment.update {
          return false;
        }
        deployment, specWrites := Some(desired), specWrites + 1;
      }
      ok := true;
    }

    /** Both components in order, with a status for each one reached. */
    method ReconcileComponents(op: OperatorSpec, f: PassFaults, a: Allocation, databaseReady: int, controllerReady: int)
      returns (statuses: seq<ComponentStatus>, ok: bool)
      modifies this
      ensures (State(), specWrites - old(specWrites), ok) == Pass(old(State()), op, f, a)
      ensures statuses == Statuses(old(State()), op, f, a, databaseReady, controllerReady)
    {
      statuses := [];
      if op.databaseEnabled {
        ok := ReconcileDatabase(op, f, a);
        if !ok {
          return [ComponentStatus("database", false, "ReconcileError")], false;
        }
        statuses := [Readiness("database", statefulSet, databaseReady)];
      }
      ok := ReconcileController(op, f);
      if !ok {
        return statuses + [ComponentStatus("controller", false, "ReconcileError")], false;
      }
      statuses := statuses + [Readiness("controller", deployment, controllerReady)];
    }
  }

  // ---------------------------------------------------------------- component status

  datatype ComponentStatus = ComponentStatus(name: string, ready: bool, reason: string)
  datatype Condition = Condition(kind: string, isTrue: bool, reason: string)

  /** A missing replica count would crash the readiness check; a successful pass never leaves one. */
  function Readiness(name: string, w: Option<Workload>, readyReplicas: int): ComponentStatus {
    if w.None? then ComponentStatus(name, false, "NotFound")
    else if readyReplicas == 0 then ComponentStatus(name, false, "NotReady")
    else if w.value.replicas.Some? && readyReplicas < w.value.replicas.value then
      ComponentStatus(name, false, "PartiallyReady")
    else ComponentStatus(name, true, "Ready")
  }

  function Statuses(live: Live, op: OperatorSpec, f: PassFaults, a: Allocation,
                    databaseReady: int, controllerReady: int)
    : seq<ComponentStatus>
  {
    var (live1, _, ok1) := PassDatabase(live, op, f, a);
    if !ok1 then [ComponentStatus("database", false, "ReconcileError")]
    else
      var before := if op.databaseEnabled then [Readiness("database", live1.statefulSet, databaseReady)] else [];
      var d := PassWorkload(live1.deployment, DesiredDeployment(op), f.deployment);
      before + [if d.2 then Readiness("controller", d.0, controllerReady)
                else ComponentStatus("controller", false, "ReconcileError")]
  }

  predicate AllReady(statuses: seq<ComponentStatus>) {
    |statuses| > 0 && forall s | s in statuses :: s.ready
  }

  method AllComponentsReady(statuses: seq<ComponentStatus>) returns (ready: bool)
    ensures ready == AllReady(statuses)
  {
    for i := 0 to |statuses|
      invariant forall s | s in statuses[..i] :: s.ready
    {
      if !statuses[i].ready {
        return false;
      }
    }
    assert statuses[..|statuses|] == statuses;
    ready := |statuses| > 0;
  }

  /** The conditions written to the status: the overall one first, then one per component, in order. */
  method BuildConditions(statuses: seq<ComponentStatus>) returns (conditions: seq<Condition>)
    ensures |conditions| == |statuses| + 1
    ensures conditions[0].kind == "Ready" && (conditions[0].isTrue <==> AllReady(statuses))
    ensures forall i | 0 <= i < |statuses| ::
              conditions[i + 1] == Condition(statuses[i].name + "Ready", statuses[i].ready, statuses[i].reason)
    ensures conditions[0].isTrue ==> forall c | c in conditions :: c.isTrue
  {
    var overall := Condition("Ready", false, "ComponentsNotReady");
    var ready := AllComponentsReady(statuses);
    if ready {
      overall := Condition("Ready", true, "AllComponentsReady");
    }
    conditions := [overall];
    for i := 0 to |statuses|
      invariant |conditions| == i + 1 && conditions[0] == overall
      invariant forall j | 0 <= j < i ::
        conditions[j + 1] == Condition(statuses[j].name + "Ready", statuses[j].ready, statuses[j].reason)
    {
      var condition := Condition(statuses[i].name + "Ready", false, statuses[i].reason);
      if statuses[i].ready {
        condition := condition.(isTrue := true);
      }
      conditions := conditions + [condition];
    }
    if overall.isTrue {
      forall k | 0 <= k < |conditions|
        ensures conditions[k].isTrue
      {
        if k > 0 {
          assert statuses[k - 1] in statuses;
        }
      }
    }
  }

  // ---------------------------------------------------------------- convergence

  const NO_PASS_FAULTS := PassFaults(NO_FAULTS, NO_FAULTS, NO_FAULTS)

  /** The live workload has the desired replicas and the desired image in front. */
  predicate WorkloadAgrees(live: Option<Workload>, desired: Workload) {
    && live.Some? && live.value.replicas == desired.replicas
    && |live.value.images| > 0 && |desired.images| > 0 && live.value.images[0] == desired.images[0]
  }

  /** The Service has the desired type and ports, up to node ports the server had to choose. */
  predicate ServiceAgrees(live: Option<ServiceSpec>, desired: ServiceSpec) {
    && live.Some? && live.value.kind == desired.kind && |live.value.ports| == |desired.ports|
    && forall i | 0 <= i < |desired.ports| ::
         var l, d := live.value.ports[i], desired.ports[i];
         l.(nodePort := 0) == d.(nodePort := 0)
         && (l.nodePort == d.nodePort || (NeedsNodePort(desired.kind) && d.nodePort == 0))
  }

  /** A live object without containers and with the right replicas is the one drift the check cannot see. */
  predicate Undetectable(live: Option<Workload>, desired: Workload) {
    live.Some? && live.value.images == [] && live.value.replicas == desired.replicas
  }

  lemma WorkloadConverges(live: Option<Workload>, desired: Workload)
    requires |desired.images| > 0 && desired.replicas.Some?
    ensures var after := PassWorkload(live, desired, NO_FAULTS);
      && after.2
      && (WorkloadAgrees(after.0, desired) <==> !Undetectable(live, desired))
      && after.0.value.replicas == desired.replicas
      && !PassWorkload(after.0, desired, NO_FAULTS).1
      && (after.0.value.rest == desired.rest <==> after.1 || live.value.rest == desired.rest)
  {
  }

  /** Node ports are all given, or not needed. */
  predicate PortsExplicit(s: ServiceSpec) {
    !NeedsNodePort(s.kind) || forall p | p in s.ports :: p.nodePort != 0
  }

  lemma ServiceConverges(live: Option<ServiceSpec>, desired: ServiceSpec, a: Allocation, b: Allocation)
    requires a.nodePort > 0
    ensures var after := PassService(live, desired, NO_FAULTS, a);
      && after.2 && ServiceAgrees(after.0, desired)
      && (PortsExplicit(desired) ==> !PassService(after.0, desired, NO_FAULTS, b).1)
      && (!PortsExplicit(desired) && after.1 ==> PassService(after.0, desired, NO_FAULTS, b).1)
      && (live.Some? && live.value.clusterIP != "" ==> after.0.value.clusterIP == live.value.clusterIP)
  {
    var after := PassService(live, desired, NO_FAULTS, a);
    if !PortsExplicit(desired) {
      var p :| p in desired.ports && p.nodePort == 0;
      var i :| 0 <= i < |desired.ports| && desired.ports[i] == p;
      assert after.1 ==> after.0.value.ports[i].nodePort == a.nodePort;
    }
  }

  /** From any cluster state, one failure-free pass succeeds; StatefulSet and Deployment then agree with the
      desired replicas and image, unless a live object had no containers, and the Service agrees. */
  lemma OnePassConverges(live: Live, op: OperatorSpec, a: Allocation)
    requires op.databaseEnabled && a.nodePort > 0
    ensures var (after, _, ok) := Pass(live, op, NO_PASS_FAULTS, a);
      && ok
      && (WorkloadAgrees(after.statefulSet, DesiredStatefulSet(op))
          <==> !Undetectable(live.statefulSet, DesiredStatefulSet(op)))
      && (WorkloadAgrees(after.deployment, DesiredDeployment(op))
          <==> !Undetectable(live.deployment, DesiredDeployment(op)))
      && ServiceAgrees(after.service, DesiredService(op))
      && after.statefulSet.value.replicas.Some? && after.deployment.value.replicas.Some?
  {
    WorkloadConverges(live.statefulSet, DesiredStatefulSet(op));
    WorkloadConverges(live.deployment, DesiredDeployment(op));
    ServiceConverges(live.service, DesiredService(op), a, a);
  }

  predicate SettlesBy(op: OperatorSpec) {
    ServiceKind(op.serviceType) == "ClusterIP"
    || (ServiceKind(op.serviceType) == "NodePort" && op.serviceNodePort > 0)
  }

  /** The live Service has exactly the desired type and ports, for instance a LoadBalancer that was stored
      without node ports. */
  predicate AlreadyAsDesired(live: Option<ServiceSpec>, desired: ServiceSpec) {
    live.Some? && live.value.kind == desired.kind && live.value.ports == desired.ports
  }

  lemma FirstPassWritesService(live: Option<ServiceSpec>, desired: ServiceSpec, a: Allocation)
    ensures var pass := PassService(live, desired, NO_FAULTS, a);
      && (pass.1 <==> !AlreadyAsDesired(live, desired))
      && (!pass.1 ==> pass.0 == live)
  {
  }

  /** A second pass on the undisturbed cluster writes no spec, exactly when the Service needs no node port
      chosen by the API server or was live as desired from the start. Any other Service of type LoadBalancer,
      or NodePort without a number, is rewritten by every pass. */
  lemma SecondPassIsQuietIffSettled(live: Live, op: OperatorSpec, a: Allocation, b: Allocation)
    requires op.databaseEnabled && a.nodePort > 0
    ensures var after := Pass(live, op, NO_PASS_FAULTS, a).0;
            Pass(after, op, NO_PASS_FAULTS, b).1 == 0 <==>
              SettlesBy(op) || AlreadyAsDesired(live.service, DesiredService(op))
  {
    WorkloadConverges(live.statefulSet, DesiredStatefulSet(op));
    WorkloadConverges(live.deployment, DesiredDeployment(op));
    var desired := DesiredService(op);
    ServiceConverges(live.service, desired, a, b);
    FirstPassWritesService(live.service, desired, a);
    FirstPassWritesService(live.service, desired, b);
    assert desired.ports[0] in desired.ports;
    assert PortsExplicit(desired) <==> SettlesBy(op);
  }

  /** With the database disabled the pass leaves StatefulSet and Service alone. */
  lemma DisabledDatabaseIsLeftAlone(live: Live, op: OperatorSpec, f: PassFaults, a: Allocation)
    requires !op.databaseEnabled
    ensures var (after, n, _) := Pass(live, op, f, a);
            after.statefulSet == live.statefulSet && after.service == live.service && n <= 1
  {
  }

  /** The Deployment then converges on its own, and the second pass writes nothing. */
  lemma DisabledDatabaseConverges(live: Live, op: OperatorSpec, a: Allocation, b: Allocation)
    requires !op.databaseEnabled
    ensures var (after, _, ok) := Pass(live, op, NO_PASS_FAULTS, a);
      && ok
      && (WorkloadAgrees(after.deployment, DesiredDeployment(op))
          <==> !Undetectable(live.deployment, DesiredDeployment(op)))
      && Pass(after, op, NO_PASS_FAULTS, b).1 == 0
  {
    WorkloadConverges(live.deployment, DesiredDeployment(op));
  }

  // ---------------------------------------------------------------- drift, failures and readiness

  /** The drift check sees other replicas, and another first image when both sides have containers; when neither
      side says how many replicas, it looks no further. */
  lemma WorkloadDriftIff(existing: Workload, desired: Workload)
    ensures NeedsWorkloadUpdate(existing, desired) <==>
      || existing.replicas != desired.replicas
      || (existing.replicas.Some? && existing.images != [] && desired.images != []
          && existing.images[0] != desired.images[0])
  {
  }

  /** A workload is written exactly when it is missing or drifted, and no call about it fails. */
  lemma WorkloadPassIs(live: Option<Workload>, desired: Workload, f: Faults)
    ensures var (after, written, ok) := PassWorkload(live, desired, f);
      && (ok <==> !f.get && (live.None? ==> !f.create)
                  && (live.Some? && NeedsWorkloadUpdate(live.value, desired) ==> !f.update))
      && (written <==> ok && (live.None? || NeedsWorkloadUpdate(live.value, desired)))
      && after == if written then Some(desired) else live
  {
  }

  /** The same for the Service, which keeps its cluster IP. */
  lemma ServicePassIs(live: Option<ServiceSpec>, desired: ServiceSpec, f: Faults, a: Allocation)
    ensures var (after, written, ok) := PassService(live, desired, f, a);
      && (ok <==> !f.get && (live.None? ==> !f.create)
                  && (live.Some? && NeedsServiceUpdate(live.value, desired) ==> !f.update))
      && (written <==> ok && (live.None? || NeedsServiceUpdate(live.value, desired)))
      && (!written ==> after == live)
      && (written ==>
            && after.Some? && after.value.kind == desired.kind && |after.value.ports| == |desired.ports|
            && after.value.clusterIP ==
                 var ip := if live.Some? then live.value.clusterIP else desired.clusterIP;
                 if ip == "" then a.clusterIP else ip)
  {
  }

  /** The first failed call ends the pass: what comes after it is left alone, and the pass reports failure. */
  lemma FailureEndsPass(live: Live, op: OperatorSpec, f: PassFaults, a: Allocation)
    ensures var (after, _, ok) := Pass(live, op, f, a);
      var s := PassWorkload(live.statefulSet, DesiredStatefulSet(op), f.statefulSet);
      var v := PassService(live.service, DesiredService(op), f.service, a);
      var d := PassWorkload(live.deployment, DesiredDeployment(op), f.deployment);
      && (ok <==> (op.databaseEnabled ==> s.2 && v.2) && d.2)
      && after.statefulSet == (if op.databaseEnabled then s.0 else live.statefulSet)
      && after.service == (if op.databaseEnabled && s.2 then v.0 else live.service)
      && after.deployment == (if op.databaseEnabled ==> s.2 && v.2 then d.0 else live.deployment)
  {
  }

  /** A component is ready exactly when its workload is there with at least one ready replica and not fewer than it
      asks for. */
  lemma ReadyIff(name: string, w: Option<Workload>, readyReplicas: nat)
    ensures var status := Readiness(name, w, readyReplicas);
      && status.name == name
      && (status.ready <==> w.Some? && readyReplicas > 0
                            && (w.value.replicas.Some? ==> readyReplicas >= w.value.replicas.value))
      && status.reason ==
           if status.ready then "Ready" else if w.None? then "NotFound"
           else if readyReplicas == 0 then "NotReady" else "PartiallyReady"
  {
  }

  /** All components are reported ready exactly after a successful pass over live objects that are. */
  lemma AllReadyIff(live: Live, op: OperatorSpec, f: PassFaults, a: Allocation, databaseReady: nat,
                    controllerReady: nat)
    ensures var (after, _, ok) := Pass(live, op, f, a);
      AllReady(Statuses(live, op, f, a, databaseReady, controllerReady)) <==>
        && ok
        && (op.databaseEnabled ==> Readiness("database", after.statefulSet, databaseReady).ready)
        && Readiness("controller", after.deployment, controllerReady).ready
  {
    var (live1, _, ok1) := PassDatabase(live, op, f, a);
    var statuses := Statuses(live, op, f, a, databaseReady, controllerReady);
    if !ok1 {
      assert statuses[0] in statuses && !statuses[0].ready;
    } else {
      var last := statuses[|statuses| - 1];
      assert last in statuses && statuses[0] in statuses;
    }
  }
}
