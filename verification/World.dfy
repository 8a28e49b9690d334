/** The whole system: users create, edit and delete OpenstackConfigs at any moment, the controller's pass
    moves step by step, and every step may fail or be the last before a crash. */
module World {
  import opened Common
  import opened Tables
  import Transaction
  import Trigger
  import opened Reconciler

  /** A stored OpenstackConfig. `uid` tells incarnations apart, `version` is its resourceVersion. */
  datatype Object = Object(
    uid: nat, version: nat, spec: Spec, createdAt: int, finalizer: bool, otherFinalizer: bool,
    deleting: bool, status: string)

  /** Where the controller is in its pass, with the object as it was read. */
  datatype Phase =
    | Idle
    | Fetched(key: Owner, snap: Object)
    | Applying(key: Owner, snap: Object)    // the policy said go
    | Committed(key: Owner, snap: Object)   // the transaction reported success
    | RowsGone(key: Owner, snap: Object)    // the deletion transaction reported success

  /** `served` remembers the incarnations for which some transaction took effect. */
  datatype State = State(
    objects: map<Owner, Object>, tables: Tables, phase: Phase, next: nat, served: set<nat>)

  datatype Step =
    | Create(key: Owner, spec: Spec, now: int, finalizer: bool, otherFinalizer: bool)
    | Edit(key: Owner, spec: Spec, addFinalizer: bool)
    | Delete(key: Owner)
    | DropOtherFinalizer(key: Owner)
    | Get(key: Owner)
    | Handle(fails: bool, hashFault: Trigger.HashFault, config: Trigger.ConfigRead, deletion: DeletionFaults)
    | RunTransactionStep(env: Environment)
    | WriteStatus(fails: bool)
    | RemoveFinalizer(fails: bool)
    | Crash

  function Initial(): State {
    State(map[], Tables(map[], map[], map[], map[]), Idle, 0, {})
  }

  /** Stores an object under a new version; a deleted object without finalizers disappears. */
  function Store(s: State, key: Owner, o: Object): State {
    if o.deleting && !o.finalizer && !o.otherFinalizer then s.(objects := s.objects - {key})
    else s.(objects := s.objects[key := o.(version := s.next)], next := s.next + 1)
  }

  /** An update from the controller goes through only against the version it has read. */
  predicate Accepted(s: State, key: Owner, snap: Object, fails: bool) {
    !fails && key in s.objects && s.objects[key].version == snap.version
  }

  function Ready(s: State): State {
    s.(phase := Idle)
  }

  /** The branch taken after Get: delete, add the finalizer, or hash step and policy. */
  function HandleFetched(s: State, key: Owner, snap: Object, fails: bool, hashFault: Trigger.HashFault,
                         config: Trigger.ConfigRead, deletion: DeletionFaults): State {
    if snap.deleting then
      if snap.finalizer then
        var tx := TransactDeletion(s.tables, key, deletion);
        s.(tables := tx.0, phase := if tx.1 then RowsGone(key, snap) else Idle)
      else Ready(s)
    else if !snap.finalizer then
      if Accepted(s, key, snap, fails) then Ready(Store(s, key, s.objects[key].(finalizer := true)))
      else Ready(s)
    else
      var hash := Trigger.HashStep(StoredHash(s.tables, key), snap.spec, hashFault);
      var go := hash.1.Some? && Trigger.ShouldReconcile(Trigger.EffectiveConfig(config), hash.1.value).0;
      s.(tables := WithHash(s.tables, key, hash.0), phase := if go then Applying(key, snap) else Idle)
  }

  /** The OpenStack calls and the transaction: the tables move, and a transaction in effect is remembered. */
  function WithApplied(s: State, key: Owner, snap: Object, env: Environment): State {
    var cr := ConfigObject(key, snap.spec, snap.createdAt);
    var t' := RunApply(s.tables, cr, env).0;
    var inEffect := ChosenSubnet(cr, env).Some? && Transaction.Apply(s.tables, ChosenChange(cr, env)) == Ok(t');
    s.(tables := t', served := if inEffect then s.served + {snap.uid} else s.served)
  }

  /** The apply and how the pass continues after it. */
  function ApplySnapshot(s: State, key: Owner, snap: Object, env: Environment): State {
    var cr := ConfigObject(key, snap.spec, snap.createdAt);
    var outcome := RunApply(s.tables, cr, env).1;
    var s1 := WithApplied(s, key, snap, env);
    if HasCommitted(outcome) then s1.(phase := Committed(key, snap))
    else if PersistedStatus(cr, env, outcome) == Some("Error") && Accepted(s1, key, snap, false) then
      Ready(Store(s1, key, s1.objects[key].(status := "Error")))
    else Ready(s1)
  }

  /** One step; a step that is not enabled changes nothing. */
  function Do(s: State, step: Step): State {
    match step
    case Create(key, spec, now, finalizer, otherFinalizer) =>
      if key in s.objects then s
      else
        s.(objects := s.objects[key := Object(s.next, s.next, spec, now, finalizer, otherFinalizer, false, "")],
           next := s.next + 1)
    case Edit(key, spec, addFinalizer) =>
      if key !in s.objects then s
      else
        var o := s.objects[key];
        Store(s, key, o.(spec := spec, finalizer := o.finalizer || (addFinalizer && !o.deleting)))
    case Delete(key) =>
      if key !in s.objects then s else Store(s, key, s.objects[key].(deleting := true))
    case DropOtherFinalizer(key) =>
      if key !in s.objects then s else Store(s, key, s.objects[key].(otherFinalizer := false))
    case Get(key) =>
      if s.phase.Idle? && key in s.objects then s.(phase := Fetched(key, s.objects[key])) else s
    case Handle(fails, hashFault, config, deletion) =>
      if s.phase.Fetched? then HandleFetched(s, s.phase.key, s.phase.snap, fails, hashFault, config, deletion) else s
    case RunTransactionStep(env) =>
      if s.phase.Applying? then ApplySnapshot(s, s.phase.key, s.phase.snap, env) else s
    case WriteStatus(fails) =>
      if !s.phase.Committed? then s
      else if Accepted(s, s.phase.key, s.phase.snap, fails) then
        Ready(Store(s, s.phase.key, s.objects[s.phase.key].(status := "Completed")))
      else Ready(s)
    case RemoveFinalizer(fails) =>
      if !s.phase.RowsGone? then s
      else if Accepted(s, s.phase.key, s.phase.snap, fails) then
        Ready(Store(s, s.phase.key, s.objects[s.phase.key].(finalizer := false)))
      else Ready(s)
    case Crash => Ready(s)
  }

  function Run(steps: seq<Step>): State {
    if steps == [] then Initial() else Do(Run(steps[..|steps| - 1]), steps[|steps| - 1])
  }

  // ---------------------------------------------------------------- no orphan rows

  /** The key's object exists and carries the controller's finalizer. */
  predicate Guarded(s: State, key: Owner) {
    key in s.objects && s.objects[key].finalizer
  }

  /** Every multi_interface and cr_state row is owned by a guarded object. */
  ghost predicate NoOrphans(s: State) {
    && (forall p | p in s.tables.interfaces :: Guarded(s, s.tables.interfaces[p].owner))
    && (forall k | k in s.tables.crStates :: Guarded(s, k))
  }

  ghost predicate NoRowsOf(t: Tables, key: Owner) {
    key !in t.crStates && forall p | p in t.interfaces :: t.interfaces[p].owner != key
  }

  /** While a pass runs on an object it has read with the finalizer, that object stays. */
  ghost predicate PhaseInv(s: State) {
    match s.phase
    case Idle => true
    case Fetched(key, snap) => snap.finalizer ==> Guarded(s, key) && s.objects[key].uid == snap.uid
    case Applying(key, snap) => Guarded(s, key) && s.objects[key].uid == snap.uid
    case Committed(key, snap) => Guarded(s, key) && s.objects[key].uid == snap.uid && snap.uid in s.served
    case RowsGone(key, snap) => Guarded(s, key) && s.objects[key].uid == snap.uid && NoRowsOf(s.tables, key)
  }

  ghost predicate CompletedWasServed(s: State) {
    forall k | k in s.objects && s.objects[k].status == "Completed" :: s.objects[k].uid in s.served
  }

  ghost predicate Inv(s: State) {
    NoOrphans(s) && PhaseInv(s) && CompletedWasServed(s) && ForeignKeysHold(s.tables)
  }

  /** Storing an object that keeps uid and finalizer keeps the invariant. */
  lemma StoreKeepsInv(s: State, key: Owner, o: Object)
    requires Inv(s) && key in s.objects && o.uid == s.objects[key].uid
    requires s.objects[key].finalizer ==> o.finalizer
    requires o.status == "Completed" ==> o.uid in s.served
    ensures Inv(Store(s, key, o))
  {
    var s' := Store(s, key, o);
    forall k | Guarded(s, k)
      ensures Guarded(s', k) && s'.objects[k].uid == s.objects[k].uid
    {
    }
  }

  /** A transaction for a key adds rows for that key only. */
  lemma {:induction false} ApplyOwners(t: Tables, cr: ConfigObject, env: Environment)
    ensures var t' := RunApply(t, cr, env).0;
      && t'.crStates == t.crStates
      && forall p | p in t'.interfaces ::
           t'.interfaces[p].owner == cr.owner
           || (p in t.interfaces && t.interfaces[p].owner == t'.interfaces[p].owner)
  {
    var t' := RunApply(t, cr, env).0;
    if t' != t {
      var ch := ChosenChange(cr, env);
      Transaction.PassChangeWellFormed(
        cr.owner, ChosenSubnet(cr, env).value, ChosenTargets(cr, env), cr.createdAt, env.now);
      Transaction.CommittedPass(t, ch);
      forall p | p in t'.interfaces && t'.interfaces[p].owner != cr.owner
        ensures p in t.interfaces && t.interfaces[p].owner == t'.interfaces[p].owner
      {
        assert p in Transaction.Foreign(t', cr.owner);
        assert p in Transaction.Foreign(t, cr.owner);
      }
    }
  }

  lemma SameRowsForeignKeys(t: Tables, t': Tables)
    requires ForeignKeysHold(t) && t'.nodes == t.nodes && t'.subnets == t.subnets
    requires forall p | p in t'.interfaces :: p in t.interfaces && t'.interfaces[p] == t.interfaces[p]
    ensures ForeignKeysHold(t')
  {
    forall p | p in t'.interfaces
      ensures RowAnchored(t', t'.interfaces[p])
    {
      assert RowAnchored(t, t.interfaces[p]);
    }
  }

  lemma HandleKeepsInv(s: State, fails: bool, hashFault: Trigger.HashFault, config: Trigger.ConfigRead,
                       deletion: DeletionFaults)
    requires Inv(s) && s.phase.Fetched?
    ensures Inv(HandleFetched(s, s.phase.key, s.phase.snap, fails, hashFault, config, deletion))
  {
    var key, snap := s.phase.key, s.phase.snap;
    var s' := HandleFetched(s, key, snap, fails, hashFault, config, deletion);
    if snap.deleting {
      SameRowsForeignKeys(s.tables, s'.tables);
    } else if !snap.finalizer {
      if Accepted(s, key, snap, fails) {
        StoreKeepsInv(Ready(s), key, s.objects[key].(finalizer := true));
      }
    } else {
      SameRowsForeignKeys(s.tables, s'.tables);
    }
  }

  lemma AppliedKeepsInv(s: State, env: Environment)
    requires Inv(s) && s.phase.Applying?
    ensures Inv(WithApplied(s, s.phase.key, s.phase.snap, env))
  {
    var key, snap := s.phase.key, s.phase.snap;
    var cr := ConfigObject(key, snap.spec, snap.createdAt);
    ApplyOwners(s.tables, cr, env);
    if RunApply(s.tables, cr, env).0 != s.tables {
      Transaction.ApplyKeepsForeignKeys(s.tables, ChosenChange(cr, env));
    }
  }

  lemma CommittedIsServed(s: State, key: Owner, snap: Object, env: Environment)
    ensures HasCommitted(RunApply(s.tables, ConfigObject(key, snap.spec, snap.createdAt), env).1) ==>
              snap.uid in WithApplied(s, key, snap, env).served
  {
  }

  lemma {:induction false} ApplyKeepsInv(s: State, env: Environment)
    requires Inv(s) && s.phase.Applying?
    ensures Inv(ApplySnapshot(s, s.phase.key, s.phase.snap, env))
  {
    var key, snap := s.phase.key, s.phase.snap;
    var outcome := RunApply(s.tables, ConfigObject(key, snap.spec, snap.createdAt), env).1;
    var s1 := WithApplied(s, key, snap, env);
    AppliedKeepsInv(s, env);
    if HasCommitted(outcome) {
      CommittedIsServed(s, key, snap, env);
    } else if Accepted(s1, key, snap, false) {
      StoreKeepsInv(Ready(s1), key, s1.objects[key].(status := "Error"));
    }
  }

  lemma RemoveFinalizerKeepsInv(s: State)
    requires Inv(s) && s.phase.RowsGone?
    ensures Inv(Ready(Store(s, s.phase.key, s.objects[s.phase.key].(finalizer := false))))
  {
  }

  lemma CreateKeepsInv(s: State, step: Step)
    requires Inv(s) && step.Create?
    ensures Inv(Do(s, step))
  {
    var s' := Do(s, step);
    forall k | Guarded(s, k)
      ensures Guarded(s', k) && s'.objects[k] == s.objects[k]
    {
    }
  }

  lemma EditKeepsInv(s: State, key: Owner, spec: Spec, addFinalizer: bool)
    requires Inv(s)
    ensures Inv(Do(s, Edit(key, spec, addFinalizer)))
  {
    if key in s.objects {
      var o := s.objects[key];
      StoreKeepsInv(s, key, o.(spec := spec, finalizer := o.finalizer || (addFinalizer && !o.deleting)));
    }
  }

  lemma DeleteKeepsInv(s: State, key: Owner)
    requires Inv(s)
    ensures Inv(Do(s, Delete(key))) && Inv(Do(s, DropOtherFinalizer(key)))
  {
    if key in s.objects {
      StoreKeepsInv(s, key, s.objects[key].(deleting := true));
      StoreKeepsInv(s, key, s.objects[key].(otherFinalizer := false));
    }
  }

  lemma ReadKeepsInv(s: State, key: Owner)
    requires Inv(s)
    ensures Inv(Do(s, Get(key)))
  {
  }

  lemma CrashKeepsInv(s: State)
    requires Inv(s)
    ensures Inv(Do(s, Crash))
  {
  }

  lemma WriteStatusKeepsInv(s: State, fails: bool)
    requires Inv(s)
    ensures Inv(Do(s, WriteStatus(fails)))
  {
    if s.phase.Committed? && Accepted(s, s.phase.key, s.phase.snap, fails) {
      StoreKeepsInv(Ready(s), s.phase.key, s.objects[s.phase.key].(status := "Completed"));
    }
  }

  lemma UserStepKeepsInv(s: State, step: Step)
    requires Inv(s) && (step.Create? || step.Edit? || step.Delete? || step.DropOtherFinalizer?)
    ensures Inv(Do(s, step))
  {
    match step
    case Create(_, _, _, _, _) => CreateKeepsInv(s, step);
    case Edit(key, spec, addFinalizer) => EditKeepsInv(s, key, spec, addFinalizer);
    case Delete(key) => DeleteKeepsInv(s, key);
    case DropOtherFinalizer(key) => DeleteKeepsInv(s, key);
  }

  lemma HandleStepKeepsInv(s: State, step: Step)
    requires Inv(s) && step.Handle?
    ensures Inv(Do(s, step))
  {
    if s.phase.Fetched? {
      HandleKeepsInv(s, step.fails, step.hashFault, step.config, step.deletion);
    }
  }

  lemma ApplyStepKeepsInv(s: State, env: Environment)
    requires Inv(s)
    ensures Inv(Do(s, RunTransactionStep(env)))
  {
    if s.phase.Applying? {
      ApplyKeepsInv(s, env);
    }
  }

  lemma RemoveStepKeepsInv(s: State, fails: bool)
    requires Inv(s)
    ensures Inv(Do(s, RemoveFinalizer(fails)))
  {
    if s.phase.RowsGone? && Accepted(s, s.phase.key, s.phase.snap, fails) {
      RemoveFinalizerKeepsInv(s);
    }
  }

  lemma {:induction false} StepKeepsInv(s: State, step: Step)
    requires Inv(s)
    ensures Inv(Do(s, step))
  {
    match step
    case Get(key) => ReadKeepsInv(s, key);
    case Handle(_, _, _, _) => HandleStepKeepsInv(s, step);
    case RunTransactionStep(env) => ApplyStepKeepsInv(s, env);
    case WriteStatus(fails) => WriteStatusKeepsInv(s, fails);
    case RemoveFinalizer(fails) => RemoveStepKeepsInv(s, fails);
    case Crash => CrashKeepsInv(s);
    case _ => UserStepKeepsInv(s, step);
  }

  lemma {:induction false} EveryRunKeepsInv(steps: seq<Step>)
    ensures Inv(Run(steps))
    decreases |steps|
  {
    if steps != [] {
      EveryRunKeepsInv(steps[..|steps| - 1]);
      StepKeepsInv(Run(steps[..|steps| - 1]), steps[|steps| - 1]);
    }
  }

  /** In every reachable state: no orphan rows, every foreign key in place, and status "Completed" only on
      objects for which a transaction took effect. */
  lemma {:induction false} NoOrphanRowsEver(steps: seq<Step>)
    ensures var s := Run(steps);
      && (forall p | p in s.tables.interfaces ::
            var owner := s.tables.interfaces[p].owner; owner in s.objects && s.objects[owner].finalizer)
      && (forall k | k in s.tables.crStates :: k in s.objects && s.objects[k].finalizer)
      && ForeignKeysHold(s.tables)
      && (forall k | k in s.objects && s.objects[k].status == "Completed" :: s.objects[k].uid in s.served)
  {
    EveryRunKeepsInv(steps);
  }

  /** So when a key has no object, it has no row. */
  lemma {:induction false} GoneObjectsLeaveNothing(steps: seq<Step>, key: Owner)
    requires key !in Run(steps).objects
    ensures NoRowsOf(Run(steps).tables, key)
  {
    EveryRunKeepsInv(steps);
  }

  // ---------------------------------------------------------------- what steps do to objects

  /** Users' steps take effect: a created object is as asked, an edited one has the new spec, and a deleted one is
      marked while finalizers hold it and gone otherwise. A crash loses the pass and nothing else. */
  lemma UserStepsTakeEffect(s: State, key: Owner, spec: Spec, now: int, finalizer: bool, otherFinalizer: bool)
    ensures key !in s.objects ==>
      var s' := Do(s, Create(key, spec, now, finalizer, otherFinalizer));
      key in s'.objects
      && var o := s'.objects[key];
         && o.spec == spec && o.createdAt == now && o.finalizer == finalizer && o.otherFinalizer == otherFinalizer
         && !o.deleting && o.status == "" && o.uid == s.next
    ensures key in s.objects && !s.objects[key].deleting ==>
      var s' := Do(s, Edit(key, spec, false));
      key in s'.objects && s'.objects[key] == s.objects[key].(spec := spec, version := s.next)
    ensures key in s.objects ==>
      var o, s' := s.objects[key], Do(s, Delete(key));
      && (key in s'.objects <==> o.finalizer || o.otherFinalizer)
      && (key in s'.objects ==> s'.objects[key] == o.(deleting := true, version := s.next))
    ensures key in s.objects ==>
      var o, s' := s.objects[key], Do(s, DropOtherFinalizer(key));
      && (key in s'.objects <==> !o.deleting || o.finalizer)
      && (key in s'.objects ==> s'.objects[key] == o.(otherFinalizer := false, version := s.next))
    ensures Do(s, Crash) == s.(phase := Idle)
  {
  }

  /** What the step after Get does to a live object that carries the finalizer: the hash step, and on to the apply
      exactly when the policy attempts it. */
  lemma HandleGoesOn(s: State, step: Step)
    requires step.Handle? && s.phase.Fetched? && s.phase.snap.finalizer && !s.phase.snap.deleting
    ensures var key, snap, s' := s.phase.key, s.phase.snap, Do(s, step);
      && s'.objects == s.objects
      && s'.tables == WithHash(s.tables, key, Trigger.HashStep(StoredHash(s.tables, key), snap.spec, step.hashFault).0)
      && s'.phase ==
           if Trigger.Attempts(StoredHash(s.tables, key), Trigger.Pass(snap.spec, step.hashFault, step.config))
           then Applying(key, snap) else Idle
  {
  }

  /** What the apply does: the tables move as the pass says, and the status is due exactly after a reported commit. */
  lemma ApplyMoves(s: State, env: Environment)
    requires s.phase.Applying?
    ensures var key, snap := s.phase.key, s.phase.snap;
      var cr := ConfigObject(key, snap.spec, snap.createdAt);
      var (t', outcome) := RunApply(s.tables, cr, env);
      var s' := Do(s, RunTransactionStep(env));
      && s'.tables == t'
      && s'.phase == (if HasCommitted(outcome) then Committed(key, snap) else Idle)
      && (PersistedStatus(cr, env, outcome) != Some("Error") ==> s'.objects == s.objects)
      && (PersistedStatus(cr, env, outcome) == Some("Error") && Accepted(s, key, snap, false) && snap.finalizer
          && s.objects[key].finalizer && !HasCommitted(outcome) ==>
            key in s'.objects && s'.objects[key] == s.objects[key].(status := "Error", version := s.next))
  {
  }

  /** A status write that goes through says "Completed"; one that does not changes no object. */
  lemma CompletedIsWritten(s: State, fails: bool)
    requires s.phase.Committed?
    ensures var key, snap := s.phase.key, s.phase.snap; var s' := Do(s, WriteStatus(fails));
      && s'.phase.Idle?
      && (Accepted(s, key, snap, fails) && Guarded(s, key) ==>
            key in s'.objects && s'.objects[key].status == "Completed")
      && (!Accepted(s, key, snap, fails) ==> s'.objects == s.objects)
  {
  }

  /** Versions are handed out in order. */
  ghost predicate VersionsInOrder(s: State) {
    && (forall k | k in s.objects :: s.objects[k].version < s.next)
    && (!s.phase.Idle? ==> s.phase.snap.version < s.next)
  }

  lemma StoreKeepsVersions(s: State, key: Owner, o: Object)
    requires VersionsInOrder(s)
    ensures VersionsInOrder(Store(s, key, o)) && VersionsInOrder(Ready(Store(s, key, o)))
  {
  }

  lemma HandleKeepsVersions(s: State, step: Step)
    requires VersionsInOrder(s) && step.Handle?
    ensures VersionsInOrder(Do(s, step))
  {
    if s.phase.Fetched? && s.phase.key in s.objects {
      StoreKeepsVersions(s, s.phase.key, s.objects[s.phase.key].(finalizer := true));
    }
  }

  lemma ApplyKeepsVersions(s: State, env: Environment)
    requires VersionsInOrder(s)
    ensures VersionsInOrder(Do(s, RunTransactionStep(env)))
  {
    if s.phase.Applying? {
      var s1 := WithApplied(s, s.phase.key, s.phase.snap, env);
      assert VersionsInOrder(s1);
      if s.phase.key in s.objects {
        StoreKeepsVersions(s1, s.phase.key, s1.objects[s.phase.key].(status := "Error"));
      }
    }
  }

  lemma StepKeepsVersions(s: State, step: Step)
    requires VersionsInOrder(s)
    ensures VersionsInOrder(Do(s, step))
  {
    if step.Handle? {
      HandleKeepsVersions(s, step);
    } else if step.RunTransactionStep? {
      ApplyKeepsVersions(s, step.env);
    }
  }

  lemma {:induction false} VersionsAreAlwaysInOrder(steps: seq<Step>)
    ensures VersionsInOrder(Run(steps))
    decreases |steps|
  {
    if steps != [] {
      VersionsAreAlwaysInOrder(steps[..|steps| - 1]);
      StepKeepsVersions(Run(steps[..|steps| - 1]), steps[|steps| - 1]);
    }
  }

  /** When a user edits an object in the middle of a pass over it, the pass writes neither status nor finalizer. */
  lemma EditedMeanwhile(steps: seq<Step>, spec: Spec, addFinalizer: bool, fails: bool)
    requires !Run(steps).phase.Idle? && Run(steps).phase.key in Run(steps).objects
    ensures var s := Run(steps); var key := s.phase.key; var s' := Do(s, Edit(key, spec, addFinalizer));
      && !Accepted(s', key, s.phase.snap, fails)
      && Do(s', WriteStatus(fails)).objects == s'.objects
      && Do(s', RemoveFinalizer(fails)).objects == s'.objects
  {
    VersionsAreAlwaysInOrder(steps);
  }
}
