/** Progress: when the controller's own writes succeed and users pause, a few of its steps settle any object from
    any reachable state, whatever OpenStack answers. */
module Progress {
  import opened Common
  import opened Tables
  import opened Reconciler
  import Trigger
  import opened World

  /** What a controller step learns from outside; the apply may fail in every way. */
  datatype Answer = Answer(config: Trigger.ConfigRead, env: Environment)

  const NO_DELETION_FAULTS := DeletionFaults(false, false, false, CommitOk)

  /** The controller's next step when it is asked to look after the key and its own writes succeed. */
  function ControllerStep(s: State, key: Owner, a: Answer): Step {
    match s.phase
    case Idle => Get(key)
    case Fetched(_, _) => Handle(false, Trigger.NoFault, a.config, NO_DELETION_FAULTS)
    case Applying(_, _) => RunTransactionStep(a.env)
    case Committed(_, _) => WriteStatus(false)
    case RowsGone(_, _) => RemoveFinalizer(false)
  }

  function StepsFrom(s: State, key: Owner, answers: seq<Answer>): seq<Step>
    decreases |answers|
  {
    if answers == [] then []
    else
      var step := ControllerStep(s, key, answers[0]);
      [step] + StepsFrom(Do(s, step), key, answers[1..])
  }

  function Drive(s: State, key: Owner, answers: seq<Answer>): State
    decreases |answers|
  {
    if answers == [] then s else Drive(Do(s, ControllerStep(s, key, answers[0])), key, answers[1..])
  }

  /** Driving the controller continues the run. */
  lemma {:induction false} DriveIsRun(steps: seq<Step>, key: Owner, answers: seq<Answer>)
    ensures Drive(Run(steps), key, answers) == Run(steps + StepsFrom(Run(steps), key, answers))
    decreases |answers|
  {
    if answers == [] {
      assert steps + [] == steps;
    } else {
      var step := ControllerStep(Run(steps), key, answers[0]);
      assert (steps + [step])[..|steps|] == steps;
      DriveIsRun(steps + [step], key, answers[1..]);
      Associative(steps, [step], StepsFrom(Do(Run(steps), step), key, answers[1..]));
    }
  }

  /** Nothing is left to do: the object is gone or let go, without rows, or it carries the finalizer and its
      current spec is the stored one. */
  ghost predicate Settled(s: State, key: Owner) {
    if key in s.objects && (s.objects[key].finalizer || !s.objects[key].deleting) then
      && s.objects[key].finalizer && !s.objects[key].deleting
      && StoredHash(s.tables, key) == Some(s.objects[key].spec)
    else NoRowsOf(s.tables, key)
  }

  /** The pass under way is over this object as it is now. */
  ghost predicate UpToDate(s: State, key: Owner, snap: Object) {
    key in s.objects && s.objects[key] == snap
  }

  ghost predicate Current(s: State, key: Owner) {
    match s.phase
    case Idle => true
    case Fetched(k, snap) => k == key && UpToDate(s, key, snap)
    case Applying(k, snap) =>
      k == key && UpToDate(s, key, snap) && !snap.deleting && StoredHash(s.tables, key) == Some(snap.spec)
    case Committed(k, snap) =>
      k == key && UpToDate(s, key, snap) && !snap.deleting && StoredHash(s.tables, key) == Some(snap.spec)
    case RowsGone(k, snap) => k == key && UpToDate(s, key, snap) && snap.deleting
  }

  /** Steps until a pass that started from an old reading is over. */
  function StepsToIdle(s: State): nat {
    match s.phase
    case Idle => 0
    case Fetched(_, _) => 3
    case Applying(_, _) => 2
    case Committed(_, _) => 1
    case RowsGone(_, _) => 1
  }

  /** Steps from an up-to-date state to a settled one. */
  ghost function StepsToSettle(s: State, key: Owner): nat {
    if Settled(s, key) || key !in s.objects then 0
    else
      var done := if s.phase.Fetched? then 1 else if s.phase.RowsGone? then 2 else 0;
      if s.objects[key].deleting then 3 - done
      else if !s.objects[key].finalizer then if done == 2 then 0 else 4 - done
      else if done == 2 then 0 else 2 - done
  }

  ghost function Remaining(s: State, key: Owner): nat {
    if Current(s, key) then StepsToSettle(s, key) else StepsToIdle(s) + 4
  }

  lemma AtMostFour(s: State, key: Owner)
    ensures StepsToSettle(s, key) <= 4
  {
  }

  /** An object that the controller has let go of, or that never had its finalizer, has no rows. */
  lemma UnguardedHasNoRows(s: State, key: Owner)
    requires Inv(s) && !Guarded(s, key)
    ensures NoRowsOf(s.tables, key)
  {
  }

  lemma FromIdle(s: State, key: Owner)
    requires Inv(s) && s.phase.Idle?
    ensures var s' := Do(s, Get(key));
      Current(s', key)
      && StepsToSettle(s', key) <= if StepsToSettle(s, key) == 0 then 0 else StepsToSettle(s, key) - 1
  {
    if !Guarded(s, key) {
      UnguardedHasNoRows(s, key);
    }
  }

  lemma HandleDeletes(s: State, key: Owner, config: Trigger.ConfigRead)
    requires Inv(s) && s.phase.Fetched? && Current(s, key)
    requires s.phase.snap.deleting
    ensures var s' := Do(s, Handle(false, Trigger.NoFault, config, NO_DELETION_FAULTS));
      Current(s', key) && StepsToSettle(s', key) <= if s.phase.snap.finalizer then 1 else 0
  {
    if !Guarded(s, key) {
      UnguardedHasNoRows(s, key);
    }
  }

  lemma HandleAddsFinalizer(s: State, key: Owner, config: Trigger.ConfigRead)
    requires Inv(s) && s.phase.Fetched? && Current(s, key)
    requires !s.phase.snap.deleting && !s.phase.snap.finalizer
    ensures var s' := Do(s, Handle(false, Trigger.NoFault, config, NO_DELETION_FAULTS));
      Current(s', key) && StepsToSettle(s', key) <= 2
  {
  }

  lemma HandleStoresHash(s: State, key: Owner, config: Trigger.ConfigRead)
    requires Inv(s) && s.phase.Fetched? && Current(s, key)
    requires !s.phase.snap.deleting && s.phase.snap.finalizer
    ensures var s' := Do(s, Handle(false, Trigger.NoFault, config, NO_DELETION_FAULTS));
      Current(s', key) && StepsToSettle(s', key) == 0
  {
  }

  lemma UnsettledNeeds(s: State, key: Owner)
    requires Inv(s) && s.phase.Fetched? && Current(s, key)
    ensures var o := s.phase.snap;
      StepsToSettle(s, key) ==
        if o.deleting then if o.finalizer then 2 else 0
        else if !o.finalizer then 3
        else if StoredHash(s.tables, key) == Some(o.spec) then 0 else 1
  {
    if !Guarded(s, key) {
      UnguardedHasNoRows(s, key);
    }
  }

  lemma FromFetched(s: State, key: Owner, a: Answer)
    requires Inv(s) && s.phase.Fetched? && Current(s, key)
    ensures var s' := Do(s, ControllerStep(s, key, a));
      Current(s', key)
      && StepsToSettle(s', key) <= if StepsToSettle(s, key) == 0 then 0 else StepsToSettle(s, key) - 1
  {
    UnsettledNeeds(s, key);
    if s.phase.snap.deleting {
      HandleDeletes(s, key, a.config);
    } else if s.phase.snap.finalizer {
      HandleStoresHash(s, key, a.config);
    } else {
      HandleAddsFinalizer(s, key, a.config);
    }
  }

  lemma ApplyKeepsHashes(s: State, key: Owner, snap: Object, env: Environment)
    ensures var s1 := WithApplied(s, key, snap, env);
      s1.tables.crStates == s.tables.crStates && s1.objects == s.objects && s1.phase == s.phase
  {
    ApplyOwners(s.tables, ConfigObject(key, snap.spec, snap.createdAt), env);
  }

  lemma StatusKeepsObject(s: State, key: Owner, status: string)
    requires Guarded(s, key)
    ensures var s' := Store(s, key, s.objects[key].(status := status));
      && Guarded(s', key) && s'.tables == s.tables
      && s'.objects[key].spec == s.objects[key].spec && s'.objects[key].deleting == s.objects[key].deleting
  {
  }

  /** The apply moves no stored hash and of the object at most the status; then the status is due, or nothing. */
  lemma ApplyKeepsObject(s: State, env: Environment)
    requires Inv(s) && s.phase.Applying?
    ensures var key, snap := s.phase.key, s.phase.snap; var s' := Do(s, RunTransactionStep(env));
      && s'.tables.crStates == s.tables.crStates
      && Guarded(s', key) && s'.objects[key].spec == s.objects[key].spec
      && s'.objects[key].deleting == s.objects[key].deleting
      && (s'.phase.Idle? || (s'.phase == Committed(key, snap) && s'.objects == s.objects))
  {
    var key, snap := s.phase.key, s.phase.snap;
    ApplyKeepsHashes(s, key, snap, env);
    StatusKeepsObject(WithApplied(s, key, snap, env), key, "Error");
  }

  lemma FromApplying(s: State, key: Owner, env: Environment)
    requires Inv(s) && s.phase.Applying? && Current(s, key)
    ensures var s' := Do(s, RunTransactionStep(env)); Current(s', key) && Settled(s', key)
  {
    ApplyKeepsObject(s, env);
  }

  lemma FromCommitted(s: State, key: Owner)
    requires Inv(s) && s.phase.Committed? && Current(s, key)
    ensures var s' := Do(s, WriteStatus(false)); Current(s', key) && Settled(s', key)
  {
  }

  lemma FromRowsGone(s: State, key: Owner)
    requires Inv(s) && s.phase.RowsGone? && Current(s, key)
    ensures var s' := Do(s, RemoveFinalizer(false)); Current(s', key) && Settled(s', key)
    ensures StepsToSettle(s, key) == 1
  {
  }

  lemma CurrentComesNearer(s: State, key: Owner, a: Answer)
    requires Inv(s) && Current(s, key)
    ensures var s' := Do(s, ControllerStep(s, key, a));
      Current(s', key)
      && StepsToSettle(s', key) <= if StepsToSettle(s, key) == 0 then 0 else StepsToSettle(s, key) - 1
  {
    match s.phase
    case Idle => FromIdle(s, key);
    case Fetched(_, _) => FromFetched(s, key, a);
    case Applying(_, _) => FromApplying(s, key, a.env);
    case Committed(_, _) => FromCommitted(s, key);
    case RowsGone(_, _) => FromRowsGone(s, key);
  }

  /** A pass over an old reading ends. */
  lemma OldPassEnds(s: State, key: Owner, a: Answer)
    requires Inv(s) && !s.phase.Idle?
    ensures StepsToIdle(Do(s, ControllerStep(s, key, a))) < StepsToIdle(s)
  {
  }

  /** Every controller step brings the object nearer to a settled state, or keeps it there. */
  lemma StepComesNearer(s: State, key: Owner, a: Answer)
    requires Inv(s)
    ensures var s' := Do(s, ControllerStep(s, key, a));
      Remaining(s', key) <= if Remaining(s, key) == 0 then 0 else Remaining(s, key) - 1
  {
    if Current(s, key) {
      CurrentComesNearer(s, key, a);
    } else {
      OldPassEnds(s, key, a);
      AtMostFour(Do(s, ControllerStep(s, key, a)), key);
    }
  }

  lemma {:induction false} DriveComesNearer(s: State, key: Owner, answers: seq<Answer>)
    requires Inv(s)
    ensures Inv(Drive(s, key, answers))
    ensures Remaining(Drive(s, key, answers), key) <=
              if Remaining(s, key) <= |answers| then 0 else Remaining(s, key) - |answers|
    decreases |answers|
  {
    if answers != [] {
      var step := ControllerStep(s, key, answers[0]);
      StepKeepsInv(s, step);
      StepComesNearer(s, key, answers[0]);
      DriveComesNearer(Do(s, step), key, answers[1..]);
    }
  }

  lemma NothingRemains(s: State, key: Owner)
    requires Inv(s) && Remaining(s, key) == 0
    ensures Settled(s, key)
  {
    if !Guarded(s, key) {
      UnguardedHasNoRows(s, key);
    }
  }

  /** An object under deletion is kept by some finalizer. */
  ghost predicate DeletionIsHeld(s: State) {
    forall k | k in s.objects && s.objects[k].deleting :: s.objects[k].finalizer || s.objects[k].otherFinalizer
  }

  lemma StepKeepsDeletionHeld(s: State, step: Step)
    requires DeletionIsHeld(s)
    ensures DeletionIsHeld(Do(s, step))
  {
  }

  lemma {:induction false} DeletionIsAlwaysHeld(steps: seq<Step>)
    ensures DeletionIsHeld(Run(steps))
    decreases |steps|
  {
    if steps != [] {
      DeletionIsAlwaysHeld(steps[..|steps| - 1]);
      StepKeepsDeletionHeld(Run(steps[..|steps| - 1]), steps[|steps| - 1]);
    }
  }

  /** From every reachable state, any seven or more controller steps on a key whose own writes succeed settle its
      object, whatever OpenStack answers and however the apply fails: a deleted object has no row and is gone,
      unless another finalizer holds it; any other carries the finalizer and its spec's hash is stored. */
  lemma ControllerSettles(steps: seq<Step>, key: Owner, answers: seq<Answer>)
    requires |answers| >= 7
    ensures var s := Run(steps + StepsFrom(Run(steps), key, answers));
      && Settled(s, key)
      && (key in s.objects && s.objects[key].deleting ==> !s.objects[key].finalizer && s.objects[key].otherFinalizer)
  {
    DeletionIsAlwaysHeld(steps + StepsFrom(Run(steps), key, answers));
    EveryRunKeepsInv(steps);
    DriveIsRun(steps, key, answers);
    DriveComesNearer(Run(steps), key, answers);
    NothingRemains(Drive(Run(steps), key, answers), key);
  }
}
