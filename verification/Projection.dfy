/** The step-by-step system seen as a run of whole passes: what users, crashes and failures in the middle of a pass
    leave in the tables is what a list of visits leaves, so every theorem about runs holds for the system. */
module Projection {
  import opened Common
  import opened Tables
  import opened Reconciler
  import opened Runs
  import Outcomes
  import Trigger
  import World

  /** A pass that stops after its hash step: no OpenStack client. */
  function CutOff(hashFault: Trigger.HashFault, config: Trigger.ConfigRead): Environment {
    Environment(hashFault, config, false, false, None, [],
                TxFaults(true, true, true, true, true, CommitFails), true, 0)
  }

  function PassOver(key: Owner, snap: World.Object): ConfigObject {
    ConfigObject(key, snap.spec, snap.createdAt)
  }

  /** What the step after Get does to the tables. */
  function HandleVisit(key: Owner, snap: World.Object, hashFault: Trigger.HashFault, config: Trigger.ConfigRead,
                       deletion: DeletionFaults): seq<Visit> {
    if snap.deleting then if snap.finalizer then [Deleted(key, deletion)] else []
    else if !snap.finalizer then []
    else [Reconciled(PassOver(key, snap), CutOff(hashFault, config))]
  }

  /** The answers of the apply, with the hash step and the configuration that let the pass go on. */
  function Resumed(v: Visit, env: Environment): Visit {
    match v
    case Reconciled(cr, e) => Reconciled(cr, env.(hashFault := e.hashFault, config := e.config))
    case Deleted(_, _) => v
  }

  /** One more step: a pass counts as cut off until its apply comes. */
  function MoreVisits(visits: seq<Visit>, s: World.State, step: World.Step): seq<Visit> {
    match step
    case Handle(_, hashFault, config, deletion) =>
      if s.phase.Fetched? then visits + HandleVisit(s.phase.key, s.phase.snap, hashFault, config, deletion)
      else visits
    case RunTransactionStep(env) =>
      if s.phase.Applying? && visits != [] then
        visits[..|visits| - 1] + [Resumed(visits[|visits| - 1], env)]
      else visits
    case _ => visits
  }

  function VisitsOf(steps: seq<World.Step>): seq<Visit> {
    if steps == [] then []
    else
      var init := steps[..|steps| - 1];
      MoreVisits(VisitsOf(init), World.Run(init), steps[|steps| - 1])
  }

  const EMPTY := Tables(map[], map[], map[], map[])

  /** The pass that is about to apply is the last visit so far, cut off, and its policy said go. */
  ghost predicate ApplyPending(visits: seq<Visit>, key: Owner, snap: World.Object) {
    && visits != []
    && var v := visits[|visits| - 1];
       && v.Reconciled? && v.cr == PassOver(key, snap) && v.env == CutOff(v.env.hashFault, v.env.config)
       && var before := TablesAfter(EMPTY, visits[..|visits| - 1]);
          Trigger.Attempts(StoredHash(before, key), PolicyView(v.cr, v.env))
  }

  ghost predicate Linked(s: World.State, visits: seq<Visit>) {
    && s.tables == TablesAfter(EMPTY, visits)
    && (s.phase.Applying? ==> ApplyPending(visits, s.phase.key, s.phase.snap))
  }

  lemma OneMoreVisit(visits: seq<Visit>, v: Visit)
    ensures TablesAfter(EMPTY, visits + [v]) == Visited(TablesAfter(EMPTY, visits), v)
  {
    assert (visits + [v])[..|visits|] == visits;
  }

  /** A pass that is cut off leaves the tables as its hash step did. */
  lemma CutOffLeavesHash(t: Tables, cr: ConfigObject, hashFault: Trigger.HashFault, config: Trigger.ConfigRead)
    ensures RunPass(t, cr, CutOff(hashFault, config)).0 == AfterHash(t, cr, CutOff(hashFault, config))
  {
  }

  /** The apply moves the tables in the same way whatever the configuration. */
  lemma ConfigDoesNotMatter(t: Tables, cr: ConfigObject, e: Environment, hashFault: Trigger.HashFault,
                            config: Trigger.ConfigRead)
    ensures RunApply(t, cr, e).0 == RunApply(t, cr, e.(hashFault := hashFault, config := config)).0
  {
    var e' := e.(hashFault := hashFault, config := config);
    assert ChosenTargets(cr, e') == ChosenTargets(cr, e) && ChosenSubnet(cr, e') == ChosenSubnet(cr, e);
  }

  /** Going on means that the pass is its hash step followed by the apply. */
  lemma GoingOn(t: Tables, cr: ConfigObject, e: Environment)
    requires Trigger.Attempts(StoredHash(t, cr.owner), PolicyView(cr, e))
    ensures RunPass(t, cr, e) == RunApply(AfterHash(t, cr, e), cr, e)
  {
  }

  lemma HandleNormalIsVisit(s: World.State, visits: seq<Visit>, hashFault: Trigger.HashFault,
                            config: Trigger.ConfigRead, deletion: DeletionFaults)
    requires Linked(s, visits) && s.phase.Fetched? && s.phase.snap.finalizer && !s.phase.snap.deleting
    ensures var key, snap := s.phase.key, s.phase.snap;
      Linked(World.HandleFetched(s, key, snap, false, hashFault, config, deletion),
             visits + [Reconciled(PassOver(key, snap), CutOff(hashFault, config))])
  {
    var key, snap := s.phase.key, s.phase.snap;
    var v := Reconciled(PassOver(key, snap), CutOff(hashFault, config));
    OneMoreVisit(visits, v);
    CutOffLeavesHash(s.tables, v.cr, hashFault, config);
    assert (visits + [v])[..|visits + [v]| - 1] == visits;
  }

  lemma HandleIsVisit(s: World.State, visits: seq<Visit>, step: World.Step)
    requires Linked(s, visits) && step.Handle? && s.phase.Fetched?
    ensures Linked(World.Do(s, step), MoreVisits(visits, s, step))
  {
    var key, snap := s.phase.key, s.phase.snap;
    if snap.deleting {
      if snap.finalizer {
        OneMoreVisit(visits, Deleted(key, step.deletion));
      } else {
        assert visits + [] == visits;
      }
    } else if snap.finalizer {
      HandleNormalIsVisit(s, visits, step.hashFault, step.config, step.deletion);
    } else {
      assert visits + [] == visits;
    }
  }

  /** The apply of a pending pass completes the visit that was cut off. */
  lemma ResumedVisit(before: Tables, v: Visit, env: Environment)
    requires v.Reconciled? && v.env == CutOff(v.env.hashFault, v.env.config)
    requires Trigger.Attempts(StoredHash(before, v.cr.owner), PolicyView(v.cr, v.env))
    ensures Visited(before, Resumed(v, env)) == RunApply(Visited(before, v), v.cr, env).0
  {
    CutOffLeavesHash(before, v.cr, v.env.hashFault, v.env.config);
    var e := env.(hashFault := v.env.hashFault, config := v.env.config);
    assert PolicyView(v.cr, e) == PolicyView(v.cr, v.env);
    assert AfterHash(before, v.cr, e) == AfterHash(before, v.cr, v.env);
    GoingOn(before, v.cr, e);
    ConfigDoesNotMatter(Visited(before, v), v.cr, env, v.env.hashFault, v.env.config);
  }

  lemma ApplyMovesTables(s: World.State, env: Environment)
    requires s.phase.Applying?
    ensures var s' := World.Do(s, World.RunTransactionStep(env));
      s'.tables == RunApply(s.tables, PassOver(s.phase.key, s.phase.snap), env).0 && !s'.phase.Applying?
  {
  }

  lemma ApplyIsVisit(s: World.State, visits: seq<Visit>, env: Environment)
    requires Linked(s, visits) && s.phase.Applying?
    ensures Linked(World.Do(s, World.RunTransactionStep(env)), MoreVisits(visits, s, World.RunTransactionStep(env)))
  {
    var init, v := visits[..|visits| - 1], visits[|visits| - 1];
    assert visits == init + [v];
    OneMoreVisit(init, v);
    OneMoreVisit(init, Resumed(v, env));
    ResumedVisit(TablesAfter(EMPTY, init), v, env);
    ApplyMovesTables(s, env);
  }

  lemma StepIsVisit(s: World.State, visits: seq<Visit>, step: World.Step)
    requires Linked(s, visits)
    ensures Linked(World.Do(s, step), MoreVisits(visits, s, step))
  {
    if step.Handle? && s.phase.Fetched? {
      HandleIsVisit(s, visits, step);
    } else if step.RunTransactionStep? && s.phase.Applying? {
      ApplyIsVisit(s, visits, step.env);
    }
  }

  lemma {:induction false} StepsAreLinked(steps: seq<World.Step>)
    ensures Linked(World.Run(steps), VisitsOf(steps))
    decreases |steps|
  {
    if steps != [] {
      var init := steps[..|steps| - 1];
      StepsAreLinked(init);
      StepIsVisit(World.Run(init), VisitsOf(init), steps[|steps| - 1]);
    }
  }

  /** For every run of the system, whatever users do and wherever the controller fails or crashes, the tables are
      those of its visits. */
  lemma StepsAreVisits(steps: seq<World.Step>)
    ensures World.Run(steps).tables == TablesAfter(EMPTY, VisitsOf(steps))
  {
    StepsAreLinked(steps);
  }

  // ---------------------------------------------------------------- a pass without interruption

  /** Get, hash step and policy, apply, status: the steps of one pass. */
  function OnePass(s: World.State, key: Owner, env: Environment): World.State {
    var fetched := World.Do(s, World.Get(key));
    var handled := World.Do(fetched, World.Handle(false, env.hashFault, env.config,
                                                  DeletionFaults(false, false, false, CommitOk)));
    World.Do(World.Do(handled, World.RunTransactionStep(env)), World.WriteStatus(env.statusFails))
  }

  lemma StatusWriteKeepsTables(s: World.State, fails: bool)
    ensures World.Do(s, World.WriteStatus(fails)).tables == s.tables
    ensures s.phase.Idle? ==> World.Do(s, World.WriteStatus(fails)) == s
  {
  }

  /** When nobody interferes, the steps over a live object with the finalizer are the pass: its tables, its status,
      and nothing else of the object. */
  lemma StepwisePassIsPass(s: World.State, key: Owner, env: Environment)
    requires s.phase.Idle? && key in s.objects && s.objects[key].finalizer && !s.objects[key].deleting
    ensures var o, s' := s.objects[key], OnePass(s, key, env);
      var cr := PassOver(key, o);
      var status := PersistedStatus(cr, env, RunPass(s.tables, cr, env).1);
      && s'.phase.Idle?
      && s'.tables == RunPass(s.tables, cr, env).0
      && key in s'.objects
      && s'.objects[key].(version := 0) == o.(version := 0, status := if status.Some? then status.value else o.status)
  {
    var o := s.objects[key];
    var cr := PassOver(key, o);
    var step := World.Handle(false, env.hashFault, env.config, DeletionFaults(false, false, false, CommitOk));
    var fetched := World.Do(s, World.Get(key));
    var handled := World.Do(fetched, step);
    World.HandleGoesOn(fetched, step);
    assert Trigger.Pass(o.spec, env.hashFault, env.config) == PolicyView(cr, env);
    if Trigger.Attempts(StoredHash(s.tables, key), PolicyView(cr, env)) {
      GoingOn(s.tables, cr, env);
      World.ApplyMoves(handled, env);
      StatusAfterApply(handled.tables, cr, env);
      var applied := World.Do(handled, World.RunTransactionStep(env));
      StatusWriteKeepsTables(applied, env.statusFails);
      if applied.phase.Committed? {
        World.CompletedIsWritten(applied, env.statusFails);
      }
    } else {
      NotGoingOn(s.tables, cr, env);
    }
  }

  lemma NotGoingOn(t: Tables, cr: ConfigObject, e: Environment)
    requires !Trigger.Attempts(StoredHash(t, cr.owner), PolicyView(cr, e))
    ensures RunPass(t, cr, e).0 == AfterHash(t, cr, e) && PersistedStatus(cr, e, RunPass(t, cr, e).1) == None
  {
  }

  lemma ApplyReports(t: Tables, cr: ConfigObject, e: Environment)
    ensures var o := RunApply(t, cr, e).1; (o.Completed? ==> !e.statusFails) && (o.StatusError? ==> e.statusFails)
  {
  }

  lemma StatusAfterApply(t: Tables, cr: ConfigObject, e: Environment)
    ensures var o := RunApply(t, cr, e).1;
      PersistedStatus(cr, e, o) ==
        if HasCommitted(o) then if e.statusFails then None else Some("Completed")
        else if PersistedStatus(cr, e, o).None? then None else Some("Error")
  {
    ApplyReports(t, cr, e);
    Outcomes.PersistedAfter(cr, e, RunApply(t, cr, e).1);
  }
}
