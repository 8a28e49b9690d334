/** Which outcome, which status, which delay and which tables a pass has, read off its environment. */
module Outcomes {
  import opened Common
  import opened Tables
  import opened Rows
  import opened Transaction
  import opened Reconciler
  import Trigger

  /** The stored hash can be read and, for a new spec, replaced. */
  predicate HashWorks(t: Tables, cr: ConfigObject, e: Environment) {
    && !e.hashFault.QueryFails?
    && (e.hashFault.NoFault? || StoredHash(t, cr.owner) == Some(cr.spec))
  }

  /** The policy lets the pass go on: in scheduled mode unless a change has to wait, else only for a change. */
  predicate PolicyGoes(t: Tables, cr: ConfigObject, e: Environment) {
    var c := Trigger.EffectiveConfig(e.config);
    var changed := StoredHash(t, cr.owner) != Some(cr.spec);
    if c.mode == "scheduled" then !changed || c.immediateOnCRChange else changed
  }

  predicate GoesOn(t: Tables, cr: ConfigObject, e: Environment) {
    HashWorks(t, cr, e) && PolicyGoes(t, cr, e)
  }

  /** Both clients and the server list are there. */
  predicate Answered(e: Environment) {
    e.networkClientOk && e.computeClientOk && e.servers.Some?
  }

  /** A listed server is named in the spec. */
  ghost predicate SomeTarget(cr: ConfigObject, e: Environment) {
    e.servers.Some? && exists s | s in e.servers.value :: s.name in cr.spec.vmNames
  }

  /** A subnet of the wanted name was shown. */
  ghost predicate SubnetShown(cr: ConfigObject, e: Environment) {
    exists s | s in Visible(e.attempts) :: s.name == cr.spec.subnetName
  }

  /** The pass comes to its transaction. */
  ghost predicate Begins(t: Tables, cr: ConfigObject, e: Environment) {
    GoesOn(t, cr, e) && Answered(e) && SomeTarget(cr, e) && SubnetShown(cr, e)
  }

  lemma TargetsIff(cr: ConfigObject, e: Environment)
    ensures ChosenTargets(cr, e) != [] <==> SomeTarget(cr, e)
  {
    if e.servers.Some? {
      var targets := ChosenTargets(cr, e);
      if targets != [] {
        TargetsAreTheNamedServers(e.servers.value, cr.spec.vmNames, targets[0]);
      }
      if s :| s in e.servers.value && s.name in cr.spec.vmNames {
        TargetsAreTheNamedServers(e.servers.value, cr.spec.vmNames, s);
      }
    }
  }

  lemma SubnetIff(cr: ConfigObject, e: Environment)
    ensures ChosenSubnet(cr, e).Some? <==> SubnetShown(cr, e)
    ensures ChosenSubnet(cr, e).Some? ==> ChosenSubnet(cr, e).value.name == cr.spec.subnetName
  {
  }

  /** No statement that is sent fails, no row panics, and no constraint is violated. */
  ghost predicate StatementsRun(t: Tables, cr: ConfigObject, e: Environment)
    requires ChosenSubnet(cr, e).Some?
  {
    var ch := ChosenChange(cr, e);
    && !e.faults.begin && !e.faults.delete && !e.faults.subnet && !e.faults.nodes
    && (e.faults.interfaces ==> ch.interfaces == [])
    && !BuildPanics(ChosenTargets(cr, e), ChosenSubnet(cr, e).value.id)
    && Apply(AfterHash(t, cr, e), ch).Ok?
  }

  ghost predicate TransactionRuns(t: Tables, cr: ConfigObject, e: Environment) {
    SubnetIff(cr, e);
    Begins(t, cr, e) && StatementsRun(t, cr, e)
  }

  lemma GoingOn(t: Tables, cr: ConfigObject, e: Environment)
    ensures RunPass(t, cr, e) ==
      if !HashWorks(t, cr, e) then (AfterHash(t, cr, e), HashError)
      else if PolicyGoes(t, cr, e) then RunApply(AfterHash(t, cr, e), cr, e)
      else
        var c := Trigger.EffectiveConfig(e.config);
        (AfterHash(t, cr, e),
         NotDue(if c.mode == "scheduled" then Trigger.Period(c.interval) else 86_400_000_000_000))
  {
    var stored := StoredHash(t, cr.owner);
    Trigger.HashStepIs(stored, cr.spec, e.hashFault);
    Trigger.PolicyIs(Trigger.EffectiveConfig(e.config), stored != Some(cr.spec));
  }

  /** What the apply comes to, on the tables after the hash step. */
  lemma ApplyOutcome(t: Tables, cr: ConfigObject, e: Environment)
    ensures var (t', o) := RunApply(AfterHash(t, cr, e), cr, e);
      && (o.ApiError? <==> !Answered(e) || (SomeTarget(cr, e) && !SubnetShown(cr, e)))
      && (o.NoTargets? <==> Answered(e) && !SomeTarget(cr, e))
      && (o.ApiError? || o.NoTargets? || o.Aborted? || HasCommitted(o))
      && (o.StatusError? ==> e.statusFails) && (o.Completed? ==> !e.statusFails)
      && (Answered(e) && SomeTarget(cr, e) && SubnetShown(cr, e) ==>
            && ChosenSubnet(cr, e).Some?
            && (HasCommitted(o) <==> StatementsRun(t, cr, e) && e.faults.commit.CommitOk?)
            && t' == if StatementsRun(t, cr, e) && !e.faults.commit.CommitFails?
                     then Apply(AfterHash(t, cr, e), ChosenChange(cr, e)).value else AfterHash(t, cr, e))
      && (!(Answered(e) && SomeTarget(cr, e) && SubnetShown(cr, e)) ==> t' == AfterHash(t, cr, e))
  {
    TargetsIff(cr, e);
    SubnetIff(cr, e);
    if Answered(e) && SomeTarget(cr, e) && SubnetShown(cr, e) {
      var ch := ChosenChange(cr, e);
      assert |ch.nodes| == |ChosenTargets(cr, e)|;
    }
  }

  /** Which outcome a pass has. */
  lemma OutcomeOfPass(t: Tables, cr: ConfigObject, e: Environment)
    ensures var o := RunPass(t, cr, e).1;
      && (o.HashError? <==> !HashWorks(t, cr, e))
      && (o.NotDue? <==> HashWorks(t, cr, e) && !PolicyGoes(t, cr, e))
      && (o.ApiError? <==> GoesOn(t, cr, e) && (!Answered(e) || (SomeTarget(cr, e) && !SubnetShown(cr, e))))
      && (o.NoTargets? <==> GoesOn(t, cr, e) && Answered(e) && !SomeTarget(cr, e))
      && (o.Completed? <==> TransactionRuns(t, cr, e) && e.faults.commit.CommitOk? && !e.statusFails)
      && (o.StatusError? <==> TransactionRuns(t, cr, e) && e.faults.commit.CommitOk? && e.statusFails)
      && (o.Aborted? <==> Begins(t, cr, e) && !(TransactionRuns(t, cr, e) && e.faults.commit.CommitOk?))
  {
    GoingOn(t, cr, e);
    ApplyOutcome(t, cr, e);
  }

  /** The tables a pass leaves: with all statements through and the commit in effect, answered or not, those of the
      transaction; else those of the hash step. */
  lemma TablesOfPass(t: Tables, cr: ConfigObject, e: Environment)
    ensures TransactionRuns(t, cr, e) && !e.faults.commit.CommitFails? ==>
      ChosenSubnet(cr, e).Some? && Apply(AfterHash(t, cr, e), ChosenChange(cr, e)) == Ok(RunPass(t, cr, e).0)
    ensures !(TransactionRuns(t, cr, e) && !e.faults.commit.CommitFails?) ==>
      RunPass(t, cr, e).0 == AfterHash(t, cr, e)
  {
    GoingOn(t, cr, e);
    ApplyOutcome(t, cr, e);
  }

  lemma PersistedAfter(cr: ConfigObject, e: Environment, o: Outcome)
    ensures PersistedStatus(cr, e, o) ==
      if o.Completed? then Some("Completed")
      else if !e.statusFails && (o.NoTargets? || (o.ApiError? && !e.networkClientOk)) then Some("Error")
      else None
  {
  }

  /** Which status a pass persists: "Completed" exactly after a reported commit, "Error" exactly when it goes on and
      either the network client fails or no listed server is named in the spec; nothing when the write fails. */
  lemma StatusOfPass(t: Tables, cr: ConfigObject, e: Environment)
    ensures var status := PersistedStatus(cr, e, RunPass(t, cr, e).1);
      && (status == Some("Completed") <==>
            TransactionRuns(t, cr, e) && e.faults.commit.CommitOk? && !e.statusFails)
      && (status == Some("Error") <==>
            GoesOn(t, cr, e) && !e.statusFails && (!e.networkClientOk || (Answered(e) && !SomeTarget(cr, e))))
      && (status == None || status == Some("Completed") || status == Some("Error"))
    ensures HasCommitted(RunPass(t, cr, e).1) ==>
      PersistedStatus(cr, e, RunPass(t, cr, e).1) == if e.statusFails then None else Some("Completed")
  {
    OutcomeOfPass(t, cr, e);
    PersistedAfter(cr, e, RunPass(t, cr, e).1);
  }

  lemma ApplyWaits(t: Tables, cr: ConfigObject, e: Environment)
    ensures var o := RunApply(t, cr, e).1;
      RequeueAfter(o) ==
        if o.StatusError? then 10_000_000_000 else Trigger.NextInterval(Trigger.EffectiveConfig(e.config))
  {
  }

  /** When the next pass is due, in nanoseconds and in terms of the configuration that was read. */
  lemma RequeueOfPass(t: Tables, cr: ConfigObject, e: Environment)
    ensures var o, c := RunPass(t, cr, e).1, Trigger.EffectiveConfig(e.config);
      RequeueAfter(o) ==
        if o.HashError? then 300_000_000_000
        else if o.StatusError? then 10_000_000_000
        else if c.mode == "scheduled" then Trigger.Period(c.interval)
        else if o.NotDue? || c.mode == "manual" then 86_400_000_000_000
        else 300_000_000_000
    ensures RequeueAfter(RunPass(t, cr, e).1) > 0
  {
    GoingOn(t, cr, e);
    ApplyOutcome(t, cr, e);
    ApplyWaits(AfterHash(t, cr, e), cr, e);
    Trigger.NextIntervalIs(Trigger.EffectiveConfig(e.config));
  }
}
