/** The reconciler's pass over one OpenstackConfig: hash step, trigger policy, OpenStack answers, one
    transaction, status. Anything that can fail fails on demand of the environment. */
module Reconciler {
  import opened Common
  import opened Tables
  import opened Rows
  import Arguments
  import opened Transaction
  import opened Trigger

  /** CommitLost: the commit takes effect but its answer is an error. */
  datatype CommitFault = CommitOk | CommitFails | CommitLost

  /** Which statements of a transaction fail for reasons of their own. */
  datatype TxFaults = TxFaults(
    begin: bool, delete: bool, subnet: bool, nodes: bool, interfaces: bool, commit: CommitFault)

  datatype DeletionFaults = DeletionFaults(begin: bool, interfaces: bool, state: bool, commit: CommitFault)

  datatype ConfigObject = ConfigObject(owner: Owner, spec: Spec, createdAt: int)

  /** Everything a pass learns from outside. */
  datatype Environment = Environment(
    hashFault: HashFault, config: ConfigRead,
    networkClientOk: bool, computeClientOk: bool, servers: Option<seq<Server>>, attempts: seq<Attempt>,
    faults: TxFaults, statusFails: bool, now: int)

  datatype Outcome =
    | HashError                    // requeue after the default interval, with an error
    | NotDue(requeue: int)         // the policy skips this pass
    | ApiError(requeue: int)       // OpenStack did not answer, or the subnet was not found
    | NoTargets(requeue: int)      // none of the named VMs exists
    | Aborted(requeue: int)        // the transaction reported an error, or a panic unwound it
    | StatusError                  // committed, but the status could not be written
    | Completed(requeue: int)

  /** The requeue delay of a result; the two results with fixed delays carry an error. */
  function RequeueAfter(o: Outcome): int {
    match o
    case HashError => RECONCILE_INTERVAL
    case StatusError => 10 * SECOND
    case NotDue(d) => d
    case ApiError(d) => d
    case NoTargets(d) => d
    case Aborted(d) => d
    case Completed(d) => d
  }

  // ---------------------------------------------------------------- the pass as a function

  /** Some statement or the row loop stops the transaction before its commit. */
  predicate Stopped(ch: Change, panics: bool, f: TxFaults) {
    f.begin || f.delete || f.subnet || (f.nodes && ch.nodes != []) || panics || (f.interfaces && ch.interfaces != [])
  }

  /** The tables after the transaction, and whether it reported success. */
  function Transact(t: Tables, ch: Change, panics: bool, f: TxFaults): (Tables, bool) {
    if Stopped(ch, panics, f) || Apply(t, ch).Err? || f.commit.CommitFails? then (t, false)
    else (Apply(t, ch).value, f.commit.CommitOk?)
  }

  function StoredHash(t: Tables, owner: Owner): Option<Spec> {
    if owner in t.crStates then Some(t.crStates[owner]) else None
  }

  /** The tables after the hash step. */
  function WithHash(t: Tables, owner: Owner, stored: Option<Spec>): Tables {
    if stored.None? then t else t.(crStates := t.crStates[owner := stored.value])
  }

  function ChosenTargets(cr: ConfigObject, e: Environment): seq<Server> {
    if e.servers.None? then [] else Targets(e.servers.value, cr.spec.vmNames)
  }

  function ChosenSubnet(cr: ConfigObject, e: Environment): Option<Subnet> {
    FirstNamed(Visible(e.attempts), cr.spec.subnetName)
  }

  /** The change the pass asks for, when OpenStack gave the data for it. */
  function ChosenChange(cr: ConfigObject, e: Environment): Change
    requires ChosenSubnet(cr, e).Some?
  {
    PassChange(cr.owner, ChosenSubnet(cr, e).value, ChosenTargets(cr, e), cr.createdAt, e.now)
  }

  /** Why a pass cannot even begin its transaction. */
  function Obstacle(cr: ConfigObject, e: Environment, next: int): Option<Outcome> {
    if !e.networkClientOk || !e.computeClientOk || e.servers.None? then Some(ApiError(next))
    else if ChosenTargets(cr, e) == [] then Some(NoTargets(next))
    else if ChosenSubnet(cr, e).None? then Some(ApiError(next))
    else None
  }

  /** What a finished transaction is reported as. */
  function Report(ok: bool, statusFails: bool, next: int): Outcome {
    if !ok then Aborted(next) else if statusFails then StatusError else Completed(next)
  }

  /** What follows the decision to go on. */
  function RunApply(t: Tables, cr: ConfigObject, e: Environment): (Tables, Outcome) {
    var next := NextInterval(EffectiveConfig(e.config));
    var obstacle := Obstacle(cr, e, next);
    if obstacle.Some? then (t, obstacle.value)
    else
      var panics := BuildPanics(ChosenTargets(cr, e), ChosenSubnet(cr, e).value.id);
      var tx := Transact(t, ChosenChange(cr, e), panics, e.faults);
      (tx.0, Report(tx.1, e.statusFails, next))
  }

  /** The whole pass. */
  function RunPass(t: Tables, cr: ConfigObject, e: Environment): (Tables, Outcome) {
    var hash := HashStep(StoredHash(t, cr.owner), cr.spec, e.hashFault);
    var t1 := WithHash(t, cr.owner, hash.0);
    if hash.1.None? then (t1, HashError)
    else
      var go := ShouldReconcile(EffectiveConfig(e.config), hash.1.value);
      if !go.0 then (t1, NotDue(go.1)) else RunApply(t1, cr, e)
  }

  /** The status string a pass persists, if any. */
  function PersistedStatus(cr: ConfigObject, e: Environment, outcome: Outcome): Option<string> {
    match outcome
    case Completed(_) => Some("Completed")
    case NoTargets(_) => if e.statusFails then None else Some("Error")
    case ApiError(_) => if !e.networkClientOk && !e.statusFails then Some("Error") else None
    case _ => None
  }

  // ---------------------------------------------------------------- the database object

  /** The server's side of one connection: the committed tables and the open transaction. */
  class Database {
    var tables: Tables
    var working: Option<Tables>

    constructor ()
      ensures tables == Tables(map[], map[], map[], map[]) && working.None?
    {
      tables := Tables(map[], map[], map[], map[]);
      working := None;
    }

    /** SELECT and INSERT or UPDATE of cr_state, each its own transaction. */
    method HasChanged(owner: Owner, spec: Spec, fault: HashFault) returns (changed: Option<bool>)
      modifies this`tables
      ensures var step := HashStep(StoredHash(old(tables), owner), spec, fault);
              changed == step.1 && tables == WithHash(old(tables), owner, step.0)
    {
      if fault.QueryFails? {
        return None;
      }
      if owner !in tables.crStates {
        if fault.WriteFails? {
          return None;
        }
        tables := tables.(crStates := tables.crStates[owner := spec]);
        if fault.WriteLost? {
          return None;
        }
        return Some(true);
      }
      var hasChanged := tables.crStates[owner] != spec;
      if hasChanged {
        if fault.WriteFails? {
          return None;
        }
        tables := tables.(crStates := tables.crStates[owner := spec]);
        if fault.WriteLost? {
          return None;
        }
      }
      return Some(hasChanged);
    }

    method BeginTx(fails: bool) returns (ok: bool)
      requires working.None?
      modifies this`working
      ensures ok == !fails && working == if ok then Some(tables) else None
    {
      ok := !fails;
      if ok {
        working := Some(tables);
      }
    }

    method ExecDeleteInterfaces(owner: Owner, fails: bool) returns (ok: bool)
      requires working.Some?
      modifies this`working
      ensures ok == !fails
      ensures working == if ok then Some(DeleteInterfaces(old(working).value, owner)) else old(working)
    {
      ok := !fails;
      if ok {
        working := Some(DeleteInterfaces(working.value, owner));
      }
    }

    method ExecDeleteState(owner: Owner, fails: bool) returns (ok: bool)
      requires working.Some?
      modifies this`working
      ensures ok == !fails
      ensures working == if ok then Some(DeleteState(old(working).value, owner)) else old(working)
    {
      ok := !fails;
      if ok {
        working := Some(DeleteState(working.value, owner));
      }
    }

    method ExecUpsertSubnet(v: SubnetValues, fails: bool) returns (ok: bool)
      requires working.Some?
      modifies this`working
      ensures ok == !fails
      ensures working == if ok then Some(UpsertSubnet(old(working).value, v)) else old(working)
    {
      ok := !fails;
      if ok {
        working := Some(UpsertSubnet(working.value, v));
      }
    }

    /** Binds the flat arguments and runs the batch; a failed statement changes nothing. */
    method ExecUpsertNodes(placeholders: seq<string>, args: seq<Arguments.SqlValue>, fails: bool) returns (ok: bool)
      requires working.Some?
      modifies this`working
      ensures var rows := Arguments.BindNodes(|placeholders|, args);
        && (ok <==> !fails && rows.Some? && UpsertNodes(old(working).value, rows.value).Ok?)
        && working == if ok then Some(UpsertNodes(old(working).value, rows.value).value) else old(working)
    {
      var rows := Arguments.BindNodes(|placeholders|, args);
      if fails || rows.None? {
        return false;
      }
      var result := UpsertNodes(working.value, rows.value);
      ok := result.Ok?;
      if ok {
        working := Some(result.value);
      }
    }

    method ExecUpsertInterfaces(placeholders: seq<string>, args: seq<Arguments.SqlValue>, fails: bool)
      returns (ok: bool)
      requires working.Some?
      modifies this`working
      ensures var rows := Arguments.BindInterfaces(|placeholders|, args);
        && (ok <==> !fails && rows.Some? && UpsertInterfaces(old(working).value, rows.value).Ok?)
        && working == if ok then Some(UpsertInterfaces(old(working).value, rows.value).value) else old(working)
    {
      var rows := Arguments.BindInterfaces(|placeholders|, args);
      if fails || rows.None? {
        return false;
      }
      var result := UpsertInterfaces(working.value, rows.value);
      ok := result.Ok?;
      if ok {
        working := Some(result.value);
      }
    }

    method Commit(fault: CommitFault) returns (ok: bool)
      requires working.Some?
      modifies this
      ensures ok == fault.CommitOk? && working.None?
      ensures tables == if fault.CommitFails? then old(tables) else old(working).value
    {
      ok := fault.CommitOk?;
      if !fault.CommitFails? {
        tables := working.value;
      }
      working := None;
    }

    /** Deferred: without effect once the transaction has ended. */
    method Rollback()
      modifies this`working
      ensures working.None?
    {
      working := None;
    }
  }

  // ---------------------------------------------------------------- the transaction, statement by statement

  /** The statements from BeginTx to Commit; the caller rolls back. */
  method TryTransaction(db: Database, cr: ConfigObject, subnet: Subnet, targets: seq<Server>, f: TxFaults, now: int)
    returns (ok: bool)
    requires db.working.None?
    modifies db
    ensures var ch := PassChange(cr.owner, subnet, targets, cr.createdAt, now);
            (db.tables, ok) == Transact(old(db.tables), ch, BuildPanics(targets, subnet.id), f)
  {
    ghost var t := db.tables;
    ghost var ch := PassChange(cr.owner, subnet, targets, cr.createdAt, now);
    ok := db.BeginTx(f.begin);
    if !ok {
      return;
    }
    ok := db.ExecDeleteInterfaces(cr.owner, f.delete);
    if !ok {
      return;
    }
    ok := db.ExecUpsertSubnet(
      SubnetValues(subnet.id, subnet.name, subnet.cidr, subnet.networkId, cr.createdAt, now), f.subnet);
    if !ok {
      return;
    }
    var placeholders, args := Arguments.BuildNodeBatch(targets, cr.createdAt, now);
    if |args| > 0 {
      ok := db.ExecUpsertNodes(placeholders, args, f.nodes);
      if !ok {
        return;
      }
    }
    assert UpsertNodes(Prepare(t, ch), ch.nodes) == Ok(db.working.value);
    var panicked;
    placeholders, args, panicked :=
      Arguments.BuildInterfaceBatch(Context(cr.owner, subnet.id, cr.createdAt, now), targets);
    if panicked {
      return false;
    }
    Arguments.InterfaceArgumentCount(|placeholders|, args);
    if |args| > 0 {
      ok := db.ExecUpsertInterfaces(placeholders, args, f.interfaces);
      if !ok {
        return;
      }
    }
    assert Apply(t, ch) == Ok(db.working.value);
    ok := db.Commit(f.commit);
  }

  /** The transaction with its deferred rollback. */
  method RunTransaction(db: Database, cr: ConfigObject, subnet: Subnet, targets: seq<Server>, f: TxFaults, now: int)
    returns (ok: bool)
    requires db.working.None?
    modifies db
    ensures db.working.None?
    ensures var ch := PassChange(cr.owner, subnet, targets, cr.createdAt, now);
            (db.tables, ok) == Transact(old(db.tables), ch, BuildPanics(targets, subnet.id), f)
  {
    ok := TryTransaction(db, cr, subnet, targets, f, now);
    db.Rollback();
  }

  /** The OpenStack part: clients, servers, subnet. */
  method Observe(cr: ConfigObject, e: Environment, next: int)
    returns (obstacle: Option<Outcome>, targets: seq<Server>, subnet: Option<Subnet>)
    ensures obstacle == Obstacle(cr, e, next)
    ensures obstacle.None? ==> targets == ChosenTargets(cr, e) && subnet == ChosenSubnet(cr, e)
  {
    obstacle, targets, subnet := Some(ApiError(next)), [], None;
    if !e.networkClientOk || !e.computeClientOk || e.servers.None? {
      return;
    }
    targets := SelectTargets(e.servers.value, cr.spec.vmNames);
    if |targets| == 0 {
      obstacle := Some(NoTargets(next));
      return;
    }
    subnet := FindSubnet(e.attempts, cr.spec.subnetName);
    if subnet.Some? {
      obstacle := None;
    }
  }

  lemma StatusOfObstacle(cr: ConfigObject, e: Environment, next: int)
    requires Obstacle(cr, e, next).Some?
    ensures var outcome := Obstacle(cr, e, next).value;
      PersistedStatus(cr, e, outcome) ==
        if !e.statusFails && (!e.networkClientOk || outcome.NoTargets?) then Some("Error") else None
  {
  }

  /** From the OpenStack clients to the status. */
  method ApplyConfig(db: Database, cr: ConfigObject, e: Environment, next: int)
    returns (outcome: Outcome, persisted: Option<string>)
    requires db.working.None? && next == NextInterval(EffectiveConfig(e.config))
    modifies db
    ensures db.working.None?
    ensures (db.tables, outcome) == RunApply(old(db.tables), cr, e)
    ensures persisted == PersistedStatus(cr, e, outcome)
  {
    var obstacle, targets, subnet := Observe(cr, e, next);
    if obstacle.Some? {
      StatusOfObstacle(cr, e, next);
      outcome := obstacle.value;
      persisted := if !e.statusFails && (!e.networkClientOk || outcome.NoTargets?) then Some("Error") else None;
      return;
    }
    var ok := RunTransaction(db, cr, subnet.value, targets, e.faults, e.now);
    outcome := Report(ok, e.statusFails, next);
    persisted := if ok && !e.statusFails then Some("Completed") else None;
  }

  /** The pass. */
  method ReconcileNormal(db: Database, cr: ConfigObject, e: Environment)
    returns (outcome: Outcome, persisted: Option<string>)
    requires db.working.None?
    modifies db
    ensures db.working.None?
    ensures (db.tables, outcome) == RunPass(old(db.tables), cr, e)
    ensures persisted == PersistedStatus(cr, e, outcome)
  {
    var changed := db.HasChanged(cr.owner, cr.spec, e.hashFault);
    if changed.None? {
      return HashError, None;
    }
    var config := EffectiveConfig(e.config);
    var go := ShouldReconcile(config, changed.value);
    if !go.0 {
      return NotDue(go.1), None;
    }
    outcome, persisted := ApplyConfig(db, cr, e, NextInterval(config));
  }

  /** The tables after the deletion transaction, and whether it reported success. */
  function TransactDeletion(t: Tables, owner: Owner, f: DeletionFaults): (Tables, bool) {
    if f.begin || f.interfaces || f.state || f.commit.CommitFails? then (t, false)
    else (Forget(t, owner), f.commit.CommitOk?)
  }

  /** The deletion transaction of handleDeletion. */
  method DeleteRows(db: Database, owner: Owner, f: DeletionFaults) returns (ok: bool)
    requires db.working.None?
    modifies db
    ensures db.working.None?
    ensures (db.tables, ok) == TransactDeletion(old(db.tables), owner, f)
  {
    ok := db.BeginTx(f.begin);
    if ok {
      ok := db.ExecDeleteInterfaces(owner, f.interfaces);
      if ok {
        ok := db.ExecDeleteState(owner, f.state);
        if ok {
          ok := db.Commit(f.commit);
        }
      }
    }
    db.Rollback();
  }

  /** Whichever statement fails, the deletion removes all rows of the CR and nothing else, or nothing. */
  lemma DeletionIsAllOrNothing(t: Tables, owner: Owner, f: DeletionFaults)
    ensures var (t', ok) := TransactDeletion(t, owner, f);
      && (t' == t || (OwnedPorts(t', owner) == {} && StoredHash(t', owner) == None))
      && (ok ==> OwnedPorts(t', owner) == {} && StoredHash(t', owner) == None)
      && (ok <==> !f.begin && !f.interfaces && !f.state && f.commit.CommitOk?)
      && Foreign(t', owner) == Foreign(t, owner)
      && (forall k | k != owner :: StoredHash(t', k) == StoredHash(t, k))
      && t'.subnets == t.subnets && t'.nodes == t.nodes
  {
  }

  // ---------------------------------------------------------------- what a pass guarantees

  /** The tables after the hash step of a pass. */
  function AfterHash(t: Tables, cr: ConfigObject, e: Environment): Tables {
    WithHash(t, cr.owner, HashStep(StoredHash(t, cr.owner), cr.spec, e.hashFault).0)
  }

  /** Whichever statement fails, the transaction leaves the tables as they were or completely changed; only
      cr_state moves outside it, and "Completed" is persisted only over the complete state. */
  lemma PassIsAllOrNothing(t: Tables, cr: ConfigObject, e: Environment)
    ensures var (t', outcome) := RunPass(t, cr, e);
      && (t' == AfterHash(t, cr, e)
          || (ChosenSubnet(cr, e).Some? && Apply(AfterHash(t, cr, e), ChosenChange(cr, e)) == Ok(t')))
      && (HasCommitted(outcome) ==>
            ChosenSubnet(cr, e).Some? && Apply(AfterHash(t, cr, e), ChosenChange(cr, e)) == Ok(t'))
      && (PersistedStatus(cr, e, outcome) == Some("Completed") ==> outcome.Completed?)
  {
    ApplyIsAllOrNothing(AfterHash(t, cr, e), cr, e);
    CompletedIsPersistedLast(cr, e, RunPass(t, cr, e).1);
  }

  /** Of the stored hashes, a pass moves only its own, and only in the hash step. */
  lemma ApplyKeepsStates(t: Tables, cr: ConfigObject, e: Environment)
    ensures RunApply(t, cr, e).0.crStates == t.crStates
  {
    ApplyIsAllOrNothing(t, cr, e);
    if RunApply(t, cr, e).0 != t {
      PassChangeWellFormed(cr.owner, ChosenSubnet(cr, e).value, ChosenTargets(cr, e), cr.createdAt, e.now);
      ApplyInClosedForm(t, ChosenChange(cr, e));
    }
  }

  lemma PassKeepsStates(t: Tables, cr: ConfigObject, e: Environment)
    ensures RunPass(t, cr, e).0.crStates == AfterHash(t, cr, e).crStates
  {
    ApplyKeepsStates(AfterHash(t, cr, e), cr, e);
  }

  lemma CompletedIsPersistedLast(cr: ConfigObject, e: Environment, outcome: Outcome)
    ensures PersistedStatus(cr, e, outcome) == Some("Completed") ==> outcome.Completed?
  {
  }

  lemma ApplyIsAllOrNothing(t: Tables, cr: ConfigObject, e: Environment)
    ensures var (t', outcome) := RunApply(t, cr, e);
      && (t' == t || (ChosenSubnet(cr, e).Some? && Apply(t, ChosenChange(cr, e)) == Ok(t')))
      && (HasCommitted(outcome) ==>
            ChosenSubnet(cr, e).Some? && Apply(t, ChosenChange(cr, e)) == Ok(t'))
  {
  }

  /** No pass ever breaks a foreign key. */
  lemma {:induction false} PassKeepsForeignKeys(t: Tables, cr: ConfigObject, e: Environment)
    requires ForeignKeysHold(t)
    ensures ForeignKeysHold(RunPass(t, cr, e).0)
  {
    PassIsAllOrNothing(t, cr, e);
    var t1 := AfterHash(t, cr, e);
    forall p | p in t1.interfaces
      ensures RowAnchored(t1, t1.interfaces[p])
    {
      assert RowAnchored(t, t.interfaces[p]);
    }
    if RunPass(t, cr, e).0 != t1 {
      ApplyKeepsForeignKeys(t1, ChosenChange(cr, e));
    }
  }

  /** The rows the current spec asks for. */
  ghost predicate RowsMatchSpec(t: Tables, cr: ConfigObject, e: Environment, others: set<string>) {
    && ChosenSubnet(cr, e).Some?
    && var rows := ChosenChange(cr, e).interfaces;
       OwnedPorts(t, cr.owner) == PortsOf(rows) - others
       && forall p | p in OwnedPorts(t, cr.owner) :: t.interfaces[p] == Fresh(LastRow(rows, p))
  }

  lemma AppliedRowsMatchSpec(t: Tables, cr: ConfigObject, e: Environment, t': Tables)
    requires ChosenSubnet(cr, e).Some?
    ensures Apply(t, ChosenChange(cr, e)) == Ok(t') ==>
              RowsMatchSpec(t', cr, e, Foreign(t, cr.owner).Keys) && t'.crStates == t.crStates
  {
    PassChangeWellFormed(cr.owner, ChosenSubnet(cr, e).value, ChosenTargets(cr, e), cr.createdAt, e.now);
    if Apply(t, ChosenChange(cr, e)) == Ok(t') {
      CommittedPass(t, ChosenChange(cr, e));
    }
  }

  /** The hash step succeeds. */
  predicate PastHashStep(t: Tables, cr: ConfigObject, e: Environment) {
    HashStep(StoredHash(t, cr.owner), cr.spec, e.hashFault).1.Some?
  }

  predicate HasCommitted(outcome: Outcome) {
    outcome.Completed? || outcome.StatusError?
  }

  /** A pass that gets past its hash step has stored the spec and moved nothing else. */
  lemma HashStepRecords(t: Tables, cr: ConfigObject, e: Environment)
    requires PastHashStep(t, cr, e)
    ensures AfterHash(t, cr, e) == t.(crStates := t.crStates[cr.owner := cr.spec])
  {
  }

  /** A completed pass leaves exactly the rows of the spec it saw, and that spec as the stored hash. */
  lemma CommittedRowsMatchSpec(t: Tables, cr: ConfigObject, e: Environment)
    ensures var (t', outcome) := RunPass(t, cr, e);
            HasCommitted(outcome) ==>
              RowsMatchSpec(t', cr, e, Foreign(t, cr.owner).Keys)
              && t'.crStates == t.crStates[cr.owner := cr.spec]
  {
    if HasCommitted(RunPass(t, cr, e).1) {
      HashStepRecords(t, cr, e);
      var t1 := AfterHash(t, cr, e);
      PassIsAllOrNothing(t, cr, e);
      AppliedRowsMatchSpec(t1, cr, e, RunPass(t, cr, e).0);
      assert Foreign(t1, cr.owner) == Foreign(t, cr.owner);
    }
  }

  lemma PassKeepsHash(t: Tables, cr: ConfigObject, e: Environment)
    requires PastHashStep(t, cr, e)
    ensures StoredHash(RunPass(t, cr, e).0, cr.owner) == Some(cr.spec)
  {
    HashStepRecords(t, cr, e);
    PassKeepsStates(t, cr, e);
  }
}
