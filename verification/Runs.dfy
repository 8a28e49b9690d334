/** Whole runs of the one controller over many CRs: no change lost in scheduled mode, how often a CR is applied,
    and two CRs that block each other for good. */
module Runs {
  import opened Common
  import opened Tables
  import opened Rows
  import opened Transaction
  import CommitCondition
  import opened Trigger
  import opened Reconciler

  /** What the one controller does to the tables, one CR after the other. */
  datatype Visit = Reconciled(cr: ConfigObject, env: Environment) | Deleted(gone: Owner, faults: DeletionFaults)

  function OwnerOf(v: Visit): Owner {
    match v
    case Reconciled(cr, _) => cr.owner
    case Deleted(gone, _) => gone
  }

  function Visited(t: Tables, v: Visit): Tables {
    match v
    case Reconciled(cr, env) => RunPass(t, cr, env).0
    case Deleted(gone, faults) => TransactDeletion(t, gone, faults).0
  }

  function TablesAfter(t: Tables, run: seq<Visit>): Tables {
    if run == [] then t else Visited(TablesAfter(t, run[..|run| - 1]), run[|run| - 1])
  }

  /** The pass of visit i, on the tables the earlier visits left. */
  function PassAt(t: Tables, run: seq<Visit>, i: nat): (Tables, Outcome)
    requires i < |run| && run[i].Reconciled?
  {
    RunPass(TablesAfter(t, run[..i]), run[i].cr, run[i].env)
  }

  /** A pass leaves the stored hashes of other CRs alone, and its own when the spec is the stored one. */
  lemma PassTouchesOwnHash(t: Tables, cr: ConfigObject, e: Environment, owner: Owner)
    requires owner != cr.owner || StoredHash(t, owner) == Some(cr.spec)
    ensures StoredHash(RunPass(t, cr, e).0, owner) == StoredHash(t, owner)
  {
    PassKeepsStates(t, cr, e);
  }

  /** Between visits i and j the CR is not deleted, and its passes see the spec that visit i saw. */
  ghost predicate SpecUnchanged(run: seq<Visit>, i: nat, j: nat)
    requires i < j <= |run| && run[i].Reconciled?
  {
    forall k | i <= k < j && OwnerOf(run[k]) == run[i].cr.owner ::
      run[k].Reconciled? && run[k].cr.spec == run[i].cr.spec
  }

  lemma VisitKeepsHash(t: Tables, v: Visit, owner: Owner, spec: Spec)
    requires StoredHash(t, owner) == Some(spec)
    requires OwnerOf(v) == owner ==> v.Reconciled? && v.cr.spec == spec
    ensures StoredHash(Visited(t, v), owner) == Some(spec)
  {
    match v
    case Reconciled(cr, env) => PassTouchesOwnHash(t, cr, env, owner);
    case Deleted(_, _) =>
  }

  /** The hash of visit i is still stored when visit j begins. */
  ghost predicate HashStored(t: Tables, run: seq<Visit>, i: nat, j: nat)
    requires i < |run| && j <= |run| && run[i].Reconciled?
  {
    StoredHash(TablesAfter(t, run[..j]), run[i].cr.owner) == Some(run[i].cr.spec)
  }

  lemma HashSurvivesFirst(t: Tables, run: seq<Visit>, i: nat)
    requires i < |run| && run[i].Reconciled?
    requires PastHashStep(TablesAfter(t, run[..i]), run[i].cr, run[i].env)
    ensures HashStored(t, run, i, i + 1)
  {
    TablesStep(t, run, i);
    PassKeepsHash(TablesAfter(t, run[..i]), run[i].cr, run[i].env);
  }

  lemma HashSurvivesVisit(t: Tables, run: seq<Visit>, i: nat, j: nat)
    requires i + 1 < j <= |run| && run[i].Reconciled? && SpecUnchanged(run, i, j) && HashStored(t, run, i, j - 1)
    ensures HashStored(t, run, i, j)
  {
    TablesStep(t, run, j - 1);
    VisitKeepsHash(TablesAfter(t, run[..j - 1]), run[j - 1], run[i].cr.owner, run[i].cr.spec);
  }

  lemma {:induction false} HashSurvives(t: Tables, run: seq<Visit>, i: nat, j: nat)
    requires i < j <= |run| && run[i].Reconciled? && SpecUnchanged(run, i, j)
    requires PastHashStep(TablesAfter(t, run[..i]), run[i].cr, run[i].env)
    ensures HashStored(t, run, i, j)
    decreases j
  {
    if j == i + 1 {
      HashSurvivesFirst(t, run, i);
    } else {
      HashSurvives(t, run, i, j - 1);
      HashSurvivesVisit(t, run, i, j);
    }
  }

  lemma TablesStep(t: Tables, run: seq<Visit>, n: nat)
    requires n < |run|
    ensures TablesAfter(t, run[..n + 1]) == Visited(TablesAfter(t, run[..n]), run[n])
  {
    assert run[..n + 1][..n] == run[..n];
  }

  lemma StoredSpecGoesOn(t: Tables, cr: ConfigObject, e: Environment)
    requires StoredHash(t, cr.owner) == Some(cr.spec)
    requires PastHashStep(t, cr, e) && EffectiveConfig(e.config).mode == "scheduled"
    ensures RunPass(t, cr, e) == RunApply(t, cr, e)
  {
    assert t.crStates[cr.owner := cr.spec] == t.crStates;
  }

  /** In scheduled mode no spec change is lost. Once a pass has got past its hash step, whatever became of its
      apply and whatever immediateOnCRChange says, every later scheduled pass over the same spec that gets past
      its own hash step goes on to OpenStack; passes and deletions of other CRs may come in between. When it
      commits, the rows are those of the current spec. */
  lemma {:induction false} NoScheduledChangeIsLost(t: Tables, run: seq<Visit>, i: nat, j: nat)
    requires i < j < |run| && run[i].Reconciled? && run[j].Reconciled?
    requires OwnerOf(run[j]) == OwnerOf(run[i]) && SpecUnchanged(run, i, j + 1)
    requires PastHashStep(TablesAfter(t, run[..i]), run[i].cr, run[i].env)
    requires PastHashStep(TablesAfter(t, run[..j]), run[j].cr, run[j].env)
    requires EffectiveConfig(run[j].env.config).mode == "scheduled"
    ensures var before := TablesAfter(t, run[..j]);
      && PassAt(t, run, j) == RunApply(before, run[j].cr, run[j].env)
      && (HasCommitted(PassAt(t, run, j).1) ==>
            RowsMatchSpec(PassAt(t, run, j).0, run[j].cr, run[j].env, Foreign(before, run[j].cr.owner).Keys))
  {
    HashSurvives(t, run, i, j);
    var before := TablesAfter(t, run[..j]);
    StoredSpecGoesOn(before, run[j].cr, run[j].env);
    CommittedRowsMatchSpec(before, run[j].cr, run[j].env);
  }

  // ---------------------------------------------------------------- how often a CR is applied

  /** The pass went on to the OpenStack calls. */
  predicate ReachedApply(o: Outcome) {
    !o.HashError? && !o.NotDue?
  }

  /** The pass as the trigger policy sees it. */
  function PolicyView(cr: ConfigObject, e: Environment): Pass {
    Pass(cr.spec, e.hashFault, e.config)
  }

  lemma ApplyIsReached(t: Tables, cr: ConfigObject, e: Environment)
    ensures ReachedApply(RunApply(t, cr, e).1)
  {
  }

  /** The policy's view decides which passes go on. */
  lemma PolicyDecides(t: Tables, cr: ConfigObject, e: Environment)
    ensures ReachedApply(RunPass(t, cr, e).1) <==> Attempts(StoredHash(t, cr.owner), PolicyView(cr, e))
  {
    ApplyIsReached(AfterHash(t, cr, e), cr, e);
  }

  /** And what hash they leave. */
  lemma PolicyRecords(t: Tables, cr: ConfigObject, e: Environment)
    ensures StoredHash(RunPass(t, cr, e).0, cr.owner)
         == HashStep(StoredHash(t, cr.owner), cr.spec, e.hashFault).0
  {
    PassKeepsStates(t, cr, e);
  }

  /** The passes over one CR, in order. */
  function PassesOf(run: seq<Visit>, owner: Owner): seq<Pass> {
    if run == [] then []
    else
      var v := run[|run| - 1];
      PassesOf(run[..|run| - 1], owner)
      + if v.Reconciled? && v.cr.owner == owner then [PolicyView(v.cr, v.env)] else []
  }

  /** How many of them went on to the OpenStack calls. */
  function AppliesOf(t: Tables, run: seq<Visit>, owner: Owner): nat {
    if run == [] then 0
    else
      var init, v := run[..|run| - 1], run[|run| - 1];
      AppliesOf(t, init, owner)
      + if v.Reconciled? && v.cr.owner == owner && ReachedApply(RunPass(TablesAfter(t, init), v.cr, v.env).1)
        then 1 else 0
  }

  ghost predicate NeverDeleted(run: seq<Visit>, owner: Owner) {
    forall v | v in run && OwnerOf(v) == owner :: v.Reconciled?
  }

  lemma PolicySnoc(stored: Option<Spec>, passes: seq<Pass>, p: Pass)
    ensures StoredAfter(stored, passes + [p]) == HashStep(StoredAfter(stored, passes), p.spec, p.fault).0
    ensures AttemptCount(stored, passes + [p])
         == AttemptCount(stored, passes) + if Attempts(StoredAfter(stored, passes), p) then 1 else 0
  {
    assert (passes + [p])[..|passes|] == passes;
  }

  lemma OthersKeepHash(t: Tables, v: Visit, owner: Owner)
    requires OwnerOf(v) != owner
    ensures StoredHash(Visited(t, v), owner) == StoredHash(t, owner)
  {
    if v.Reconciled? {
      PassTouchesOwnHash(t, v.cr, v.env, owner);
    }
  }

  /** Counting applies on the real passes of a run, with any visits to other CRs in between, is counting
      attempts of the policy. */
  lemma {:induction false} AppliesAreAttempts(t: Tables, run: seq<Visit>, owner: Owner)
    requires NeverDeleted(run, owner)
    ensures AppliesOf(t, run, owner) == AttemptCount(StoredHash(t, owner), PassesOf(run, owner))
    ensures StoredHash(TablesAfter(t, run), owner) == StoredAfter(StoredHash(t, owner), PassesOf(run, owner))
    decreases |run|
  {
    if run != [] {
      var init, v := run[..|run| - 1], run[|run| - 1];
      assert run == init + [v];
      AppliesAreAttempts(t, init, owner);
      var before := TablesAfter(t, init);
      if OwnerOf(v) == owner {
        PolicyDecides(before, v.cr, v.env);
        PolicyRecords(before, v.cr, v.env);
        PolicySnoc(StoredHash(t, owner), PassesOf(init, owner), PolicyView(v.cr, v.env));
      } else {
        OthersKeepHash(before, v, owner);
        assert PassesOf(run, owner) == PassesOf(init, owner);
      }
    }
  }

  /** Outside scheduled mode, from the first sight of a CR to its deletion and with any visits to other CRs in
      between: its passes go on to OpenStack once for the first sight and once for every recorded change. */
  lemma AppliesAreChanges(t: Tables, run: seq<Visit>, owner: Owner)
    requires StoredHash(t, owner) == None && NeverDeleted(run, owner)
    requires forall p | p in PassesOf(run, owner) ::
               EffectiveConfig(p.config).mode != "scheduled" && p.fault != WriteLost
    ensures AppliesOf(t, run, owner) == Changes(Recorded(None, PassesOf(run, owner)))
  {
    AppliesAreAttempts(t, run, owner);
    ManualAppliesEqualChanges(PassesOf(run, owner));
  }

  // ---------------------------------------------------------------- CRs that block each other

  /** Two CRs own interface rows under one node name. */
  predicate SharedNode(t: Tables, id: string, name: string, a: Owner, p: string, b: Owner, q: string) {
    && a != b && CommitCondition.Has(t.nodes, id, name)
    && p in t.interfaces && t.interfaces[p].owner == a && t.interfaces[p].nodeName == name
    && q in t.interfaces && t.interfaces[q].owner == b && t.interfaces[q].nodeName == name
  }

  /** The pass has the VM among its targets under another name, or has no targets. */
  predicate SeesRename(cr: ConfigObject, e: Environment, id: string, name: string) {
    ChosenTargets(cr, e) == [] || exists s | s in ChosenTargets(cr, e) :: s.id == id && s.name != name
  }

  /** The batch of the pass, if it comes to one, names neither port. */
  predicate LeavesPorts(cr: ConfigObject, e: Environment, p: string, q: string) {
    ChosenSubnet(cr, e).Some? ==>
      p !in PortsOf(ChosenChange(cr, e).interfaces) && q !in PortsOf(ChosenChange(cr, e).interfaces)
  }

  /** A pass of one of the two sees the VM renamed; the others name neither port, and neither is deleted. */
  predicate AfterTheRename(v: Visit, id: string, name: string, a: Owner, p: string, b: Owner, q: string) {
    if OwnerOf(v) == a || OwnerOf(v) == b then v.Reconciled? && SeesRename(v.cr, v.env, id, name)
    else v.Reconciled? ==> LeavesPorts(v.cr, v.env, p, q)
  }

  lemma RenameBlocksApply(t: Tables, cr: ConfigObject, e: Environment, id: string, name: string, port: string)
    requires CommitCondition.Has(t.nodes, id, name) && SeesRename(cr, e, id, name)
    requires port in t.interfaces && t.interfaces[port].owner != cr.owner && t.interfaces[port].nodeName == name
    ensures RunApply(t, cr, e).0 == t && !HasCommitted(RunApply(t, cr, e).1)
  {
    var targets := ChosenTargets(cr, e);
    if targets != [] && ChosenSubnet(cr, e).Some? {
      var s :| s in targets && s.id == id && s.name != name;
      var k :| 0 <= k < |targets| && targets[k] == s;
      var ch := ChosenChange(cr, e);
      assert ch.nodes[k].id == id && ch.nodes[k].name == s.name;
      CommitCondition.RenamedVmNeverCommits(t, ch, ch.nodes[k], port);
    }
  }

  lemma RenameBlocksPass(t: Tables, cr: ConfigObject, e: Environment, id: string, name: string, port: string)
    requires CommitCondition.Has(t.nodes, id, name) && SeesRename(cr, e, id, name)
    requires port in t.interfaces && t.interfaces[port].owner != cr.owner && t.interfaces[port].nodeName == name
    ensures RunPass(t, cr, e).0 == AfterHash(t, cr, e) && !HasCommitted(RunPass(t, cr, e).1)
  {
    RenameBlocksApply(AfterHash(t, cr, e), cr, e, id, name, port);
  }

  lemma OthersKeepNode(t: Tables, cr: ConfigObject, e: Environment, id: string, name: string, port: string)
    requires CommitCondition.Has(t.nodes, id, name)
    requires port in t.interfaces && t.interfaces[port].owner != cr.owner && t.interfaces[port].nodeName == name
    requires ChosenSubnet(cr, e).Some? ==> port !in PortsOf(ChosenChange(cr, e).interfaces)
    ensures var t' := RunPass(t, cr, e).0;
      CommitCondition.Has(t'.nodes, id, name) && port in t'.interfaces && t'.interfaces[port] == t.interfaces[port]
  {
    PassIsAllOrNothing(t, cr, e);
    var t1, t' := AfterHash(t, cr, e), RunPass(t, cr, e).0;
    if t' != t1 {
      var ch := ChosenChange(cr, e);
      PassChangeWellFormed(cr.owner, ChosenSubnet(cr, e).value, ChosenTargets(cr, e), cr.createdAt, e.now);
      CommittedPass(t1, ch);
      assert port in Foreign(t1, cr.owner);
      ApplyInClosedForm(t1, ch);
      assert port in Prepare(t1, ch).interfaces;
      CommitCondition.ReferencedNameStays(Prepare(t1, ch), ch.nodes, id, name);
    }
  }

  lemma VisitKeepsShared(t: Tables, v: Visit, id: string, name: string, a: Owner, p: string, b: Owner, q: string)
    requires SharedNode(t, id, name, a, p, b, q) && AfterTheRename(v, id, name, a, p, b, q)
    ensures SharedNode(Visited(t, v), id, name, a, p, b, q)
    ensures v.Reconciled? && (v.cr.owner == a || v.cr.owner == b) ==>
              !HasCommitted(RunPass(t, v.cr, v.env).1) && RunPass(t, v.cr, v.env).0 == AfterHash(t, v.cr, v.env)
  {
    if v.Reconciled? {
      if v.cr.owner == a {
        RenameBlocksPass(t, v.cr, v.env, id, name, q);
      } else if v.cr.owner == b {
        RenameBlocksPass(t, v.cr, v.env, id, name, p);
      } else {
        OthersKeepNode(t, v.cr, v.env, id, name, p);
        OthersKeepNode(t, v.cr, v.env, id, name, q);
      }
    }
  }

  /** Two CRs share a VM and the VM is renamed: from then on no pass of either ever commits or changes more than
      its stored hash, however long the run and whatever the other CRs do, until one of the two is deleted,
      drops the VM or loses its row. */
  lemma {:induction false} SharedRenameBlocksBoth(t: Tables, run: seq<Visit>, id: string, name: string,
                                                  a: Owner, p: string, b: Owner, q: string)
    requires SharedNode(t, id, name, a, p, b, q)
    requires forall v | v in run :: AfterTheRename(v, id, name, a, p, b, q)
    ensures SharedNode(TablesAfter(t, run), id, name, a, p, b, q)
    ensures forall i | 0 <= i < |run| && run[i].Reconciled? && (run[i].cr.owner == a || run[i].cr.owner == b) ::
              && !HasCommitted(PassAt(t, run, i).1)
              && PassAt(t, run, i).0 == AfterHash(TablesAfter(t, run[..i]), run[i].cr, run[i].env)
    decreases |run|
  {
    if run != [] {
      var init, v := run[..|run| - 1], run[|run| - 1];
      assert run == init + [v];
      SharedRenameBlocksBoth(t, init, id, name, a, p, b, q);
      VisitKeepsShared(TablesAfter(t, init), v, id, name, a, p, b, q);
      forall i | 0 <= i < |init|
        ensures run[..i] == init[..i] && run[i] == init[i]
      {
      }
    }
  }
}
