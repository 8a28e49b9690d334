/** Exactly when the transaction commits: what a batch of node rows does to node_table, renames included, read
    off the batch and the earlier tables alone. */
module CommitCondition {
  import opened Common
  import opened Tables
  import opened Rows
  import opened Transaction

  // ---------------------------------------------------------------- rows of a node batch

  predicate Has(nodes: NodeTable, id: string, name: string) {
    id in nodes && nodes[id].nodeName == name
  }

  /** One of the first n rows is for the id. */
  predicate HasRowBefore(vs: seq<NodeValues>, n: nat, id: string)
    requires n <= |vs|
  {
    exists m | 0 <= m < n :: vs[m].id == id
  }

  /** Row m is the last one for the id among the first n. */
  predicate LastRowFor(vs: seq<NodeValues>, m: nat, n: nat, id: string)
    requires m < n <= |vs|
  {
    vs[m].id == id && forall j | m < j < n :: vs[j].id != id
  }

  /** After n rows the id is in the table: it was before, or one of its rows found its name free. */
  predicate KnownAt(vs: seq<NodeValues>, n: nat, nodes: NodeTable, id: string)
    requires n <= |vs|
    decreases n, 0
  {
    id in nodes || exists m | 0 <= m < n :: vs[m].id == id && !Blocked(vs, m, nodes)
  }

  /** When row k has its turn another id holds its name: a known id without an earlier row of its own, or one in
      the table whose last earlier row carries the name. */
  predicate Blocked(vs: seq<NodeValues>, k: nat, nodes: NodeTable)
    requires k < |vs|
    decreases k, 1
  {
    || (exists id | id in nodes ::
          id != vs[k].id && nodes[id].nodeName == vs[k].name && !HasRowBefore(vs, k, id))
    || (exists m | 0 <= m < k ::
          vs[m].id != vs[k].id && vs[m].name == vs[k].name && LastRowFor(vs, m, k, vs[m].id)
          && KnownAt(vs, k, nodes, vs[m].id))
  }

  /** The last row for the id among the first n carries the name. */
  predicate LastRowNames(vs: seq<NodeValues>, n: nat, id: string, name: string)
    requires n <= |vs|
  {
    exists m | 0 <= m < n :: LastRowFor(vs, m, n, id) && vs[m].name == name
  }

  /** After n rows the id stands in the table with the name. */
  predicate NameNow(vs: seq<NodeValues>, n: nat, nodes: NodeTable, id: string, name: string)
    requires n <= |vs|
  {
    if HasRowBefore(vs, n, id) then
      KnownAt(vs, n, nodes, id) && LastRowNames(vs, n, id, name)
    else Has(nodes, id, name)
  }

  /** A row for a known id with another name than it has by then needs the new name to be free, and the old one
      not to be referred to by an interface row. */
  ghost predicate RowPasses(t: Tables, vs: seq<NodeValues>, k: nat)
    requires k < |vs|
  {
    forall earlier | NameNow(vs, k, t.nodes, vs[k].id, earlier) && earlier != vs[k].name ::
      !Blocked(vs, k, t.nodes) && !NameReferenced(t.interfaces, earlier)
  }

  // ---------------------------------------------------------------- the table after n rows

  ghost predicate Reached(vs: seq<NodeValues>, n: nat, before: NodeTable, after: NodeTable)
    requires n <= |vs|
  {
    forall id, name :: Has(after, id, name) <==> NameNow(vs, n, before, id, name)
  }

  /** An id with a row has a last one. */
  lemma {:induction false} FindLastRow(vs: seq<NodeValues>, n: nat, id: string) returns (m: nat)
    requires n <= |vs| && HasRowBefore(vs, n, id)
    ensures m < n && LastRowFor(vs, m, n, id)
  {
    if vs[n - 1].id == id {
      m := n - 1;
    } else {
      m := FindLastRow(vs, n - 1, id);
    }
  }

  lemma KnownIffIn(vs: seq<NodeValues>, n: nat, before: NodeTable, nodes: NodeTable, id: string)
    requires n <= |vs| && Reached(vs, n, before, nodes)
    ensures id in nodes <==> KnownAt(vs, n, before, id)
  {
    if id in nodes {
      assert Has(nodes, id, nodes[id].nodeName);
      assert NameNow(vs, n, before, id, nodes[id].nodeName);
    }
    if KnownAt(vs, n, before, id) {
      if HasRowBefore(vs, n, id) {
        var m := FindLastRow(vs, n, id);
        assert NameNow(vs, n, before, id, vs[m].name);
        assert Has(nodes, id, vs[m].name);
      } else {
        assert NameNow(vs, n, before, id, before[id].nodeName);
        assert Has(nodes, id, before[id].nodeName);
      }
    }
  }

  lemma HeldIffBlocked(vs: seq<NodeValues>, n: nat, before: NodeTable, nodes: NodeTable)
    requires n < |vs| && Reached(vs, n, before, nodes)
    ensures Blocked(vs, n, before) <==> exists id :: id != vs[n].id && Has(nodes, id, vs[n].name)
  {
    var v := vs[n];
    if id :| id != v.id && Has(nodes, id, v.name) {
      assert NameNow(vs, n, before, id, v.name);
    }
    if Blocked(vs, n, before) {
      if id :| id in before && id != v.id && before[id].nodeName == v.name && !HasRowBefore(vs, n, id) {
        assert NameNow(vs, n, before, id, v.name);
        assert Has(nodes, id, v.name);
      } else {
        var m :| 0 <= m < n && vs[m].id != v.id && vs[m].name == v.name && LastRowFor(vs, m, n, vs[m].id)
                 && KnownAt(vs, n, before, vs[m].id);
        assert HasRowBefore(vs, n, vs[m].id);
        assert NameNow(vs, n, before, vs[m].id, v.name);
        assert Has(nodes, vs[m].id, v.name);
      }
    }
  }

  /** A row fails exactly when its id stands under another name, and the new name is held or the old referenced. */
  lemma RowOutcome(t: Tables, v: NodeValues)
    ensures UpsertNode(t, v).Err? <==>
      exists earlier :: Has(t.nodes, v.id, earlier) && earlier != v.name
        && ((exists id :: id != v.id && Has(t.nodes, id, v.name)) || NameReferenced(t.interfaces, earlier))
  {
    if UpsertNode(t, v).Err? {
      assert Has(t.nodes, v.id, t.nodes[v.id].nodeName);
      if NameTaken(t.nodes, v.name) {
        assert Has(t.nodes, IdOfName(t.nodes, v.name), v.name);
      }
    }
  }

  /** What one row does to the names. */
  lemma NamesAfterRow(t: Tables, v: NodeValues, id: string, name: string)
    requires UpsertNode(t, v).Ok?
    ensures Has(UpsertNode(t, v).value.nodes, id, name) <==>
      if id != v.id then Has(t.nodes, id, name)
      else name == v.name && (v.id in t.nodes || !NameTaken(t.nodes, v.name))
  {
  }

  lemma HasRowOfOthers(vs: seq<NodeValues>, n: nat, id: string)
    requires n < |vs| && id != vs[n].id
    ensures HasRowBefore(vs, n + 1, id) <==> HasRowBefore(vs, n, id)
  {
    if m :| 0 <= m < n && vs[m].id == id {
      assert HasRowBefore(vs, n + 1, id);
    }
  }

  lemma LastRowOfOthers(vs: seq<NodeValues>, n: nat, id: string, name: string)
    requires n < |vs| && id != vs[n].id
    ensures LastRowNames(vs, n + 1, id, name) <==> LastRowNames(vs, n, id, name)
  {
    if LastRowNames(vs, n, id, name) {
      var m :| 0 <= m < n && LastRowFor(vs, m, n, id) && vs[m].name == name;
      assert LastRowFor(vs, m, n + 1, id);
    }
    if LastRowNames(vs, n + 1, id, name) {
      var m :| 0 <= m < n + 1 && LastRowFor(vs, m, n + 1, id) && vs[m].name == name;
      assert m < n && LastRowFor(vs, m, n, id);
    }
  }

  /** Row n concerns its own id only. */
  lemma NameNowOfOthers(vs: seq<NodeValues>, n: nat, before: NodeTable, id: string, name: string)
    requires n < |vs| && id != vs[n].id
    ensures NameNow(vs, n + 1, before, id, name) <==> NameNow(vs, n, before, id, name)
  {
    HasRowOfOthers(vs, n, id);
    LastRowOfOthers(vs, n, id, name);
    KnownStep(vs, n, before, id);
  }

  lemma KnownStep(vs: seq<NodeValues>, n: nat, before: NodeTable, id: string)
    requires n < |vs|
    ensures KnownAt(vs, n + 1, before, id) <==>
      KnownAt(vs, n, before, id) || (vs[n].id == id && !Blocked(vs, n, before))
  {
  }

  lemma NameNowOfRow(vs: seq<NodeValues>, n: nat, before: NodeTable, name: string)
    requires n < |vs|
    ensures NameNow(vs, n + 1, before, vs[n].id, name) <==>
      name == vs[n].name && (KnownAt(vs, n, before, vs[n].id) || !Blocked(vs, n, before))
  {
    var id := vs[n].id;
    assert vs[n].id == id;
    assert HasRowBefore(vs, n + 1, id);
    assert LastRowFor(vs, n, n + 1, id);
    KnownStep(vs, n, before, id);
  }

  lemma ReachedStep(vs: seq<NodeValues>, n: nat, before: NodeTable, t: Tables)
    requires n < |vs| && Reached(vs, n, before, t.nodes) && UpsertNode(t, vs[n]).Ok?
    ensures Reached(vs, n + 1, before, UpsertNode(t, vs[n]).value.nodes)
  {
    var v := vs[n];
    var after := UpsertNode(t, v).value.nodes;
    HeldIffBlocked(vs, n, before, t.nodes);
    KnownIffIn(vs, n, before, t.nodes, v.id);
    forall id, name
      ensures Has(after, id, name) <==> NameNow(vs, n + 1, before, id, name)
    {
      NamesAfterRow(t, v, id, name);
      if id == v.id {
        NameNowOfRow(vs, n, before, name);
        if v.id !in t.nodes {
          TakenByOther(t.nodes, v);
        }
      } else {
        NameNowOfOthers(vs, n, before, id, name);
      }
    }
  }

  lemma TakenByOther(nodes: NodeTable, v: NodeValues)
    requires v.id !in nodes
    ensures NameTaken(nodes, v.name) <==> exists id :: id != v.id && Has(nodes, id, v.name)
  {
    if NameTaken(nodes, v.name) {
      assert Has(nodes, IdOfName(nodes, v.name), v.name);
    }
  }

  lemma RowPassesIff(t: Tables, vs: seq<NodeValues>, n: nat, t1: Tables)
    requires n < |vs| && Reached(vs, n, t.nodes, t1.nodes) && t1.interfaces == t.interfaces
    ensures UpsertNode(t1, vs[n]).Ok? <==> RowPasses(t, vs, n)
  {
    RowOutcome(t1, vs[n]);
    HeldIffBlocked(vs, n, t.nodes, t1.nodes);
    forall earlier
      ensures Has(t1.nodes, vs[n].id, earlier) <==> NameNow(vs, n, t.nodes, vs[n].id, earlier)
    {
    }
  }

  ghost predicate AllPass(t: Tables, vs: seq<NodeValues>, n: nat)
    requires n <= |vs|
  {
    forall k | 0 <= k < n :: RowPasses(t, vs, k)
  }

  lemma OneMorePasses(t: Tables, vs: seq<NodeValues>, n: nat)
    requires n < |vs|
    ensures AllPass(t, vs, n + 1) <==> AllPass(t, vs, n) && RowPasses(t, vs, n)
  {
  }

  /** A result of the first n rows: it succeeds exactly when each of their renames passes, and then has the names
      that the batch and the earlier table determine. */
  ghost predicate AsRead(t: Tables, vs: seq<NodeValues>, n: nat, r: SqlResult)
    requires n <= |vs|
  {
    && (r.Ok? <==> AllPass(t, vs, n))
    && (r.Ok? ==> Reached(vs, n, t.nodes, r.value.nodes))
  }

  lemma AsReadStep(t: Tables, vs: seq<NodeValues>, n: nat, r: SqlResult, next: SqlResult)
    requires n < |vs| && AsRead(t, vs, n, r)
    requires if r.Ok? then r.value.interfaces == t.interfaces && next == UpsertNode(r.value, vs[n]) else next.Err?
    ensures AsRead(t, vs, n + 1, next)
  {
    OneMorePasses(t, vs, n);
    if r.Ok? {
      RowPassesIff(t, vs, n, r.value);
      if next.Ok? {
        ReachedStep(vs, n, t.nodes, r.value);
      }
    }
  }

  /** How the result of n rows continues. */
  lemma NextResult(t: Tables, vs: seq<NodeValues>, n: nat)
    requires n < |vs|
    ensures var r, next := UpsertNodes(t, vs[..n]), UpsertNodes(t, vs[..n + 1]);
      if r.Ok? then r.value.interfaces == t.interfaces && next == UpsertNode(r.value, vs[n]) else next.Err?
  {
    if UpsertNodes(t, vs[..n]).Ok? {
      NodeBatchStep(t, vs, n);
      NodeBatchTouchesNodesOnly(t, vs[..n]);
    } else {
      NodeBatchStops(t, vs, n);
    }
  }

  lemma NothingRead(t: Tables, vs: seq<NodeValues>)
    ensures AsRead(t, vs, 0, Ok(t))
  {
    forall id, name
      ensures Has(t.nodes, id, name) <==> NameNow(vs, 0, t.nodes, id, name)
    {
      assert !HasRowBefore(vs, 0, id);
    }
  }

  lemma {:induction false} NodeBatchIff(t: Tables, vs: seq<NodeValues>, n: nat)
    requires n <= |vs|
    ensures AsRead(t, vs, n, UpsertNodes(t, vs[..n]))
  {
    if n == 0 {
      NothingRead(t, vs);
    } else {
      var k := n - 1;
      NodeBatchIff(t, vs, k);
      NextResult(t, vs, k);
      AsReadStep(t, vs, k, UpsertNodes(t, vs[..k]), UpsertNodes(t, vs[..n]));
    }
  }

  lemma NodeBatchStops(t: Tables, vs: seq<NodeValues>, n: nat)
    requires n < |vs| && UpsertNodes(t, vs[..n]).Err?
    ensures UpsertNodes(t, vs[..n + 1]).Err?
  {
    assert vs[..n + 1][..n] == vs[..n];
  }

  // ---------------------------------------------------------------- the pass

  /** Once the whole batch is through, some id stands in node_table under the name. */
  ghost predicate NameLands(vs: seq<NodeValues>, nodes: NodeTable, name: string) {
    exists id :: NameNow(vs, |vs|, nodes, id, name)
  }

  lemma LandsIffKnown(vs: seq<NodeValues>, before: NodeTable, t: Tables, r: InterfaceValues)
    requires Reached(vs, |vs|, before, t.nodes)
    ensures NodeKnown(t, r) <==> KnownAt(vs, |vs|, before, r.nodeId) && NameLands(vs, before, r.nodeName)
  {
    KnownIffIn(vs, |vs|, before, t.nodes, r.nodeId);
    if NameTaken(t.nodes, r.nodeName) {
      var id := IdOfName(t.nodes, r.nodeName);
      assert Has(t.nodes, id, r.nodeName);
      assert NameNow(vs, |vs|, before, id, r.nodeName);
    }
    if id :| NameNow(vs, |vs|, before, id, r.nodeName) {
      assert Has(t.nodes, id, r.nodeName);
    }
  }

  /** The exact condition, for any tables and any servers, renames and repetitions included: a pass commits if and
      only if
      - every row for a node known under another name finds its new name free when it has its turn, and no
        interface row of another CR refers to the old name;
      - every interface's node id is known, or one of its rows finds its name free, and its node name is held in
        the end. */
  lemma PassCommitsIff(t: Tables, owner: Owner, subnet: Subnet, targets: seq<Server>, createdAt: int, modifiedAt: int)
    ensures var ch := PassChange(owner, subnet, targets, createdAt, modifiedAt);
      Apply(t, ch).Ok? <==>
        && AllPass(DeleteInterfaces(t, owner), ch.nodes, |ch.nodes|)
        && forall r | r in ch.interfaces ::
             KnownAt(ch.nodes, |ch.nodes|, t.nodes, r.nodeId) && NameLands(ch.nodes, t.nodes, r.nodeName)
  {
    var ch := PassChange(owner, subnet, targets, createdAt, modifiedAt);
    PassChangeWellFormed(owner, subnet, targets, createdAt, modifiedAt);
    var t0 := Prepare(t, ch);
    NodeBatchIff(t0, ch.nodes, |ch.nodes|);
    assert ch.nodes[..|ch.nodes|] == ch.nodes;
    SubnetDoesNotMatter(DeleteInterfaces(t, owner), ch.subnet, ch.nodes);
    if UpsertNodes(t0, ch.nodes).Ok? {
      NodeBatchTouchesNodesOnly(t0, ch.nodes);
      var t1 := UpsertNodes(t0, ch.nodes).value;
      forall r | r in ch.interfaces
        ensures NodeKnown(t1, r) <==>
          KnownAt(ch.nodes, |ch.nodes|, t.nodes, r.nodeId) && NameLands(ch.nodes, t.nodes, r.nodeName)
      {
        LandsIffKnown(ch.nodes, t.nodes, t1, r);
      }
      InterfaceBatch(t1, ch.interfaces, owner, subnet.id, createdAt);
    }
  }

  lemma SubnetDoesNotMatter(t: Tables, v: SubnetValues, vs: seq<NodeValues>)
    ensures AllPass(UpsertSubnet(t, v), vs, |vs|) <==> AllPass(t, vs, |vs|)
  {
    assert forall k | 0 <= k < |vs| :: RowPasses(UpsertSubnet(t, v), vs, k) <==> RowPasses(t, vs, k);
  }

  // ---------------------------------------------------------------- one name per id

  /** Equal ids carry equal names, as in one list of servers. */
  ghost predicate OneNamePerId(vs: seq<NodeValues>) {
    forall i, j | 0 <= i < |vs| && 0 <= j < |vs| && vs[i].id == vs[j].id :: vs[i].name == vs[j].name
  }

  /** A target whose id lands then stands under its own name. */
  lemma LandedUnderItsName(vs: seq<NodeValues>, k: nat, before: NodeTable)
    requires k < |vs| && OneNamePerId(vs) && KnownAt(vs, |vs|, before, vs[k].id)
    ensures NameNow(vs, |vs|, before, vs[k].id, vs[k].name)
    ensures NameLands(vs, before, vs[k].name)
  {
    assert HasRowBefore(vs, |vs|, vs[k].id);
    var m := FindLastRow(vs, |vs|, vs[k].id);
    assert vs[m].name == vs[k].name;
  }

  // ---------------------------------------------------------------- batches without renames

  /** Ids and names of the batch are one-to-one, and no known id comes with a different name. */
  ghost predicate NoRenames(vs: seq<NodeValues>, nodes: NodeTable) {
    && (forall a, b | a in vs && b in vs :: a.id == b.id <==> a.name == b.name)
    && (forall a | a in vs && a.id in nodes :: a.name == nodes[a.id].nodeName)
  }

  /** The table holds the name under another id. */
  predicate Stale(id: string, name: string, nodes: NodeTable) {
    id !in nodes && NameTaken(nodes, name)
  }

  lemma NothingRenamed(t: Tables, vs: seq<NodeValues>)
    requires NoRenames(vs, t.nodes)
    ensures OneNamePerId(vs) && AllPass(t, vs, |vs|)
  {
    assert forall m | 0 <= m < |vs| :: vs[m] in vs;
    forall k | 0 <= k < |vs|
      ensures RowPasses(t, vs, k)
    {
    }
  }

  lemma BlockedIffStale(vs: seq<NodeValues>, k: nat, nodes: NodeTable)
    requires k < |vs| && NoRenames(vs, nodes) && vs[k].id !in nodes
    ensures Blocked(vs, k, nodes) <==> Stale(vs[k].id, vs[k].name, nodes)
  {
    assert forall m | 0 <= m < |vs| :: vs[m] in vs;
    if NameTaken(nodes, vs[k].name) {
      var id := IdOfName(nodes, vs[k].name);
      assert !HasRowBefore(vs, k, id);
    }
  }

  lemma KnownIffNotStale(vs: seq<NodeValues>, k: nat, nodes: NodeTable)
    requires k < |vs| && NoRenames(vs, nodes)
    ensures KnownAt(vs, |vs|, nodes, vs[k].id) <==> !Stale(vs[k].id, vs[k].name, nodes)
  {
    assert forall m | 0 <= m < |vs| :: vs[m] in vs;
    if vs[k].id !in nodes {
      BlockedIffStale(vs, k, nodes);
      forall m | 0 <= m < |vs| && vs[m].id == vs[k].id
        ensures Blocked(vs, m, nodes) <==> Stale(vs[k].id, vs[k].name, nodes)
      {
        assert vs[m].name == vs[k].name;
        BlockedIffStale(vs, m, nodes);
      }
    }
  }

  /** Without renames, a pass violates a constraint if and only if one of its interfaces belongs to a VM whose
      name node_table holds under another id. */
  lemma PassCommitsIffNoStaleName(t: Tables, owner: Owner, subnet: Subnet, targets: seq<Server>,
                                  createdAt: int, modifiedAt: int)
    requires NoRenames(NodeRows(targets, createdAt, modifiedAt), t.nodes)
    ensures var ch := PassChange(owner, subnet, targets, createdAt, modifiedAt);
            Apply(t, ch).Ok? <==> forall r | r in ch.interfaces :: !Stale(r.nodeId, r.nodeName, t.nodes)
  {
    var ch := PassChange(owner, subnet, targets, createdAt, modifiedAt);
    NothingRenamed(DeleteInterfaces(t, owner), ch.nodes);
    PassCommitsIff(t, owner, subnet, targets, createdAt, modifiedAt);
    forall r | r in ch.interfaces
      ensures KnownAt(ch.nodes, |ch.nodes|, t.nodes, r.nodeId) && NameLands(ch.nodes, t.nodes, r.nodeName)
              <==> !Stale(r.nodeId, r.nodeName, t.nodes)
    {
      RowOfTarget(owner, subnet, targets, createdAt, modifiedAt, r);
      var k :| 0 <= k < |ch.nodes| && ch.nodes[k].id == r.nodeId && ch.nodes[k].name == r.nodeName;
      KnownIffNotStale(ch.nodes, k, t.nodes);
      if KnownAt(ch.nodes, |ch.nodes|, t.nodes, r.nodeId) {
        LandedUnderItsName(ch.nodes, k, t.nodes);
      }
    }
  }

  // ---------------------------------------------------------------- renamed VMs

  lemma ReferencedNameStaysInRow(t: Tables, v: NodeValues, id: string, name: string)
    requires Has(t.nodes, id, name) && NameReferenced(t.interfaces, name) && UpsertNode(t, v).Ok?
    ensures Has(UpsertNode(t, v).value.nodes, id, name)
    ensures v.id == id ==> v.name == name
  {
    RowOutcome(t, v);
    NamesAfterRow(t, v, id, name);
  }

  /** A node whose name is referenced keeps it, so no row of a committed batch gives it another. */
  lemma {:induction false} ReferencedNameStays(t: Tables, vs: seq<NodeValues>, id: string, name: string)
    requires Has(t.nodes, id, name) && NameReferenced(t.interfaces, name) && UpsertNodes(t, vs).Ok?
    ensures Has(UpsertNodes(t, vs).value.nodes, id, name)
    ensures forall v | v in vs && v.id == id :: v.name == name
    decreases |vs|
  {
    if vs != [] {
      var init, last := vs[..|vs| - 1], vs[|vs| - 1];
      ReferencedNameStays(t, init, id, name);
      NodeBatchTouchesNodesOnly(t, init);
      ReferencedNameStaysInRow(UpsertNodes(t, init).value, last, id, name);
      assert vs == init + [last];
    }
  }

  /** A VM that was renamed while another CR owns an interface row under its old name: a pass with that VM
      never commits, whatever else is in the tables and the batch. */
  lemma RenamedVmNeverCommits(t: Tables, ch: Change, v: NodeValues, port: string)
    requires v in ch.nodes && v.id in t.nodes && t.nodes[v.id].nodeName != v.name
    requires port in t.interfaces && t.interfaces[port].owner != ch.owner
    requires t.interfaces[port].nodeName == t.nodes[v.id].nodeName
    ensures Apply(t, ch).Err?
  {
    var t0 := Prepare(t, ch);
    assert port in t0.interfaces && t0.interfaces[port].nodeName == t.nodes[v.id].nodeName;
    if UpsertNodes(t0, ch.nodes).Ok? {
      ReferencedNameStays(t0, ch.nodes, v.id, t.nodes[v.id].nodeName);
    }
  }
}
