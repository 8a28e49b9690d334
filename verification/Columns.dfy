/** Column by column, what a committed pass has written to the subnet, node and interface tables. */
module Columns {
  import opened Common
  import opened Tables
  import opened Rows
  import opened Transaction

  // ---------------------------------------------------------------- node_table

  /** A row as the pass leaves it: status and modification time are those of the pass. */
  predicate Stamped(row: NodeRow, status: string, modifiedAt: int) {
    row.status == status && row.modifiedAt == modifiedAt
  }

  /** All rows of the batch carry one status and one pair of times. */
  ghost predicate Uniform(vs: seq<NodeValues>, status: string, createdAt: int, modifiedAt: int) {
    forall v | v in vs :: v.status == status && v.createdAt == createdAt && v.modifiedAt == modifiedAt
  }

  /** Creation times survive; a row is stamped or as it was; nothing disappears. */
  ghost predicate RowsStampedOrKept(before: NodeTable, after: NodeTable, status: string, createdAt: int,
                                    modifiedAt: int) {
    && before.Keys <= after.Keys
    && (forall id | id in after ::
          after[id].createdAt == if id in before then before[id].createdAt else createdAt)
    && (forall id | id in after ::
          Stamped(after[id], status, modifiedAt) || (id in before && after[id] == before[id]))
  }

  /** The row a target was written to: that of its id, or of a node that held its name and, unless the batch
      renames it, still does. */
  ghost predicate Reaches(vs: seq<NodeValues>, v: NodeValues, after: NodeTable, h: string) {
    h in after && if v.id in after then h == v.id else after[h].nodeName == v.name || exists w | w in vs :: w.id == h
  }

  /** Every target has stamped a row. */
  ghost predicate TargetsStamp(vs: seq<NodeValues>, after: NodeTable, status: string, modifiedAt: int) {
    forall v | v in vs :: exists h | h in after :: Reaches(vs, v, after, h) && Stamped(after[h], status, modifiedAt)
  }

  /** A node without a target of its id or its name is as it was. */
  ghost predicate OthersKept(vs: seq<NodeValues>, before: NodeTable, after: NodeTable) {
    forall id | id in before && forall v | v in vs :: v.id != id && v.name != before[id].nodeName ::
      id in after && after[id] == before[id]
  }

  /** The row that one row of the batch hits. */
  predicate Hits(v: NodeValues, after: NodeTable, h: string) {
    h in after && if v.id in after then h == v.id else after[h].nodeName == v.name
  }

  lemma RowAt(t: Tables, v: NodeValues, id: string)
    requires UpsertNode(t, v).Ok?
    ensures var after := UpsertNode(t, v).value.nodes;
      && (id in t.nodes ==> id in after)
      && (id in after ==>
            && after[id].createdAt == (if id in t.nodes then t.nodes[id].createdAt else v.createdAt)
            && (Stamped(after[id], v.status, v.modifiedAt) || (id in t.nodes && after[id] == t.nodes[id])))
  {
  }

  lemma RowStampsOrKeeps(t: Tables, v: NodeValues)
    requires UpsertNode(t, v).Ok?
    ensures RowsStampedOrKept(t.nodes, UpsertNode(t, v).value.nodes, v.status, v.createdAt, v.modifiedAt)
  {
    var after := UpsertNode(t, v).value.nodes;
    forall id
      ensures id in t.nodes ==> id in after
      ensures id in after ==>
        && after[id].createdAt == (if id in t.nodes then t.nodes[id].createdAt else v.createdAt)
        && (Stamped(after[id], v.status, v.modifiedAt) || (id in t.nodes && after[id] == t.nodes[id]))
    {
      RowAt(t, v, id);
    }
  }

  lemma RowHits(t: Tables, v: NodeValues) returns (h: string)
    requires UpsertNode(t, v).Ok?
    ensures var after := UpsertNode(t, v).value.nodes;
      Hits(v, after, h) && Stamped(after[h], v.status, v.modifiedAt)
  {
    h := if v.id !in t.nodes && NameTaken(t.nodes, v.name) then IdOfName(t.nodes, v.name) else v.id;
  }

  lemma RowSparesOthers(t: Tables, v: NodeValues, id: string)
    requires UpsertNode(t, v).Ok? && id in t.nodes && v.id != id
    ensures var after := UpsertNode(t, v).value.nodes;
      && id in after && after[id].nodeName == t.nodes[id].nodeName
      && (v.name != t.nodes[id].nodeName ==> after[id] == t.nodes[id])
  {
  }

  lemma NewRowsAreStamped(t: Tables, v: NodeValues, id: string)
    requires UpsertNode(t, v).Ok? && id !in t.nodes && id in UpsertNode(t, v).value.nodes
    ensures id == v.id && Stamped(UpsertNode(t, v).value.nodes[id], v.status, v.modifiedAt)
  {
  }

  lemma StampedAgain(before: NodeTable, nodes: NodeTable, after: NodeTable, status: string, createdAt: int,
                     modifiedAt: int)
    requires RowsStampedOrKept(before, nodes, status, createdAt, modifiedAt)
    requires RowsStampedOrKept(nodes, after, status, createdAt, modifiedAt)
    ensures RowsStampedOrKept(before, after, status, createdAt, modifiedAt)
  {
  }

  lemma TargetsStampStep(init: seq<NodeValues>, v: NodeValues, nodes: NodeTable, after: NodeTable, status: string,
                         createdAt: int, modifiedAt: int)
    requires TargetsStamp(init, nodes, status, modifiedAt)
    requires RowsStampedOrKept(nodes, after, status, createdAt, modifiedAt)
    requires exists h | h in after :: Hits(v, after, h) && Stamped(after[h], status, modifiedAt)
    requires forall id | id in nodes && v.id != id :: id in after && after[id].nodeName == nodes[id].nodeName
    requires forall id | id in after && id !in nodes :: Stamped(after[id], status, modifiedAt)
    ensures TargetsStamp(init + [v], after, status, modifiedAt)
  {
    var vs := init + [v];
    assert v in vs && forall w | w in init :: w in vs;
    forall u | u in vs
      ensures exists h | h in after :: Reaches(vs, u, after, h) && Stamped(after[h], status, modifiedAt)
    {
      if u in init {
        var h :| h in nodes && Reaches(init, u, nodes, h) && Stamped(nodes[h], status, modifiedAt);
        var g := if u.id in after then u.id else h;
        assert g in after && Reaches(vs, u, after, g) && Stamped(after[g], status, modifiedAt);
      } else {
        var h :| h in after && Hits(v, after, h) && Stamped(after[h], status, modifiedAt);
        assert Reaches(vs, u, after, h);
      }
    }
  }

  lemma OthersKeptStep(init: seq<NodeValues>, v: NodeValues, before: NodeTable, nodes: NodeTable, after: NodeTable)
    requires OthersKept(init, before, nodes)
    requires forall id | id in nodes && v.id != id && v.name != nodes[id].nodeName ::
               id in after && after[id] == nodes[id]
    ensures OthersKept(init + [v], before, after)
  {
    var vs := init + [v];
    assert v in vs && forall w | w in init :: w in vs;
  }

  /** The whole node batch, column by column. */
  lemma {:induction false} NodeBatchColumns(t: Tables, vs: seq<NodeValues>, status: string, createdAt: int,
                                            modifiedAt: int)
    requires Uniform(vs, status, createdAt, modifiedAt) && UpsertNodes(t, vs).Ok?
    ensures var after := UpsertNodes(t, vs).value.nodes;
      && RowsStampedOrKept(t.nodes, after, status, createdAt, modifiedAt)
      && TargetsStamp(vs, after, status, modifiedAt)
      && OthersKept(vs, t.nodes, after)
    decreases |vs|
  {
    if vs != [] {
      var init, v := vs[..|vs| - 1], vs[|vs| - 1];
      assert vs == init + [v];
      NodeBatchColumns(t, init, status, createdAt, modifiedAt);
      var t1 := UpsertNodes(t, init).value;
      var after := UpsertNode(t1, v).value.nodes;
      RowStampsOrKeeps(t1, v);
      var h := RowHits(t1, v);
      forall id | id in t1.nodes && v.id != id
        ensures id in after && after[id].nodeName == t1.nodes[id].nodeName
        ensures v.name != t1.nodes[id].nodeName ==> after[id] == t1.nodes[id]
      {
        RowSparesOthers(t1, v, id);
      }
      forall id | id in after && id !in t1.nodes
        ensures Stamped(after[id], status, modifiedAt)
      {
        NewRowsAreStamped(t1, v, id);
      }
      StampedAgain(t.nodes, t1.nodes, after, status, createdAt, modifiedAt);
      TargetsStampStep(init, v, t1.nodes, after, status, createdAt, modifiedAt);
      OthersKeptStep(init, v, t.nodes, t1.nodes, after);
    }
  }

  /** The node rows of a pass: one per target, in order. */
  lemma NodeRowsOfTargets(targets: seq<Server>, createdAt: int, modifiedAt: int)
    ensures var vs := NodeRows(targets, createdAt, modifiedAt);
      && |vs| == |targets|
      && (forall i | 0 <= i < |targets| :: vs[i].id == targets[i].id && vs[i].name == targets[i].name)
      && Uniform(vs, "active", createdAt, modifiedAt)
  {
    var vs := NodeRows(targets, createdAt, modifiedAt);
    forall v | v in vs
      ensures v.status == "active" && v.createdAt == createdAt && v.modifiedAt == modifiedAt
    {
      var i :| 0 <= i < |vs| && vs[i] == v;
    }
  }

  // ---------------------------------------------------------------- the committed pass

  /** The subnet row holds what OpenStack said of the subnet; only its creation time survives an update. */
  predicate SubnetWritten(t: Tables, t': Tables, subnet: Subnet, createdAt: int, modifiedAt: int) {
    subnet.id in t'.subnets
    && var row := t'.subnets[subnet.id];
       && row.subnetName == subnet.name && row.cidr == subnet.cidr && row.networkId == subnet.networkId
       && row.status == "active" && row.modifiedAt == modifiedAt
       && row.createdAt == if subnet.id in t.subnets then t.subnets[subnet.id].createdAt else createdAt
  }

  /** A row the CR owns: all columns come from the last batch row of the port. */
  ghost predicate OwnRowWritten(row: InterfaceRow, owner: Owner, r: InterfaceValues) {
    && row.subnetId == r.subnetId && row.mac == r.mac && row.nodeId == r.nodeId && row.nodeName == r.nodeName
    && row.owner == owner && row.status == r.status && row.netplanSuccess == r.netplanSuccess
    && row.createdAt == r.createdAt && row.modifiedAt == r.modifiedAt
  }

  /** Another CR's row that the batch names: owner, subnet and creation time stay, the rest is overwritten. */
  ghost predicate ForeignRowWritten(row: InterfaceRow, was: InterfaceRow, r: InterfaceValues) {
    && row.owner == was.owner && row.subnetId == was.subnetId && row.createdAt == was.createdAt
    && row.mac == r.mac && row.nodeId == r.nodeId && row.nodeName == r.nodeName
    && row.status == r.status && row.netplanSuccess == r.netplanSuccess && row.modifiedAt == r.modifiedAt
  }

  /** Every column of every row that a committed pass has written, and of every row it has not. */
  lemma CommittedColumns(t: Tables, owner: Owner, subnet: Subnet, targets: seq<Server>, createdAt: int,
                         modifiedAt: int)
    requires Apply(t, PassChange(owner, subnet, targets, createdAt, modifiedAt)).Ok?
    ensures var t' := Apply(t, PassChange(owner, subnet, targets, createdAt, modifiedAt)).value;
      var vs := NodeRows(targets, createdAt, modifiedAt);
      var rows := DesiredRows(Context(owner, subnet.id, createdAt, modifiedAt), targets);
      && SubnetWritten(t, t', subnet, createdAt, modifiedAt)
      && RowsStampedOrKept(t.nodes, t'.nodes, "active", createdAt, modifiedAt)
      && TargetsStamp(vs, t'.nodes, "active", modifiedAt)
      && OthersKept(vs, t.nodes, t'.nodes)
      && (forall p | p in OwnedPorts(t', owner) ::
            p in PortsOf(rows) && OwnRowWritten(t'.interfaces[p], owner, LastRow(rows, p)))
      && (forall p | p in Foreign(t, owner) ::
            p in t'.interfaces
            && if p in PortsOf(rows) then ForeignRowWritten(t'.interfaces[p], t.interfaces[p], LastRow(rows, p))
               else t'.interfaces[p] == t.interfaces[p])
  {
    var ch := PassChange(owner, subnet, targets, createdAt, modifiedAt);
    PassChangeWellFormed(owner, subnet, targets, createdAt, modifiedAt);
    ApplyInClosedForm(t, ch);
    CommittedPass(t, ch);
    NodeRowsOfTargets(targets, createdAt, modifiedAt);
    NodeBatchColumns(Prepare(t, ch), ch.nodes, "active", createdAt, modifiedAt);
    var t' := Apply(t, ch).value;
    forall p | p in OwnedPorts(t', owner)
      ensures p in PortsOf(ch.interfaces) && OwnRowWritten(t'.interfaces[p], owner, LastRow(ch.interfaces, p))
    {
      var r := LastRow(ch.interfaces, p);
      assert r in ch.interfaces;
    }
  }
}
