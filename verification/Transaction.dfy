/** The reconcile transaction as a function of the tables, and what a committed one has done. */
module Transaction {
  import opened Common
  import opened Tables
  import opened Rows

  /** The data one pass wants in the database. */
  datatype Change = Change(
    owner: Owner, subnet: SubnetValues, nodes: seq<NodeValues>, interfaces: seq<InterfaceValues>)

  /** The change of a pass for the chosen servers and subnet. */
  function PassChange(owner: Owner, subnet: Subnet, targets: seq<Server>, createdAt: int, modifiedAt: int): Change {
    Change(
      owner,
      SubnetValues(subnet.id, subnet.name, subnet.cidr, subnet.networkId, createdAt, modifiedAt),
      NodeRows(targets, createdAt, modifiedAt),
      DesiredRows(Context(owner, subnet.id, createdAt, modifiedAt), targets))
  }

  /** The statements before the node batch. */
  function Prepare(t: Tables, ch: Change): Tables {
    UpsertSubnet(DeleteInterfaces(t, ch.owner), ch.subnet)
  }

  /** Delete own interfaces, upsert the subnet, the nodes, the interfaces. */
  function Apply(t: Tables, ch: Change): SqlResult {
    var t1 :- UpsertNodes(Prepare(t, ch), ch.nodes);
    UpsertInterfaces(t1, ch.interfaces)
  }

  /** The deletion transaction. */
  function Forget(t: Tables, owner: Owner): Tables {
    DeleteState(DeleteInterfaces(t, owner), owner)
  }

  // ---------------------------------------------------------------- the interface batch in closed form

  function PortsOf(rows: seq<InterfaceValues>): set<string> {
    set r | r in rows :: r.portId
  }

  /** The last row of the batch for a port. */
  function LastRow(rows: seq<InterfaceValues>, port: string): (r: InterfaceValues)
    requires port in PortsOf(rows)
    ensures r in rows && r.portId == port
  {
    var last := rows[|rows| - 1];
    assert rows == rows[..|rows| - 1] + [last];
    if last.portId == port then last else LastRow(rows[..|rows| - 1], port)
  }

  /** LastRow really is the last one. */
  lemma {:induction false} LastRowIsLast(rows: seq<InterfaceValues>, k: nat)
    requires k < |rows| && forall j | k < j < |rows| :: rows[j].portId != rows[k].portId
    ensures rows[k].portId in PortsOf(rows) && LastRow(rows, rows[k].portId) == rows[k]
    decreases |rows|
  {
    assert rows[k] in rows;
    if k < |rows| - 1 {
      LastRowIsLast(rows[..|rows| - 1], k);
    }
  }

  /** All rows of a pass have the same owner, subnet and creation time. */
  ghost predicate OneOrigin(rows: seq<InterfaceValues>, owner: Owner, subnetId: string, createdAt: int) {
    forall r | r in rows :: r.owner == owner && r.subnetId == subnetId && r.createdAt == createdAt
  }

  function Merged(base: map<string, InterfaceRow>, rows: seq<InterfaceValues>): map<string, InterfaceRow> {
    map p | p in base.Keys + PortsOf(rows) ::
      if p !in PortsOf(rows) then base[p]
      else if p in base then Overwrite(base[p], LastRow(rows, p))
      else Fresh(LastRow(rows, p))
  }

  lemma PortsSnoc(rows: seq<InterfaceValues>)
    requires rows != []
    ensures PortsOf(rows) == PortsOf(rows[..|rows| - 1]) + {rows[|rows| - 1].portId}
  {
    var init, last := rows[..|rows| - 1], rows[|rows| - 1];
    assert rows == init + [last];
    forall p
      ensures p in PortsOf(rows) <==> p in PortsOf(init) + {last.portId}
    {
      if p in PortsOf(init) + {last.portId} {
        var r :| (r in init || r == last) && r.portId == p;
        assert r in rows;
      }
    }
  }

  lemma MergedElsewhere(base: map<string, InterfaceRow>, rows: seq<InterfaceValues>)
    requires rows != []
    ensures var last := rows[|rows| - 1]; var before := Merged(base, rows[..|rows| - 1]);
      && Merged(base, rows).Keys == before.Keys + {last.portId}
      && forall p | p in before && p != last.portId :: Merged(base, rows)[p] == before[p]
  {
    PortsSnoc(rows);
  }

  lemma MergedSnoc(base: map<string, InterfaceRow>, rows: seq<InterfaceValues>,
                   owner: Owner, subnetId: string, createdAt: int)
    requires rows != [] && OneOrigin(rows, owner, subnetId, createdAt)
    ensures var last := rows[|rows| - 1]; var before := Merged(base, rows[..|rows| - 1]);
            Merged(base, rows) == before[last.portId :=
              if last.portId in before then Overwrite(before[last.portId], last) else Fresh(last)]
  {
    MergedElsewhere(base, rows);
    MergedAtLast(base, rows, owner, subnetId, createdAt);
  }

  lemma MergedAtLast(base: map<string, InterfaceRow>, rows: seq<InterfaceValues>,
                     owner: Owner, subnetId: string, createdAt: int)
    requires rows != [] && OneOrigin(rows, owner, subnetId, createdAt)
    ensures var last := rows[|rows| - 1]; var before := Merged(base, rows[..|rows| - 1]);
            last.portId in Merged(base, rows)
            && Merged(base, rows)[last.portId] ==
                 if last.portId in before then Overwrite(before[last.portId], last) else Fresh(last)
  {
    PortsSnoc(rows);
    var init, last := rows[..|rows| - 1], rows[|rows| - 1];
    assert LastRow(rows, last.portId) == last;
    assert last in rows;
    if last.portId in PortsOf(init) {
      var r := LastRow(init, last.portId);
      assert r in init && r in rows;
    }
  }

  /** The batch commits exactly when all node references exist, and then is the merge of base and rows. */
  lemma {:induction false} InterfaceBatch(t: Tables, rows: seq<InterfaceValues>,
                                          owner: Owner, subnetId: string, createdAt: int)
    requires OneOrigin(rows, owner, subnetId, createdAt) && subnetId in t.subnets
    ensures UpsertInterfaces(t, rows).Ok? <==> forall r | r in rows :: NodeKnown(t, r)
    ensures UpsertInterfaces(t, rows).Ok? ==>
              UpsertInterfaces(t, rows).value == t.(interfaces := Merged(t.interfaces, rows))
    ensures UpsertInterfaces(t, rows).Err? ==> UpsertInterfaces(t, rows).error == ForeignKey
    decreases |rows|
  {
    if rows == [] {
      assert Merged(t.interfaces, rows) == t.interfaces;
    } else {
      var init, last := rows[..|rows| - 1], rows[|rows| - 1];
      assert forall r :: r in rows <==> r in init || r == last by {
        assert rows == init + [last];
      }
      InterfaceBatch(t, init, owner, subnetId, createdAt);
      if UpsertInterfaces(t, init).Ok? {
        var t1 := UpsertInterfaces(t, init).value;
        assert NodeKnown(t1, last) == NodeKnown(t, last);
        assert UpsertInterfaces(t, rows) == UpsertInterface(t1, last);
        MergedSnoc(t.interfaces, rows, owner, subnetId, createdAt);
      }
    }
  }

  // ---------------------------------------------------------------- the committed pass

  ghost predicate WellFormed(ch: Change) {
    OneOrigin(ch.interfaces, ch.owner, ch.subnet.id, ch.subnet.createdAt)
  }

  lemma PassChangeWellFormed(owner: Owner, subnet: Subnet, targets: seq<Server>, createdAt: int, modifiedAt: int)
    ensures WellFormed(PassChange(owner, subnet, targets, createdAt, modifiedAt))
  {
    var c := Context(owner, subnet.id, createdAt, modifiedAt);
    forall r | r in DesiredRows(c, targets)
      ensures r.owner == owner && r.subnetId == subnet.id && r.createdAt == createdAt
    {
      DesiredRowsMember(c, targets, r);
    }
  }

  /** The rows other CRs own. */
  function Foreign(t: Tables, owner: Owner): map<string, InterfaceRow> {
    map p | p in t.interfaces && t.interfaces[p].owner != owner :: t.interfaces[p]
  }

  function OwnedPorts(t: Tables, owner: Owner): set<string> {
    set p | p in t.interfaces && t.interfaces[p].owner == owner
  }

  lemma ApplyInClosedForm(t: Tables, ch: Change)
    requires WellFormed(ch) && Apply(t, ch).Ok?
    ensures UpsertNodes(Prepare(t, ch), ch.nodes).Ok?
    ensures var t' := Apply(t, ch).value;
            && t'.nodes == UpsertNodes(Prepare(t, ch), ch.nodes).value.nodes
            && t'.subnets == Prepare(t, ch).subnets
            && t'.crStates == t.crStates
            && t'.interfaces == Merged(Foreign(t, ch.owner), ch.interfaces)
            && forall r | r in ch.interfaces :: NodeKnown(t', r)
  {
    var t1 := UpsertNodes(Prepare(t, ch), ch.nodes).value;
    NodeBatchTouchesNodesOnly(Prepare(t, ch), ch.nodes);
    InterfaceBatch(t1, ch.interfaces, ch.owner, ch.subnet.id, ch.subnet.createdAt);
  }

  /** What a committed pass leaves behind, for any earlier tables:
      - the CR owns exactly its desired ports minus those another CR already owns;
      - an owned row carries the pass's subnet and the MAC and node of the last batch row for its port;
      - another CR's row keeps port, owner, subnet_id and created_at; its MAC and node move to the last
        batch row exactly when the batch names its port;
      - the subnet row holds the change's columns and keeps its creation time;
      - no row of another CR disappears and none is added. */
  lemma CommittedPass(t: Tables, ch: Change)
    requires WellFormed(ch) && Apply(t, ch).Ok?
    ensures var t' := Apply(t, ch).value;
      && OwnedPorts(t', ch.owner) == PortsOf(ch.interfaces) - Foreign(t, ch.owner).Keys
      && Foreign(t', ch.owner).Keys == Foreign(t, ch.owner).Keys
      && (forall p | p in OwnedPorts(t', ch.owner) :: t'.interfaces[p] == Fresh(LastRow(ch.interfaces, p)))
      && (forall p | p in Foreign(t, ch.owner) ::
            && t'.interfaces[p].owner == t.interfaces[p].owner
            && t'.interfaces[p].subnetId == t.interfaces[p].subnetId
            && t'.interfaces[p].createdAt == t.interfaces[p].createdAt
            && (p !in PortsOf(ch.interfaces) ==> t'.interfaces[p] == t.interfaces[p])
            && (p in PortsOf(ch.interfaces) ==>
                  var r := LastRow(ch.interfaces, p);
                  && t'.interfaces[p].mac == r.mac
                  && t'.interfaces[p].nodeId == r.nodeId && t'.interfaces[p].nodeName == r.nodeName
                  && t'.interfaces[p].netplanSuccess == r.netplanSuccess
                  && t'.interfaces[p].status == r.status && t'.interfaces[p].modifiedAt == r.modifiedAt))
      && t'.crStates == t.crStates
      && ch.subnet.id in t'.subnets
      && (var row := t'.subnets[ch.subnet.id];
          && row.subnetName == ch.subnet.name && row.cidr == ch.subnet.cidr && row.networkId == ch.subnet.networkId
          && row.status == "active" && row.modifiedAt == ch.subnet.modifiedAt
          && row.createdAt ==
               if ch.subnet.id in t.subnets then t.subnets[ch.subnet.id].createdAt else ch.subnet.createdAt)
      && (forall s | s in t.subnets && s != ch.subnet.id :: s in t'.subnets && t'.subnets[s] == t.subnets[s])
  {
    ApplyInClosedForm(t, ch);
    var t' := Apply(t, ch).value;
    var base := Foreign(t, ch.owner);
    forall p | p in t'.interfaces
      ensures t'.interfaces[p].owner == ch.owner <==> p !in base
    {
      if p !in base {
        var r := LastRow(ch.interfaces, p);
        assert r in ch.interfaces;
      }
    }
  }

  /** Whatever the data, a committed transaction leaves every foreign key in place. */
  lemma ApplyKeepsForeignKeys(t: Tables, ch: Change)
    requires ForeignKeysHold(t) && Apply(t, ch).Ok?
    ensures ForeignKeysHold(Apply(t, ch).value)
  {
    var t0 := Prepare(t, ch);
    forall p | p in t0.interfaces
      ensures RowAnchored(t0, t0.interfaces[p])
    {
      assert RowAnchored(t, t.interfaces[p]);
    }
    UpsertNodesKeepsForeignKeys(t0, ch.nodes);
    UpsertInterfacesKeepsForeignKeys(UpsertNodes(t0, ch.nodes).value, ch.interfaces);
  }

  // ---------------------------------------------------------------- when no constraint is violated

  /** Id and name identify each other, among the batch and between batch and table. */
  ghost predicate Agree(vs: seq<NodeValues>, nodes: NodeTable) {
    && (forall a, b | a in vs && b in vs :: a.id == b.id <==> a.name == b.name)
    && (forall a, id | a in vs && id in nodes :: a.id == id <==> a.name == nodes[id].nodeName)
  }

  ghost predicate Present(v: NodeValues, nodes: NodeTable) {
    v.id in nodes && nodes[v.id].nodeName == v.name
  }

  lemma AgreeingRow(t: Tables, vs: seq<NodeValues>, v: NodeValues)
    requires Agree(vs, t.nodes) && v in vs
    ensures UpsertNode(t, v).Ok?
    ensures var after := UpsertNode(t, v).value.nodes;
      && Agree(vs, after) && Present(v, after)
      && forall w | Present(w, t.nodes) :: Present(w, after)
  {
    var after := UpsertNode(t, v).value.nodes;
    forall a, id | a in vs && id in after
      ensures a.id == id <==> a.name == after[id].nodeName
    {
      if id == v.id {
        assert after[id].nodeName == v.name;
      } else {
        assert id in t.nodes && t.nodes[id].nodeName == after[id].nodeName;
      }
    }
  }

  ghost predicate AllPresent(vs: seq<NodeValues>, n: nat, nodes: NodeTable)
    requires n <= |vs|
  {
    forall k | 0 <= k < n :: Present(vs[k], nodes)
  }

  lemma {:induction false} AgreeingNodesCommit(t: Tables, vs: seq<NodeValues>, n: nat)
    requires Agree(vs, t.nodes) && n <= |vs|
    ensures UpsertNodes(t, vs[..n]).Ok?
    ensures Agree(vs, UpsertNodes(t, vs[..n]).value.nodes)
    ensures AllPresent(vs, n, UpsertNodes(t, vs[..n]).value.nodes)
  {
    if n > 0 {
      AgreeingNodesCommit(t, vs, n - 1);
      NodeBatchStep(t, vs, n - 1);
      var t1 := UpsertNodes(t, vs[..n - 1]).value;
      AgreeingRow(t1, vs, vs[n - 1]);
      assert forall k | 0 <= k < n - 1 :: Present(vs[k], t1.nodes);
    }
  }

  /** The batch with one row more. */
  lemma NodeBatchStep(t: Tables, vs: seq<NodeValues>, n: nat)
    requires n < |vs| && UpsertNodes(t, vs[..n]).Ok?
    ensures UpsertNodes(t, vs[..n + 1]) == UpsertNode(UpsertNodes(t, vs[..n]).value, vs[n])
  {
    assert vs[..n + 1][..n] == vs[..n];
  }

  /** When ids and names of the targets agree with each other and with node_table, no statement of the
      pass violates a UNIQUE or FOREIGN KEY constraint, and all foreign keys hold afterwards. */
  lemma AgreeingPassCommits(t: Tables, owner: Owner, subnet: Subnet, targets: seq<Server>,
                            createdAt: int, modifiedAt: int)
    requires Agree(NodeRows(targets, createdAt, modifiedAt), t.nodes)
    ensures Apply(t, PassChange(owner, subnet, targets, createdAt, modifiedAt)).Ok?
    ensures ForeignKeysHold(t) ==>
              ForeignKeysHold(Apply(t, PassChange(owner, subnet, targets, createdAt, modifiedAt)).value)
  {
    var ch := PassChange(owner, subnet, targets, createdAt, modifiedAt);
    PassChangeWellFormed(owner, subnet, targets, createdAt, modifiedAt);
    AgreeingNodesCommit(Prepare(t, ch), ch.nodes, |ch.nodes|);
    assert ch.nodes[..|ch.nodes|] == ch.nodes;
    NodeBatchTouchesNodesOnly(Prepare(t, ch), ch.nodes);
    var t1 := UpsertNodes(Prepare(t, ch), ch.nodes).value;
    forall r | r in ch.interfaces
      ensures NodeKnown(t1, r)
    {
      RowOfTarget(owner, subnet, targets, createdAt, modifiedAt, r);
      var k :| 0 <= k < |ch.nodes| && ch.nodes[k].id == r.nodeId && ch.nodes[k].name == r.nodeName;
      assert Present(ch.nodes[k], t1.nodes);
    }
    InterfaceBatch(t1, ch.interfaces, owner, subnet.id, createdAt);
    if ForeignKeysHold(t) {
      ApplyKeepsForeignKeys(t, ch);
    }
  }

  lemma StaleNodeStep(t: Tables, v: NodeValues, id: string, name: string, holder: string)
    requires id !in t.nodes && holder in t.nodes && t.nodes[holder].nodeName == name
    requires v.id != holder && (v.id == id ==> v.name == name)
    requires UpsertNode(t, v).Ok?
    ensures var nodes := UpsertNode(t, v).value.nodes;
            id !in nodes && holder in nodes && nodes[holder].nodeName == name
  {
    if v.id == id {
      assert NameTaken(t.nodes, name);
    }
  }

  lemma {:induction false} StaleNodeStays(t: Tables, vs: seq<NodeValues>, id: string, name: string, holder: string)
    requires id !in t.nodes && holder in t.nodes && t.nodes[holder].nodeName == name
    requires forall v | v in vs :: v.id != holder && (v.id == id ==> v.name == name)
    requires UpsertNodes(t, vs).Ok?
    ensures var nodes := UpsertNodes(t, vs).value.nodes;
            id !in nodes && holder in nodes && nodes[holder].nodeName == name
    decreases |vs|
  {
    if vs != [] {
      assert vs == vs[..|vs| - 1] + [vs[|vs| - 1]];
      StaleNodeStays(t, vs[..|vs| - 1], id, name, holder);
      StaleNodeStep(UpsertNodes(t, vs[..|vs| - 1]).value, vs[|vs| - 1], id, name, holder);
    }
  }

  /** A VM recreated under its old name with a new id: node_table keeps the old id, so a pass that has an
      interface for the VM never commits. */
  lemma RecreatedVmNeverCommits(t: Tables, ch: Change, vm: NodeValues, holder: string, row: InterfaceValues)
    requires WellFormed(ch)
    requires vm.id !in t.nodes && holder in t.nodes && t.nodes[holder].nodeName == vm.name
    requires forall v | v in ch.nodes :: v.id != holder && (v.id == vm.id ==> v.name == vm.name)
    requires row in ch.interfaces && row.nodeId == vm.id
    ensures Apply(t, ch).Err?
  {
    if Apply(t, ch).Ok? {
      StaleNodeStays(Prepare(t, ch), ch.nodes, vm.id, vm.name, holder);
      ApplyInClosedForm(t, ch);
    }
  }

  /** Every interface row of a pass belongs to a row of its node batch. */
  lemma RowOfTarget(owner: Owner, subnet: Subnet, targets: seq<Server>, createdAt: int, modifiedAt: int,
                    r: InterfaceValues)
    requires r in PassChange(owner, subnet, targets, createdAt, modifiedAt).interfaces
    ensures var vs := NodeRows(targets, createdAt, modifiedAt);
            exists k | 0 <= k < |vs| :: vs[k].id == r.nodeId && vs[k].name == r.nodeName
  {
    DesiredRowsMember(Context(owner, subnet.id, createdAt, modifiedAt), targets, r);
    var k :| 0 <= k < |targets| && targets[k].id == r.nodeId && targets[k].name == r.nodeName;
    var vs := NodeRows(targets, createdAt, modifiedAt);
    assert vs[k].id == r.nodeId && vs[k].name == r.nodeName;
  }
}
