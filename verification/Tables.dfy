/** The four tables and the SQL statements the reconciler sends to them, with the constraints
    MySQL enforces: UNIQUE keys, FOREIGN KEYs and `ON DUPLICATE KEY UPDATE`. */
module Tables {
  import opened Common

  /** The (cr_namespace, cr_name) pair that owns rows. */
  datatype Owner = Owner(namespace: string, name: string)

  /** The nine spec fields that enter the spec hash. The hash itself is taken to be injective, so the
      fields stand for it. */
  datatype Spec = Spec(
    authUrl: string, username: string, password: string, projectId: string, domainName: string,
    networkEndpoint: string, computeEndpoint: string, vmNames: seq<string>, subnetName: string)

  /** multi_subnet, keyed by subnet_id. */
  datatype SubnetRow = SubnetRow(
    subnetName: string, cidr: string, networkId: string, status: string, createdAt: int, modifiedAt: int)

  /** node_table, keyed by attached_node_id. */
  datatype NodeRow = NodeRow(nodeName: string, status: string, createdAt: int, modifiedAt: int)

  /** multi_interface, keyed by port_id. */
  datatype InterfaceRow = InterfaceRow(
    subnetId: string, mac: string, nodeId: string, nodeName: string, owner: Owner,
    status: string, netplanSuccess: int, createdAt: int, modifiedAt: int)

  /** attached_node_name is the second UNIQUE key of node_table. */
  ghost predicate UniqueNames(m: map<string, NodeRow>) {
    forall a, b | a in m && b in m && m[a].nodeName == m[b].nodeName :: a == b
  }

  type NodeTable = m: map<string, NodeRow> | UniqueNames(m) witness map[]

  datatype Tables = Tables(
    subnets: map<string, SubnetRow>,
    nodes: NodeTable,
    interfaces: map<string, InterfaceRow>,
    crStates: map<Owner, Spec>)

  /** The VALUES of one inserted row. */
  datatype SubnetValues = SubnetValues(
    id: string, name: string, cidr: string, networkId: string, createdAt: int, modifiedAt: int)

  datatype NodeValues = NodeValues(id: string, name: string, status: string, createdAt: int, modifiedAt: int)

  datatype InterfaceValues = InterfaceValues(
    portId: string, subnetId: string, mac: string, nodeId: string, nodeName: string, owner: Owner,
    status: string, netplanSuccess: int, createdAt: int, modifiedAt: int)

  datatype SqlError = DuplicateKey | ForeignKey | Injected | BadArguments

  type SqlResult = Result<Tables, SqlError>

  // ---------------------------------------------------------------- node names

  predicate NameTaken(nodes: NodeTable, name: string) {
    exists id | id in nodes :: nodes[id].nodeName == name
  }

  function IdOfName(nodes: NodeTable, name: string): (id: string)
    requires NameTaken(nodes, name)
    ensures id in nodes && nodes[id].nodeName == name
  {
    var id :| id in nodes && nodes[id].nodeName == name;
    id
  }

  /** Some interface row still points at the node name. */
  predicate NameReferenced(interfaces: map<string, InterfaceRow>, name: string) {
    exists p | p in interfaces :: interfaces[p].nodeName == name
  }

  // ---------------------------------------------------------------- statements

  /** DELETE FROM multi_interface WHERE owner. */
  function DeleteInterfaces(t: Tables, owner: Owner): Tables {
    t.(interfaces := map p | p in t.interfaces && t.interfaces[p].owner != owner :: t.interfaces[p])
  }

  /** DELETE FROM cr_state WHERE owner. */
  function DeleteState(t: Tables, owner: Owner): Tables {
    t.(crStates := t.crStates - {owner})
  }

  /** INSERT INTO multi_subnet ... ON DUPLICATE KEY UPDATE: created_at survives an update. */
  function UpsertSubnet(t: Tables, v: SubnetValues): Tables {
    var created := if v.id in t.subnets then t.subnets[v.id].createdAt else v.createdAt;
    t.(subnets := t.subnets[v.id := SubnetRow(v.name, v.cidr, v.networkId, "active", created, v.modifiedAt)])
  }

  /** One row of the node batch. The UNIQUE key on the id is found first, then the one on the name.
      - id present: the row takes the new name. MySQL refuses when another row has that name, and when
        the name really changes while interface rows still reference the old one (ON UPDATE RESTRICT).
      - only the name present: that row is refreshed and KEEPS ITS OLD ID.
      - neither: a new row. */
  function UpsertNode(t: Tables, v: NodeValues): SqlResult {
    if v.id in t.nodes then
      var row := t.nodes[v.id];
      if v.name != row.nodeName && NameTaken(t.nodes, v.name) then Err(DuplicateKey)
      else if v.name != row.nodeName && NameReferenced(t.interfaces, row.nodeName) then Err(ForeignKey)
      else Ok(t.(nodes := t.nodes[v.id := row.(nodeName := v.name, status := v.status, modifiedAt := v.modifiedAt)]))
    else if NameTaken(t.nodes, v.name) then
      var id := IdOfName(t.nodes, v.name);
      Ok(t.(nodes := t.nodes[id := t.nodes[id].(status := v.status, modifiedAt := v.modifiedAt)]))
    else
      Ok(t.(nodes := t.nodes[v.id := NodeRow(v.name, v.status, v.createdAt, v.modifiedAt)]))
  }

  /** A batch is processed row by row, in order; the first failing row fails the statement. */
  function UpsertNodes(t: Tables, vs: seq<NodeValues>): SqlResult {
    if vs == [] then Ok(t)
    else
      var t1 :- UpsertNodes(t, vs[..|vs| - 1]);
      UpsertNode(t1, vs[|vs| - 1])
  }

  /** Both FOREIGN KEYs from an interface row to node_table. */
  predicate NodeKnown(t: Tables, v: InterfaceValues) {
    v.nodeId in t.nodes && NameTaken(t.nodes, v.nodeName)
  }

  /** What ON DUPLICATE KEY UPDATE changes: owner, subnet_id and created_at stay. */
  function Overwrite(row: InterfaceRow, v: InterfaceValues): InterfaceRow {
    row.(mac := v.mac, nodeId := v.nodeId, nodeName := v.nodeName, status := v.status,
         netplanSuccess := v.netplanSuccess, modifiedAt := v.modifiedAt)
  }

  function Fresh(v: InterfaceValues): InterfaceRow {
    InterfaceRow(v.subnetId, v.mac, v.nodeId, v.nodeName, v.owner, v.status, v.netplanSuccess,
                 v.createdAt, v.modifiedAt)
  }

  /** One row of the interface batch. */
  function UpsertInterface(t: Tables, v: InterfaceValues): SqlResult {
    if !NodeKnown(t, v) then Err(ForeignKey)
    else if v.portId in t.interfaces then
      Ok(t.(interfaces := t.interfaces[v.portId := Overwrite(t.interfaces[v.portId], v)]))
    else if v.subnetId !in t.subnets then Err(ForeignKey)
    else Ok(t.(interfaces := t.interfaces[v.portId := Fresh(v)]))
  }

  function UpsertInterfaces(t: Tables, vs: seq<InterfaceValues>): SqlResult {
    if vs == [] then Ok(t)
    else
      var t1 :- UpsertInterfaces(t, vs[..|vs| - 1]);
      UpsertInterface(t1, vs[|vs| - 1])
  }

  lemma {:induction false} NodeBatchTouchesNodesOnly(t: Tables, vs: seq<NodeValues>)
    requires UpsertNodes(t, vs).Ok?
    ensures UpsertNodes(t, vs).value == t.(nodes := UpsertNodes(t, vs).value.nodes)
    decreases |vs|
  {
    if vs != [] {
      NodeBatchTouchesNodesOnly(t, vs[..|vs| - 1]);
    }
  }

  // ---------------------------------------------------------------- foreign keys

  ghost predicate RowAnchored(t: Tables, row: InterfaceRow) {
    && row.subnetId in t.subnets
    && row.nodeId in t.nodes
    && NameTaken(t.nodes, row.nodeName)
  }

  /** Every interface row points at an existing subnet, node id and node name. */
  ghost predicate ForeignKeysHold(t: Tables) {
    forall p | p in t.interfaces :: RowAnchored(t, t.interfaces[p])
  }

  lemma UpsertNodeKeepsForeignKeys(t: Tables, v: NodeValues)
    requires ForeignKeysHold(t) && UpsertNode(t, v).Ok?
    ensures ForeignKeysHold(UpsertNode(t, v).value)
  {
    var t1 := UpsertNode(t, v).value;
    forall p | p in t1.interfaces
      ensures RowAnchored(t1, t1.interfaces[p])
    {
      var row := t.interfaces[p];
      assert RowAnchored(t, row);
      var holder := IdOfName(t.nodes, row.nodeName);
      assert holder in t1.nodes;
      assert t1.nodes[holder].nodeName == row.nodeName;
    }
  }

  lemma {:induction false} UpsertNodesKeepsForeignKeys(t: Tables, vs: seq<NodeValues>)
    requires ForeignKeysHold(t) && UpsertNodes(t, vs).Ok?
    ensures ForeignKeysHold(UpsertNodes(t, vs).value)
    decreases |vs|
  {
    if vs != [] {
      UpsertNodesKeepsForeignKeys(t, vs[..|vs| - 1]);
      UpsertNodeKeepsForeignKeys(UpsertNodes(t, vs[..|vs| - 1]).value, vs[|vs| - 1]);
    }
  }

  lemma {:induction false} UpsertInterfacesKeepsForeignKeys(t: Tables, vs: seq<InterfaceValues>)
    requires ForeignKeysHold(t) && UpsertInterfaces(t, vs).Ok?
    ensures ForeignKeysHold(UpsertInterfaces(t, vs).value)
    decreases |vs|
  {
    if vs != [] {
      UpsertInterfacesKeepsForeignKeys(t, vs[..|vs| - 1]);
      var t1 := UpsertInterfaces(t, vs[..|vs| - 1]).value;
      var t2 := UpsertInterfaces(t, vs).value;
      forall p | p in t2.interfaces
        ensures RowAnchored(t2, t2.interfaces[p])
      {
        assert p in t1.interfaces ==> RowAnchored(t1, t1.interfaces[p]);
      }
    }
  }
}
