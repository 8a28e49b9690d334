/** The flat argument arrays of the two batch statements: five values per node placeholder, eleven per
    interface placeholder. */
module Arguments {
  import opened Common
  import opened Tables
  import opened Rows

  datatype SqlValue = Text(s: string) | Number(n: int) | Time(t: int)

  const NODE_PLACEHOLDER := "(?, ?, ?, ?, ?)"
  const INTERFACE_PLACEHOLDER := "(?, ?, ?, ?, ?, ?, ?, ?, ?, ?, ?)"
  const NODE_WIDTH: nat := 5
  const INTERFACE_WIDTH: nat := 11

  function NodeArgs(v: NodeValues): seq<SqlValue> {
    [Text(v.id), Text(v.name), Text(v.status), Time(v.createdAt), Time(v.modifiedAt)]
  }

  function InterfaceArgs(v: InterfaceValues): seq<SqlValue> {
    [Text(v.portId), Text(v.subnetId), Text(v.mac), Text(v.nodeId), Text(v.nodeName),
     Text(v.owner.namespace), Text(v.owner.name), Text(v.status), Number(v.netplanSuccess),
     Time(v.createdAt), Time(v.modifiedAt)]
  }

  /** The column lists of the two statements. */
  datatype NodeColumn = AttachedNodeId | AttachedNodeName | NodeStatus | NodeCreatedAt | NodeModifiedAt

  const NODE_COLUMNS := [AttachedNodeId, AttachedNodeName, NodeStatus, NodeCreatedAt, NodeModifiedAt]

  datatype InterfaceColumn =
    | PortId | SubnetId | MacAddress | NodeId | NodeName | CrNamespace | CrName | Status | NetplanSuccess
    | CreatedAt | ModifiedAt

  const INTERFACE_COLUMNS :=
    [PortId, SubnetId, MacAddress, NodeId, NodeName, CrNamespace, CrName, Status, NetplanSuccess, CreatedAt, ModifiedAt]

  /** What a row has in a column. */
  function NodeField(v: NodeValues, c: NodeColumn): SqlValue {
    match c
    case AttachedNodeId => Text(v.id)
    case AttachedNodeName => Text(v.name)
    case NodeStatus => Text(v.status)
    case NodeCreatedAt => Time(v.createdAt)
    case NodeModifiedAt => Time(v.modifiedAt)
  }

  function InterfaceField(v: InterfaceValues, c: InterfaceColumn): SqlValue {
    match c
    case PortId => Text(v.portId)
    case SubnetId => Text(v.subnetId)
    case MacAddress => Text(v.mac)
    case NodeId => Text(v.nodeId)
    case NodeName => Text(v.nodeName)
    case CrNamespace => Text(v.owner.namespace)
    case CrName => Text(v.owner.name)
    case Status => Text(v.status)
    case NetplanSuccess => Number(v.netplanSuccess)
    case CreatedAt => Time(v.createdAt)
    case ModifiedAt => Time(v.modifiedAt)
  }

  /** The values of a row stand in the order of the column list. */
  lemma ValuesFollowColumns(v: NodeValues, r: InterfaceValues)
    ensures |NodeArgs(v)| == |NODE_COLUMNS| == NODE_WIDTH
    ensures forall k | 0 <= k < NODE_WIDTH :: NodeArgs(v)[k] == NodeField(v, NODE_COLUMNS[k])
    ensures |InterfaceArgs(r)| == |INTERFACE_COLUMNS| == INTERFACE_WIDTH
    ensures forall k | 0 <= k < INTERFACE_WIDTH :: InterfaceArgs(r)[k] == InterfaceField(r, INTERFACE_COLUMNS[k])
  {
  }

  /** The driver binds the arguments to one placeholder group after the other. */
  function BindNode(g: seq<SqlValue>): Option<NodeValues> {
    if |g| == NODE_WIDTH && g[0].Text? && g[1].Text? && g[2].Text? && g[3].Time? && g[4].Time? then
      Some(NodeValues(g[0].s, g[1].s, g[2].s, g[3].t, g[4].t))
    else None
  }

  function BindInterface(g: seq<SqlValue>): Option<InterfaceValues> {
    if && |g| == INTERFACE_WIDTH
       && (forall k | 0 <= k < 8 :: g[k].Text?) && g[8].Number? && g[9].Time? && g[10].Time?
    then
      Some(InterfaceValues(g[0].s, g[1].s, g[2].s, g[3].s, g[4].s, Owner(g[5].s, g[6].s), g[7].s, g[8].n,
                           g[9].t, g[10].t))
    else None
  }

  function BindNodes(placeholders: nat, args: seq<SqlValue>): Option<seq<NodeValues>> {
    if placeholders == 0 then if args == [] then Some([]) else None
    else if |args| < NODE_WIDTH then None
    else
      var cut := |args| - NODE_WIDTH;
      var before := BindNodes(placeholders - 1, args[..cut]);
      var last := BindNode(args[cut..]);
      if before.Some? && last.Some? then Some(before.value + [last.value]) else None
  }

  function BindInterfaces(placeholders: nat, args: seq<SqlValue>): Option<seq<InterfaceValues>> {
    if placeholders == 0 then if args == [] then Some([]) else None
    else if |args| < INTERFACE_WIDTH then None
    else
      var cut := |args| - INTERFACE_WIDTH;
      var before := BindInterfaces(placeholders - 1, args[..cut]);
      var last := BindInterface(args[cut..]);
      if before.Some? && last.Some? then Some(before.value + [last.value]) else None
  }

  /** Appending one row's values and one placeholder appends exactly that row to what the driver binds. */
  lemma BindOneMoreNode(n: nat, args: seq<SqlValue>, rows: seq<NodeValues>, v: NodeValues)
    requires BindNodes(n, args) == Some(rows)
    ensures BindNodes(n + 1, args + NodeArgs(v)) == Some(rows + [v])
  {
    var all := args + NodeArgs(v);
    assert all[..|all| - NODE_WIDTH] == args && all[|all| - NODE_WIDTH..] == NodeArgs(v);
  }

  lemma BindOneMoreInterface(n: nat, args: seq<SqlValue>, rows: seq<InterfaceValues>, v: InterfaceValues)
    requires BindInterfaces(n, args) == Some(rows)
    ensures BindInterfaces(n + 1, args + InterfaceArgs(v)) == Some(rows + [v])
  {
    var all := args + InterfaceArgs(v);
    assert all[..|all| - INTERFACE_WIDTH] == args && all[|all| - INTERFACE_WIDTH..] == InterfaceArgs(v);
  }

  /** Arguments bind only in full groups: five values per placeholder. */
  lemma {:induction false} NodeArgumentCount(n: nat, args: seq<SqlValue>)
    requires BindNodes(n, args).Some?
    ensures |args| == NODE_WIDTH * n && |BindNodes(n, args).value| == n
  {
    if n > 0 {
      NodeArgumentCount(n - 1, args[..|args| - NODE_WIDTH]);
    }
  }

  /** Eleven values per placeholder. */
  lemma {:induction false} InterfaceArgumentCount(n: nat, args: seq<SqlValue>)
    requires BindInterfaces(n, args).Some?
    ensures |args| == INTERFACE_WIDTH * n && |BindInterfaces(n, args).value| == n
  {
    if n > 0 {
      InterfaceArgumentCount(n - 1, args[..|args| - INTERFACE_WIDTH]);
    }
  }

  /** The node loop: what it builds binds to one row per target, in order. */
  method BuildNodeBatch(targets: seq<Server>, createdAt: int, modifiedAt: int)
    returns (placeholders: seq<string>, args: seq<SqlValue>)
    ensures BindNodes(|placeholders|, args) == Some(NodeRows(targets, createdAt, modifiedAt))
    ensures |args| == 5 * |placeholders| && forall p | p in placeholders :: p == NODE_PLACEHOLDER
  {
    placeholders, args := [], [];
    assert NodeRows(targets[..0], createdAt, modifiedAt) == [];
    for i := 0 to |targets|
      invariant BindNodes(|placeholders|, args) == Some(NodeRows(targets[..i], createdAt, modifiedAt))
      invariant forall p | p in placeholders :: p == NODE_PLACEHOLDER
    {
      var t := targets[i];
      ghost var row := NodeValues(t.id, t.name, "active", createdAt, modifiedAt);
      BindOneMoreNode(|placeholders|, args, NodeRows(targets[..i], createdAt, modifiedAt), row);
      assert NodeRows(targets[..i + 1], createdAt, modifiedAt)
          == NodeRows(targets[..i], createdAt, modifiedAt) + [row];
      placeholders := placeholders + [NODE_PLACEHOLDER];
      args := args + [Text(t.id), Text(t.name), Text("active"), Time(createdAt), Time(modifiedAt)];
    }
    assert targets[..|targets|] == targets;
    NodeArgumentCount(|placeholders|, args);
  }

  lemma {:induction false} AddressRowsConcat(c: Context, s: Server, a: seq<Address>, b: seq<Address>)
    ensures AddressRows(c, s, a + b) == AddressRows(c, s, a) + AddressRows(c, s, b)
    decreases |b|
  {
    if b == [] {
      assert a + b == a;
    } else {
      var init, last := b[..|b| - 1], b[|b| - 1];
      AddressRowsConcat(c, s, a, init);
      AddressRowsSnoc(c, s, init, last);
      AddressRowsSnoc(c, s, a + init, last);
      Associative(a, init, [last]);
      Associative(AddressRows(c, s, a), AddressRows(c, s, init), AddressRow(c, s, last));
      assert b == init + [last];
    }
  }

  lemma AddressRowsSnoc(c: Context, s: Server, a: seq<Address>, last: Address)
    ensures AddressRows(c, s, a + [last]) == AddressRows(c, s, a) + AddressRow(c, s, last)
  {
    assert (a + [last])[..|a|] == a;
  }

  lemma AfterAddresses(c: Context, s: Server, rows: seq<InterfaceValues>, a: seq<Address>, b: seq<Address>)
    ensures rows + AddressRows(c, s, a) + AddressRows(c, s, b) == rows + AddressRows(c, s, a + b)
  {
    AddressRowsConcat(c, s, a, b);
  }

  lemma AfterAddress(c: Context, s: Server, rows: seq<InterfaceValues>, addresses: seq<Address>, k: nat)
    requires k < |addresses|
    ensures rows + AddressRows(c, s, addresses[..k]) + AddressRow(c, s, addresses[k])
         == rows + AddressRows(c, s, addresses[..k + 1])
  {
    assert addresses[..k + 1] == addresses[..k] + [addresses[k]];
    AddressRowsSnoc(c, s, addresses[..k], addresses[k]);
  }

  lemma PanicInNetwork(s: Server, i: nat, subnetId: string)
    requires i < |s.networks| && exists a | a in s.networks[i] :: Contribute(a, subnetId) == Panic
    ensures ServerPanics(s, subnetId)
  {
    var a :| a in s.networks[i] && Contribute(a, subnetId) == Panic;
    ConcatMember(s.networks, a);
  }

  /** The port of an address, from its own field or by its MAC; "" when there is none. */
  method ResolvePort(a: Address, subnetId: string) returns (portId: string)
    ensures portId == PortOf(a, subnetId)
  {
    portId := "";
    if a.port.Str? {
      portId := a.port.s;
    }
    if portId == "" && !a.query.QueryFailed? {
      portId := MatchPort(a.query.ports, subnetId);
    }
  }

  /** The eleven values of one interface, in the order of the column list. */
  function RowArgs(c: Context, server: Server, portId: string, mac: string): (args: seq<SqlValue>)
    ensures args == InterfaceArgs(MakeRow(c, server, portId, mac))
  {
    [Text(portId), Text(c.subnetId), Text(mac), Text(server.id), Text(server.name),
     Text(c.owner.namespace), Text(c.owner.name), Text("active"), Number(0),
     Time(c.createdAt), Time(c.modifiedAt)]
  }

  lemma BindOneMoreRow(n: nat, args: seq<SqlValue>, rows: seq<InterfaceValues>, c: Context, server: Server,
                       a: Address)
    requires BindInterfaces(n, args) == Some(rows)
    ensures match Contribute(a, c.subnetId)
      case Contributes(portId, mac) =>
        BindInterfaces(n + 1, args + RowArgs(c, server, portId, mac)) == Some(rows + AddressRow(c, server, a))
      case _ => rows + AddressRow(c, server, a) == rows
  {
    match Contribute(a, c.subnetId)
    case Contributes(portId, mac) =>
      BindOneMoreInterface(n, args, rows, MakeRow(c, server, portId, mac));
    case _ =>
      assert rows + [] == rows;
  }

  /** What one address contributes, branch by branch. */
  method Inspect(a: Address, subnetId: string) returns (r: Contribution)
    ensures r == Contribute(a, subnetId)
  {
    if a.ipType == Null || a.mac == Null {
      return Skipped;
    }
    if !a.ipType.Str? {
      return Panic;
    }
    if a.ipType.s == "fixed" {
      if !a.mac.Str? {
        return Skipped;
      }
      var portId := ResolvePort(a, subnetId);
      if portId == "" {
        return Skipped;
      }
      return Contributes(portId, a.mac.s);
    }
    r := Skipped;
  }

  /** One address: appends its row's values, if it has a row. */
  method AppendAddress(c: Context, server: Server, a: Address, placeholders: seq<string>, args: seq<SqlValue>,
                       ghost rows: seq<InterfaceValues>)
    returns (placeholders': seq<string>, args': seq<SqlValue>, panicked: bool)
    requires BindInterfaces(|placeholders|, args) == Some(rows)
    requires forall p | p in placeholders :: p == INTERFACE_PLACEHOLDER
    ensures panicked <==> Contribute(a, c.subnetId) == Panic
    ensures !panicked ==> BindInterfaces(|placeholders'|, args') == Some(rows + AddressRow(c, server, a))
    ensures forall p | p in placeholders' :: p == INTERFACE_PLACEHOLDER
  {
    placeholders', args', panicked := placeholders, args, false;
    var r := Inspect(a, c.subnetId);
    BindOneMoreRow(|placeholders|, args, rows, c, server, a);
    if r.Panic? {
      panicked := true;
    } else if r.Contributes? {
      placeholders' := placeholders + [INTERFACE_PLACEHOLDER];
      args' := args + RowArgs(c, server, r.portId, r.mac);
    }
  }

  /** The loop over the addresses of one network. */
  method AppendAddresses(c: Context, server: Server, addresses: seq<Address>, placeholders: seq<string>,
                         args: seq<SqlValue>, ghost rows: seq<InterfaceValues>)
    returns (placeholders': seq<string>, args': seq<SqlValue>, panicked: bool)
    requires BindInterfaces(|placeholders|, args) == Some(rows)
    requires forall p | p in placeholders :: p == INTERFACE_PLACEHOLDER
    ensures panicked <==> exists a | a in addresses :: Contribute(a, c.subnetId) == Panic
    ensures !panicked ==> BindInterfaces(|placeholders'|, args') == Some(rows + AddressRows(c, server, addresses))
    ensures forall p | p in placeholders' :: p == INTERFACE_PLACEHOLDER
  {
    placeholders', args', panicked := placeholders, args, false;
    assert rows + AddressRows(c, server, addresses[..0]) == rows;
    for k := 0 to |addresses|
      invariant forall a | a in addresses[..k] :: Contribute(a, c.subnetId) != Panic
      invariant BindInterfaces(|placeholders'|, args') == Some(rows + AddressRows(c, server, addresses[..k]))
      invariant forall p | p in placeholders' :: p == INTERFACE_PLACEHOLDER
    {
      ghost var sofar := rows + AddressRows(c, server, addresses[..k]);
      placeholders', args', panicked := AppendAddress(c, server, addresses[k], placeholders', args', sofar);
      if panicked {
        return;
      }
      AfterAddress(c, server, rows, addresses, k);
    }
    assert addresses[..|addresses|] == addresses;
  }

  /** The loop over one server's address map. */
  method AppendServer(c: Context, server: Server, placeholders: seq<string>, args: seq<SqlValue>,
                      ghost rows: seq<InterfaceValues>)
    returns (placeholders': seq<string>, args': seq<SqlValue>, panicked: bool)
    requires BindInterfaces(|placeholders|, args) == Some(rows)
    requires forall p | p in placeholders :: p == INTERFACE_PLACEHOLDER
    ensures panicked <==> ServerPanics(server, c.subnetId)
    ensures !panicked ==> BindInterfaces(|placeholders'|, args') == Some(rows + ServerRows(c, server))
    ensures forall p | p in placeholders' :: p == INTERFACE_PLACEHOLDER
  {
    placeholders', args', panicked := placeholders, args, false;
    var nets := server.networks;
    ghost var done: seq<Address> := [];
    assert rows + AddressRows(c, server, done) == rows;
    for i := 0 to |nets|
      invariant done == Concat(nets[..i])
      invariant forall a | a in done :: Contribute(a, c.subnetId) != Panic
      invariant BindInterfaces(|placeholders'|, args') == Some(rows + AddressRows(c, server, done))
      invariant forall p | p in placeholders' :: p == INTERFACE_PLACEHOLDER
    {
      ghost var sofar := rows + AddressRows(c, server, done);
      placeholders', args', panicked := AppendAddresses(c, server, nets[i], placeholders', args', sofar);
      if panicked {
        PanicInNetwork(server, i, c.subnetId);
        return;
      }
      AfterAddresses(c, server, rows, done, nets[i]);
      ConcatStep(nets, i);
      done := done + nets[i];
    }
    assert nets[..|nets|] == nets;
  }

  lemma DesiredRowsStep(c: Context, targets: seq<Server>, i: nat)
    requires i < |targets|
    ensures DesiredRows(c, targets[..i + 1]) == DesiredRows(c, targets[..i]) + ServerRows(c, targets[i])
  {
    assert targets[..i + 1][..i] == targets[..i];
  }

  /** The interface loops: what they build binds to the desired rows, in order. */
  method BuildInterfaceBatch(c: Context, targets: seq<Server>)
    returns (placeholders: seq<string>, args: seq<SqlValue>, panicked: bool)
    ensures panicked <==> BuildPanics(targets, c.subnetId)
    ensures !panicked ==> BindInterfaces(|placeholders|, args) == Some(DesiredRows(c, targets))
    ensures !panicked ==> |args| == 11 * |placeholders|
    ensures forall p | p in placeholders :: p == INTERFACE_PLACEHOLDER
  {
    placeholders, args, panicked := [], [], false;
    for i := 0 to |targets|
      invariant forall s | s in targets[..i] :: !ServerPanics(s, c.subnetId)
      invariant BindInterfaces(|placeholders|, args) == Some(DesiredRows(c, targets[..i]))
      invariant forall p | p in placeholders :: p == INTERFACE_PLACEHOLDER
    {
      placeholders, args, panicked :=
        AppendServer(c, targets[i], placeholders, args, DesiredRows(c, targets[..i]));
      if panicked {
        assert targets[i] in targets;
        return;
      }
      DesiredRowsStep(c, targets, i);
    }
    assert targets[..|targets|] == targets;
    InterfaceArgumentCount(|placeholders|, args);
  }
}
