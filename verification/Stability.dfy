/** Two things a pass must not depend on: the order in which a server's address map is visited, and how
    often the pass is repeated. */
module Stability {
  import opened Common
  import opened Tables
  import opened Rows
  import opened Transaction
  import CommitCondition

  // ---------------------------------------------------------------- visiting order

  /** Within one server, equal ports carry equal MACs. */
  ghost predicate UniformMacs(s: Server, subnetId: string) {
    forall a, b | a in Concat(s.networks) && b in Concat(s.networks) ::
      var x, y := Contribute(a, subnetId), Contribute(b, subnetId);
      x.Contributes? && y.Contributes? && x.portId == y.portId ==> x.mac == y.mac
  }

  /** The same server with its address map visited in another order. */
  ghost predicate Reordered(s: Server, s': Server) {
    s.id == s'.id && s.name == s'.name && multiset(s.networks) == multiset(s'.networks)
  }

  ghost predicate AllReordered(ts: seq<Server>, ts': seq<Server>) {
    |ts| == |ts'| && forall i | 0 <= i < |ts| :: Reordered(ts[i], ts'[i])
  }

  lemma ReorderedAddresses(s: Server, s': Server, a: Address)
    requires Reordered(s, s')
    ensures a in Concat(s.networks) <==> a in Concat(s'.networks)
  {
    ConcatMember(s.networks, a);
    ConcatMember(s'.networks, a);
    forall g
      ensures g in s.networks <==> g in s'.networks
    {
      assert g in s.networks <==> g in multiset(s.networks);
      assert g in s'.networks <==> g in multiset(s'.networks);
    }
  }

  lemma ReorderedServerRows(c: Context, s: Server, s': Server, r: InterfaceValues)
    requires Reordered(s, s')
    ensures r in ServerRows(c, s) <==> r in ServerRows(c, s')
  {
    AddressRowsMember(c, s, Concat(s.networks), r);
    AddressRowsMember(c, s', Concat(s'.networks), r);
    forall a: Address
      ensures a in Concat(s.networks) <==> a in Concat(s'.networks)
    {
      ReorderedAddresses(s, s', a);
    }
    assert MakeRow(c, s, r.portId, r.mac) == MakeRow(c, s', r.portId, r.mac);
  }

  lemma UniformRow(c: Context, s: Server, r: InterfaceValues, q: InterfaceValues)
    requires UniformMacs(s, c.subnetId) && r in ServerRows(c, s) && q in ServerRows(c, s) && r.portId == q.portId
    ensures r == q
  {
    AddressRowsMember(c, s, Concat(s.networks), r);
    AddressRowsMember(c, s, Concat(s.networks), q);
  }

  lemma {:induction false} LastRowOfConcat(a: seq<InterfaceValues>, b: seq<InterfaceValues>, p: string)
    requires p in PortsOf(a + b)
    ensures p in PortsOf(b) ==> LastRow(a + b, p) == LastRow(b, p)
    ensures p !in PortsOf(b) ==> p in PortsOf(a) && LastRow(a + b, p) == LastRow(a, p)
    decreases |b|
  {
    if b == [] {
      assert a + b == a;
    } else {
      var init, last := b[..|b| - 1], b[|b| - 1];
      assert (a + b)[..|a + b| - 1] == a + init;
      PortsSnoc(b);
      if last.portId != p {
        PortsSnoc(a + b);
        LastRowOfConcat(a, init, p);
      }
    }
  }

  /** The two batches name the same rows, and the same last row for every port. */
  lemma {:induction false} ReorderedRows(c: Context, ts: seq<Server>, ts': seq<Server>)
    requires AllReordered(ts, ts') && forall s | s in ts :: UniformMacs(s, c.subnetId)
    ensures var rows, rows' := DesiredRows(c, ts), DesiredRows(c, ts');
      && (forall r :: r in rows <==> r in rows')
      && PortsOf(rows) == PortsOf(rows')
      && forall p | p in PortsOf(rows) :: LastRow(rows, p) == LastRow(rows', p)
    decreases |ts|
  {
    if ts != [] {
      var n := |ts| - 1;
      ReorderedRows(c, ts[..n], ts'[..n]);
      var a, b := DesiredRows(c, ts[..n]), ServerRows(c, ts[n]);
      var a', b' := DesiredRows(c, ts'[..n]), ServerRows(c, ts'[n]);
      forall r
        ensures r in b <==> r in b'
      {
        ReorderedServerRows(c, ts[n], ts'[n], r);
      }
      assert forall r :: r in a + b <==> r in a' + b';
      forall p | p in PortsOf(a + b)
        ensures LastRow(a + b, p) == LastRow(a' + b', p)
      {
        LastRowOfConcat(a, b, p);
        LastRowOfConcat(a', b', p);
        if p in PortsOf(b) {
          UniformRow(c, ts[n], LastRow(b, p), LastRow(b', p));
        }
      }
    }
  }

  /** The outcome of the transaction, tables or error, does not depend on the visiting order. */
  lemma VisitingOrderDoesNotMatter(t: Tables, owner: Owner, subnet: Subnet, ts: seq<Server>, ts': seq<Server>,
                                   createdAt: int, modifiedAt: int)
    requires AllReordered(ts, ts') && forall s | s in ts :: UniformMacs(s, subnet.id)
    ensures Apply(t, PassChange(owner, subnet, ts, createdAt, modifiedAt))
         == Apply(t, PassChange(owner, subnet, ts', createdAt, modifiedAt))
    ensures BuildPanics(ts, subnet.id) <==> BuildPanics(ts', subnet.id)
  {
    var ch := PassChange(owner, subnet, ts, createdAt, modifiedAt);
    var ch' := PassChange(owner, subnet, ts', createdAt, modifiedAt);
    assert ch.nodes == ch'.nodes;
    PassChangeWellFormed(owner, subnet, ts, createdAt, modifiedAt);
    PassChangeWellFormed(owner, subnet, ts', createdAt, modifiedAt);
    ReorderedRows(Context(owner, subnet.id, createdAt, modifiedAt), ts, ts');
    SameLastRowsSameOutcome(t, ch, ch');
    forall i | 0 <= i < |ts|
      ensures ServerPanics(ts[i], subnet.id) <==> ServerPanics(ts'[i], subnet.id)
    {
      ReorderedPanics(ts[i], ts'[i], subnet.id);
    }
  }

  lemma ReorderedPanics(s: Server, s': Server, subnetId: string)
    requires Reordered(s, s')
    ensures ServerPanics(s, subnetId) <==> ServerPanics(s', subnetId)
  {
    forall a: Address
      ensures a in Concat(s.networks) <==> a in Concat(s'.networks)
    {
      ReorderedAddresses(s, s', a);
    }
  }

  /** The interface batch matters only through its set of rows and the last row of each port. */
  lemma SameLastRowsSameOutcome(t: Tables, ch: Change, ch': Change)
    requires WellFormed(ch) && WellFormed(ch') && ch' == ch.(interfaces := ch'.interfaces)
    requires forall r :: r in ch.interfaces <==> r in ch'.interfaces
    requires PortsOf(ch.interfaces) == PortsOf(ch'.interfaces)
    requires forall p | p in PortsOf(ch.interfaces) :: LastRow(ch.interfaces, p) == LastRow(ch'.interfaces, p)
    ensures Apply(t, ch) == Apply(t, ch')
  {
    var nodes := UpsertNodes(Prepare(t, ch), ch.nodes);
    if nodes.Ok? {
      NodeBatchTouchesNodesOnly(Prepare(t, ch), ch.nodes);
      InterfaceBatch(nodes.value, ch.interfaces, ch.owner, ch.subnet.id, ch.subnet.createdAt);
      InterfaceBatch(nodes.value, ch'.interfaces, ch.owner, ch.subnet.id, ch.subnet.createdAt);
      SameLastRowsSameMerge(nodes.value.interfaces, ch.interfaces, ch'.interfaces);
    }
  }

  lemma SameLastRowsSameMerge(base: map<string, InterfaceRow>, rows: seq<InterfaceValues>,
                              rows': seq<InterfaceValues>)
    requires PortsOf(rows) == PortsOf(rows')
    requires forall p | p in PortsOf(rows) :: LastRow(rows, p) == LastRow(rows', p)
    ensures Merged(base, rows) == Merged(base, rows')
  {
    var m, m' := Merged(base, rows), Merged(base, rows');
    assert m.Keys == m'.Keys;
    forall p | p in m
      ensures m[p] == m'[p]
    {
    }
  }

  // ---------------------------------------------------------------- repetition

  /** The same change at another time. */
  function Later(ch: Change, now: int): Change {
    ch.(subnet := ch.subnet.(modifiedAt := now),
        nodes := seq(|ch.nodes|, i requires 0 <= i < |ch.nodes| => ch.nodes[i].(modifiedAt := now)),
        interfaces := LaterRows(ch.interfaces, now))
  }

  function LaterRows(rows: seq<InterfaceValues>, now: int): seq<InterfaceValues> {
    seq(|rows|, i requires 0 <= i < |rows| => rows[i].(modifiedAt := now))
  }

  /** The later change is what the pass builds at the later time. */
  lemma {:induction false} LaterIsTheLaterPass(owner: Owner, subnet: Subnet, targets: seq<Server>,
                                               createdAt: int, modifiedAt: int, now: int)
    ensures Later(PassChange(owner, subnet, targets, createdAt, modifiedAt), now)
         == PassChange(owner, subnet, targets, createdAt, now)
  {
    LaterDesiredRows(Context(owner, subnet.id, createdAt, modifiedAt), targets, now);
    var ch := PassChange(owner, subnet, targets, createdAt, modifiedAt);
    assert Later(ch, now).nodes == NodeRows(targets, createdAt, now);
  }

  lemma LaterConcat(a: seq<InterfaceValues>, b: seq<InterfaceValues>, now: int)
    ensures LaterRows(a + b, now) == LaterRows(a, now) + LaterRows(b, now)
  {
  }

  lemma {:induction false} LaterDesiredRows(c: Context, targets: seq<Server>, now: int)
    ensures LaterRows(DesiredRows(c, targets), now) == DesiredRows(c.(modifiedAt := now), targets)
    decreases |targets|
  {
    if targets != [] {
      var init, last := targets[..|targets| - 1], targets[|targets| - 1];
      LaterDesiredRows(c, init, now);
      LaterServerRows(c, last, now);
      LaterConcat(DesiredRows(c, init), ServerRows(c, last), now);
    }
  }

  lemma LaterServerRows(c: Context, s: Server, now: int)
    ensures LaterRows(ServerRows(c, s), now) == ServerRows(c.(modifiedAt := now), s)
  {
    LaterAddressRows(c, s, Concat(s.networks), now);
  }

  lemma {:induction false} LaterAddressRows(c: Context, s: Server, addresses: seq<Address>, now: int)
    ensures LaterRows(AddressRows(c, s, addresses), now) == AddressRows(c.(modifiedAt := now), s, addresses)
    decreases |addresses|
  {
    if addresses != [] {
      var init, last := addresses[..|addresses| - 1], addresses[|addresses| - 1];
      LaterAddressRows(c, s, init, now);
      LaterAddressRow(c, s, last, now);
      LaterConcat(AddressRows(c, s, init), AddressRow(c, s, last), now);
    }
  }

  lemma LaterAddressRow(c: Context, s: Server, a: Address, now: int)
    ensures LaterRows(AddressRow(c, s, a), now) == AddressRow(c.(modifiedAt := now), s, a)
  {
  }

  /** Equal up to modified_at. */
  ghost predicate SameNodes(m: NodeTable, m': NodeTable) {
    m.Keys == m'.Keys && forall id | id in m :: m[id].(modifiedAt := 0) == m'[id].(modifiedAt := 0)
  }

  ghost predicate SameTables(t: Tables, t': Tables) {
    && t.subnets.Keys == t'.subnets.Keys
    && (forall id | id in t.subnets :: t.subnets[id].(modifiedAt := 0) == t'.subnets[id].(modifiedAt := 0))
    && SameNodes(t.nodes, t'.nodes)
    && t.interfaces.Keys == t'.interfaces.Keys
    && (forall p | p in t.interfaces :: t.interfaces[p].(modifiedAt := 0) == t'.interfaces[p].(modifiedAt := 0))
    && t.crStates == t'.crStates
  }

  /** Every target finds its row under its id with its name, or, its id being unknown, finds its name. */
  ghost predicate Settled(vs: seq<NodeValues>, nodes: NodeTable) {
    forall v | v in vs ::
      if v.id in nodes then nodes[v.id].nodeName == v.name else NameTaken(nodes, v.name)
  }

  /** The rows that the targets hit are active. */
  ghost predicate TouchedActive(vs: seq<NodeValues>, nodes: NodeTable) {
    forall v | v in vs ::
      && (v.id in nodes ==> nodes[v.id].status == "active")
      && (NameTaken(nodes, v.name) ==> nodes[IdOfName(nodes, v.name)].status == "active")
  }

  ghost predicate AllActive(vs: seq<NodeValues>) {
    forall v | v in vs :: v.status == "active"
  }

  lemma TouchOne(t: Tables, vs: seq<NodeValues>, v: NodeValues)
    requires TouchedActive(vs, t.nodes) && v.status == "active" && UpsertNode(t, v).Ok?
    ensures TouchedActive(vs + [v], UpsertNode(t, v).value.nodes)
  {
    var after := UpsertNode(t, v).value.nodes;
    forall w | w in vs + [v]
      ensures w.id in after ==> after[w.id].status == "active"
      ensures NameTaken(after, w.name) ==> after[IdOfName(after, w.name)].status == "active"
    {
      if NameTaken(after, w.name) {
        var h := IdOfName(after, w.name);
        if h in t.nodes && after[h] == t.nodes[h] {
          assert NameTaken(t.nodes, w.name) && IdOfName(t.nodes, w.name) == h;
        }
      }
    }
  }

  lemma {:induction false} TouchAll(t: Tables, vs: seq<NodeValues>)
    requires AllActive(vs) && UpsertNodes(t, vs).Ok?
    ensures TouchedActive(vs, UpsertNodes(t, vs).value.nodes)
    decreases |vs|
  {
    if vs != [] {
      var init, last := vs[..|vs| - 1], vs[|vs| - 1];
      assert vs == init + [last];
      TouchAll(t, init);
      TouchOne(UpsertNodes(t, init).value, init, last);
    }
  }

  lemma SettledRow(t: Tables, nodes: NodeTable, vs: seq<NodeValues>, v: NodeValues)
    requires SameNodes(nodes, t.nodes) && Settled(vs, nodes) && TouchedActive(vs, nodes)
    requires v in vs && v.status == "active"
    ensures UpsertNode(t, v).Ok? && SameNodes(nodes, UpsertNode(t, v).value.nodes)
  {
    forall id | id in nodes
      ensures nodes[id].nodeName == t.nodes[id].nodeName && nodes[id].status == t.nodes[id].status
              && nodes[id].createdAt == t.nodes[id].createdAt
    {
      assert nodes[id].(modifiedAt := 0) == t.nodes[id].(modifiedAt := 0);
    }
    if v.id !in nodes {
      var h := IdOfName(nodes, v.name);
      assert t.nodes[h].nodeName == v.name;
      assert NameTaken(t.nodes, v.name) && IdOfName(t.nodes, v.name) == h;
    }
  }

  lemma {:induction false} SettledBatch(t: Tables, vs: seq<NodeValues>, n: nat)
    requires n <= |vs| && Settled(vs, t.nodes) && TouchedActive(vs, t.nodes) && AllActive(vs)
    ensures UpsertNodes(t, vs[..n]).Ok? && SameNodes(t.nodes, UpsertNodes(t, vs[..n]).value.nodes)
  {
    if n > 0 {
      SettledBatch(t, vs, n - 1);
      assert vs[..n][..n - 1] == vs[..n - 1];
      SettledRow(UpsertNodes(t, vs[..n - 1]).value, t.nodes, vs, vs[n - 1]);
    }
  }

  lemma SameNames(before: NodeTable, after: NodeTable, id: string, name: string)
    requires SameNodes(before, after)
    ensures CommitCondition.Has(after, id, name) <==> CommitCondition.Has(before, id, name)
  {
    if id in before {
      assert before[id].(modifiedAt := 0) == after[id].(modifiedAt := 0);
    }
  }

  /** When the batch leaves the names as they were, a target whose id is known had its own name before. */
  lemma KnownIdHadItsName(vs: seq<NodeValues>, k: nat, before: NodeTable, after: NodeTable)
    requires k < |vs| && CommitCondition.OneNamePerId(vs) && CommitCondition.Reached(vs, |vs|, before, after)
    requires SameNodes(before, after) && CommitCondition.KnownAt(vs, |vs|, before, vs[k].id)
    ensures CommitCondition.Has(before, vs[k].id, vs[k].name)
  {
    CommitCondition.LandedUnderItsName(vs, k, before);
    assert CommitCondition.Has(after, vs[k].id, vs[k].name);
    SameNames(before, after, vs[k].id, vs[k].name);
  }

  /** And the name of one whose id is unknown was held by another. */
  lemma UnknownIdFoundItsName(vs: seq<NodeValues>, k: nat, before: NodeTable, after: NodeTable)
    requires k < |vs| && CommitCondition.OneNamePerId(vs) && CommitCondition.Reached(vs, |vs|, before, after)
    requires SameNodes(before, after) && vs[k].id !in before
    ensures NameTaken(before, vs[k].name)
  {
    CommitCondition.KnownIffIn(vs, |vs|, before, after, vs[k].id);
    assert CommitCondition.Blocked(vs, k, before);
    if m :| 0 <= m < k && vs[m].name == vs[k].name && CommitCondition.KnownAt(vs, k, before, vs[m].id) {
      KnownStays(vs, k, before, vs[m].id);
      KnownIdHadItsName(vs, m, before, after);
    }
  }

  lemma KnownStays(vs: seq<NodeValues>, n: nat, before: NodeTable, id: string)
    requires n <= |vs| && CommitCondition.KnownAt(vs, n, before, id)
    ensures CommitCondition.KnownAt(vs, |vs|, before, id)
  {
  }

  /** When equal ids carry equal names, a batch that changes nothing but modified_at finds every target settled. */
  lemma UnchangedMeansSettled(t: Tables, vs: seq<NodeValues>)
    requires CommitCondition.OneNamePerId(vs)
    requires UpsertNodes(t, vs).Ok? && SameNodes(t.nodes, UpsertNodes(t, vs).value.nodes)
    ensures Settled(vs, t.nodes)
  {
    var after := UpsertNodes(t, vs).value.nodes;
    CommitCondition.NodeBatchIff(t, vs, |vs|);
    assert vs[..|vs|] == vs;
    forall v | v in vs
      ensures if v.id in t.nodes then t.nodes[v.id].nodeName == v.name else NameTaken(t.nodes, v.name)
    {
      var k :| 0 <= k < |vs| && vs[k] == v;
      if v.id in t.nodes {
        KnownIdHadItsName(vs, k, t.nodes, after);
      } else {
        UnknownIdFoundItsName(vs, k, t.nodes, after);
      }
    }
  }

  // ---------------------------------------------------------------- the repeated pass

  lemma LaterWellFormed(ch: Change, now: int)
    requires WellFormed(ch)
    ensures WellFormed(Later(ch, now))
  {
    forall r | r in LaterRows(ch.interfaces, now)
      ensures r.owner == ch.owner && r.subnetId == ch.subnet.id && r.createdAt == ch.subnet.createdAt
    {
      var i :| 0 <= i < |ch.interfaces| && r == ch.interfaces[i].(modifiedAt := now);
      assert ch.interfaces[i] in ch.interfaces;
    }
  }

  lemma {:induction false} LaterLastRow(rows: seq<InterfaceValues>, now: int)
    ensures PortsOf(LaterRows(rows, now)) == PortsOf(rows)
    ensures forall p | p in PortsOf(rows) ::
              LastRow(LaterRows(rows, now), p) == LastRow(rows, p).(modifiedAt := now)
    decreases |rows|
  {
    if rows != [] {
      var n := |rows| - 1;
      LaterLastRow(rows[..n], now);
      assert LaterRows(rows, now)[..n] == LaterRows(rows[..n], now);
      PortsSnoc(rows);
      PortsSnoc(LaterRows(rows, now));
    }
  }

  /** Merging the later rows into what the first pass left for other CRs gives the same interfaces. */
  lemma MergedAgain(t: Tables, t1: Tables, ch: Change, now: int)
    requires WellFormed(ch) && t1.interfaces == Merged(Foreign(t, ch.owner), ch.interfaces)
    ensures var m := Merged(Foreign(t1, ch.owner), LaterRows(ch.interfaces, now));
      m.Keys == t1.interfaces.Keys
      && forall p | p in m :: m[p].(modifiedAt := 0) == t1.interfaces[p].(modifiedAt := 0)
  {
    LaterLastRow(ch.interfaces, now);
    var base, base1 := Foreign(t, ch.owner), Foreign(t1, ch.owner);
    forall p | p in t1.interfaces
      ensures p in base1 <==> p in base
    {
      if p !in base {
        var r := LastRow(ch.interfaces, p);
        assert r in ch.interfaces;
      }
    }
    assert base1.Keys == base.Keys;
    var m := Merged(base1, LaterRows(ch.interfaces, now));
    assert m.Keys == base1.Keys + PortsOf(ch.interfaces);
    forall p | p in m
      ensures m[p].(modifiedAt := 0) == t1.interfaces[p].(modifiedAt := 0)
    {
      if p in base1 {
        assert base1[p] == t1.interfaces[p];
      }
    }
  }

  /** References known to the first pass are known to the second. */
  lemma KnownAgain(t: Tables, t': Tables, v: InterfaceValues)
    requires SameNodes(t.nodes, t'.nodes) && NodeKnown(t, v)
    ensures NodeKnown(t', v)
  {
    var h := IdOfName(t.nodes, v.nodeName);
    assert t.nodes[h].(modifiedAt := 0) == t'.nodes[h].(modifiedAt := 0);
    assert t'.nodes[h].nodeName == v.nodeName;
  }

  lemma LaterNodes(ch: Change, now: int)
    ensures CommitCondition.OneNamePerId(ch.nodes) ==> CommitCondition.OneNamePerId(Later(ch, now).nodes)
    ensures AllActive(ch.nodes) ==> AllActive(Later(ch, now).nodes)
    ensures forall nodes: NodeTable :: Settled(ch.nodes, nodes) <==> Settled(Later(ch, now).nodes, nodes)
    ensures forall nodes: NodeTable :: TouchedActive(ch.nodes, nodes) ==> TouchedActive(Later(ch, now).nodes, nodes)
  {
    var vs, ws := ch.nodes, Later(ch, now).nodes;
    forall v | v in ws
      ensures exists u | u in vs :: v == u.(modifiedAt := now)
    {
      var i :| 0 <= i < |ws| && ws[i] == v;
      assert vs[i] in vs;
    }
    forall u | u in vs
      ensures u.(modifiedAt := now) in ws
    {
      var i :| 0 <= i < |vs| && vs[i] == u;
      assert ws[i] == u.(modifiedAt := now);
    }
    forall nodes: NodeTable
      ensures Settled(vs, nodes) <==> Settled(ws, nodes)
    {
      if Settled(ws, nodes) {
        forall v | v in vs
          ensures if v.id in nodes then nodes[v.id].nodeName == v.name else NameTaken(nodes, v.name)
        {
          assert v.(modifiedAt := now) in ws;
        }
      }
    }
  }

  /** The repeated node batch on settled tables. */
  lemma SettledNodesAgain(t: Tables, ch: Change, now: int)
    requires WellFormed(ch) && AllActive(ch.nodes) && Apply(t, ch).Ok?
    requires Settled(ch.nodes, Apply(t, ch).value.nodes)
    ensures var t1, ch2 := Apply(t, ch).value, Later(ch, now);
      var nodes := UpsertNodes(Prepare(t1, ch2), ch2.nodes);
      && nodes.Ok? && SameNodes(t1.nodes, nodes.value.nodes)
      && nodes.value == Prepare(t1, ch2).(nodes := nodes.value.nodes)
  {
    ApplyInClosedForm(t, ch);
    TouchAll(Prepare(t, ch), ch.nodes);
    var t1, ch2 := Apply(t, ch).value, Later(ch, now);
    LaterNodes(ch, now);
    var p1 := Prepare(t1, ch2);
    SettledBatch(p1, ch2.nodes, |ch2.nodes|);
    assert ch2.nodes[..|ch2.nodes|] == ch2.nodes;
    NodeBatchTouchesNodesOnly(p1, ch2.nodes);
  }

  lemma SettledRepeatChangesNothing(t: Tables, ch: Change, now: int)
    requires WellFormed(ch) && AllActive(ch.nodes) && Apply(t, ch).Ok?
    requires Settled(ch.nodes, Apply(t, ch).value.nodes)
    ensures var t1 := Apply(t, ch).value;
            Apply(t1, Later(ch, now)).Ok? && SameTables(t1, Apply(t1, Later(ch, now)).value)
  {
    ApplyInClosedForm(t, ch);
    SettledNodesAgain(t, ch, now);
    LaterWellFormed(ch, now);
    var t1, ch2 := Apply(t, ch).value, Later(ch, now);
    var p2 := UpsertNodes(Prepare(t1, ch2), ch2.nodes).value;
    forall r | r in ch2.interfaces
      ensures NodeKnown(p2, r)
    {
      var i :| 0 <= i < |ch2.interfaces| && ch2.interfaces[i] == r;
      assert ch.interfaces[i] in ch.interfaces;
      KnownAgain(t1, p2, ch.interfaces[i]);
    }
    InterfaceBatch(p2, ch2.interfaces, ch.owner, ch.subnet.id, ch.subnet.createdAt);
    MergedAgain(t, t1, ch, now);
  }

  lemma UnchangedRepeatIsSettled(t: Tables, ch: Change, now: int)
    requires WellFormed(ch) && CommitCondition.OneNamePerId(ch.nodes) && Apply(t, ch).Ok?
    requires Apply(Apply(t, ch).value, Later(ch, now)).Ok?
    requires SameTables(Apply(t, ch).value, Apply(Apply(t, ch).value, Later(ch, now)).value)
    ensures Settled(ch.nodes, Apply(t, ch).value.nodes)
  {
    var t1, ch2 := Apply(t, ch).value, Later(ch, now);
    LaterNodes(ch, now);
    LaterWellFormed(ch, now);
    ApplyInClosedForm(t1, ch2);
    UnchangedMeansSettled(Prepare(t1, ch2), ch2.nodes);
  }

  /** Repeating a pass on its own result commits and changes nothing but modified_at, if and only if every
      target is settled in node_table after the first pass. A server may be listed twice, under one name. */
  lemma RepeatChangesNothingIffSettled(t: Tables, owner: Owner, subnet: Subnet, targets: seq<Server>,
                                       createdAt: int, modifiedAt: int, now: int)
    requires forall i, j | 0 <= i < |targets| && 0 <= j < |targets| && targets[i].id == targets[j].id ::
               targets[i].name == targets[j].name
    requires Apply(t, PassChange(owner, subnet, targets, createdAt, modifiedAt)).Ok?
    ensures var t1 := Apply(t, PassChange(owner, subnet, targets, createdAt, modifiedAt)).value;
            var again := Apply(t1, PassChange(owner, subnet, targets, createdAt, now));
            again.Ok? && SameTables(t1, again.value)
            <==> Settled(NodeRows(targets, createdAt, modifiedAt), t1.nodes)
  {
    var ch := PassChange(owner, subnet, targets, createdAt, modifiedAt);
    PassChangeWellFormed(owner, subnet, targets, createdAt, modifiedAt);
    LaterIsTheLaterPass(owner, subnet, targets, createdAt, modifiedAt, now);
    var t1 := Apply(t, ch).value;
    var again := Apply(t1, Later(ch, now));
    if Settled(ch.nodes, t1.nodes) {
      SettledRepeatChangesNothing(t, ch, now);
    }
    if again.Ok? && SameTables(t1, again.value) {
      UnchangedRepeatIsSettled(t, ch, now);
    }
  }

  /** Without renames a known node keeps its name, so every name that was held is held afterwards. */
  lemma HeldNameStaysHeld(vs: seq<NodeValues>, before: NodeTable, after: NodeTable, name: string)
    requires CommitCondition.NoRenames(vs, before) && CommitCondition.Reached(vs, |vs|, before, after)
    requires NameTaken(before, name)
    ensures NameTaken(after, name)
  {
    var h := IdOfName(before, name);
    if CommitCondition.HasRowBefore(vs, |vs|, h) {
      var m := CommitCondition.FindLastRow(vs, |vs|, h);
      assert vs[m] in vs;
      assert vs[m].name == name;
    }
    assert CommitCondition.NameNow(vs, |vs|, before, h, name);
    assert CommitCondition.Has(after, h, name);
  }

  lemma SettledWithoutRenames(vs: seq<NodeValues>, before: NodeTable, after: NodeTable)
    requires CommitCondition.NoRenames(vs, before) && CommitCondition.Reached(vs, |vs|, before, after)
    ensures Settled(vs, after)
  {
    assert forall k | 0 <= k < |vs| :: vs[k] in vs;
    forall v | v in vs
      ensures if v.id in after then after[v.id].nodeName == v.name else NameTaken(after, v.name)
    {
      var k :| 0 <= k < |vs| && vs[k] == v;
      CommitCondition.KnownIffIn(vs, |vs|, before, after, v.id);
      CommitCondition.KnownIffNotStale(vs, k, before);
      if v.id in after {
        CommitCondition.LandedUnderItsName(vs, k, before);
        assert CommitCondition.Has(after, v.id, v.name);
      } else {
        HeldNameStaysHeld(vs, before, after, v.name);
      }
    }
  }

  /** Without renames every committed pass is settled: repeating it changes nothing but modified_at. */
  lemma RepeatWithoutRenamesChangesNothing(t: Tables, owner: Owner, subnet: Subnet, targets: seq<Server>,
                                           createdAt: int, modifiedAt: int, now: int)
    requires CommitCondition.NoRenames(NodeRows(targets, createdAt, modifiedAt), t.nodes)
    requires Apply(t, PassChange(owner, subnet, targets, createdAt, modifiedAt)).Ok?
    ensures var t1 := Apply(t, PassChange(owner, subnet, targets, createdAt, modifiedAt)).value;
      var again := Apply(t1, PassChange(owner, subnet, targets, createdAt, now));
      again.Ok? && SameTables(t1, again.value)
  {
    var ch := PassChange(owner, subnet, targets, createdAt, modifiedAt);
    PassChangeWellFormed(owner, subnet, targets, createdAt, modifiedAt);
    CommitCondition.NothingRenamed(Prepare(t, ch), ch.nodes);
    CommitCondition.NodeBatchIff(Prepare(t, ch), ch.nodes, |ch.nodes|);
    assert ch.nodes[..|ch.nodes|] == ch.nodes;
    ApplyInClosedForm(t, ch);
    SettledWithoutRenames(ch.nodes, t.nodes, Apply(t, ch).value.nodes);
    SettledRepeatChangesNothing(t, ch, now);
    LaterIsTheLaterPass(owner, subnet, targets, createdAt, modifiedAt, now);
  }

  /** In particular, when ids and names agree with node_table beforehand, where the first pass commits too. */
  lemma AgreeingRepeatChangesNothing(t: Tables, owner: Owner, subnet: Subnet, targets: seq<Server>,
                                     createdAt: int, modifiedAt: int, now: int)
    requires Agree(NodeRows(targets, createdAt, modifiedAt), t.nodes)
    ensures var first := Apply(t, PassChange(owner, subnet, targets, createdAt, modifiedAt));
      && first.Ok?
      && var again := Apply(first.value, PassChange(owner, subnet, targets, createdAt, now));
      && again.Ok? && SameTables(first.value, again.value)
  {
    AgreeingPassCommits(t, owner, subnet, targets, createdAt, modifiedAt);
    RepeatWithoutRenamesChangesNothing(t, owner, subnet, targets, createdAt, modifiedAt, now);
  }

  /** Without agreement a repetition can change the tables: node "i0" is known as "a"; the servers are
      ("i1", "a") and ("i0", "b"). The first pass refreshes and then renames "i0"; the second inserts "i1". */
  lemma RepeatCanChangeNodes(owner: Owner, subnet: Subnet)
    ensures var t := Tables(map[], map["i0" := NodeRow("a", "active", 0, 0)], map[], map[]);
      var ch := PassChange(owner, subnet, [Server("i1", "a", []), Server("i0", "b", [])], 0, 0);
      && Apply(t, ch).Ok? && "i1" !in Apply(t, ch).value.nodes
      && Apply(Apply(t, ch).value, ch).Ok? && "i1" in Apply(Apply(t, ch).value, ch).value.nodes
  {
    var t := Tables(map[], map["i0" := NodeRow("a", "active", 0, 0)], map[], map[]);
    var s1, s2 := Server("i1", "a", []), Server("i0", "b", []);
    var ch := PassChange(owner, subnet, [s1, s2], 0, 0);
    var c := Context(owner, subnet.id, 0, 0);
    assert DesiredRows(c, [s1, s2]) == [] by {
      assert [s1, s2][..1] == [s1] && [s1][..0] == [];
      assert DesiredRows(c, [s1]) == [];
    }
    var v1, v2 := NodeValues("i1", "a", "active", 0, 0), NodeValues("i0", "b", "active", 0, 0);
    assert ch.nodes == [v1, v2];
    TwoNodes(Prepare(t, ch), v1, v2);
    assert "i0" in t.nodes && t.nodes["i0"].nodeName == "a";
    assert NameTaken(Prepare(t, ch).nodes, "a");
    var t1 := Apply(t, ch).value;
    assert t1.nodes["i0"].nodeName == "b" && t1.nodes.Keys == {"i0"};
    assert !NameTaken(t1.nodes, "a");
    TwoNodes(Prepare(t1, ch), v1, v2);
  }

  lemma TwoNodes(t: Tables, v: NodeValues, w: NodeValues)
    requires UpsertNode(t, v).Ok?
    ensures UpsertNodes(t, [v, w]) == UpsertNode(UpsertNode(t, v).value, w)
  {
    assert [v, w][..1] == [v] && [v][..0] == [];
    assert UpsertNodes(t, [v]) == UpsertNode(t, v);
  }
}
