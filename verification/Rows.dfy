/** From OpenStack's answers to rows: picking the target servers, the subnet and each address's port, and the
    rows of the two batch statements. */
module Rows {
  import opened Common
  import opened Tables

  /** A decoded JSON field. */
  datatype Json = Null | Str(s: string) | Other

  /** A Neutron port and the subnets of its fixed IPs. */
  datatype Port = Port(id: string, fixedIpSubnets: seq<string>)

  /** The answer to the port query for an address's MAC. */
  datatype PortQuery = QueryFailed | Ports(ports: seq<Port>)

  datatype Address = Address(ipType: Json, mac: Json, port: Json, query: PortQuery)

  /** A Nova server. `networks` lists the address lists in the order the map iteration visits them. */
  datatype Server = Server(id: string, name: string, networks: seq<seq<Address>>)

  datatype Subnet = Subnet(id: string, name: string, cidr: string, networkId: string)

  /** The answer to one network's subnet query, and to one attempt's network query. */
  datatype SubnetListing = ListingFailed | Listing(subnets: seq<Subnet>)
  datatype Attempt = AttemptFailed | Networks(listings: seq<SubnetListing>)

  /** What all rows of one pass share. */
  datatype Context = Context(owner: Owner, subnetId: string, createdAt: int, modifiedAt: int)

  function Concat<T>(groups: seq<seq<T>>): seq<T> {
    if groups == [] then [] else Concat(groups[..|groups| - 1]) + groups[|groups| - 1]
  }

  lemma ConcatStep<T>(groups: seq<seq<T>>, i: nat)
    requires i < |groups|
    ensures Concat(groups[..i + 1]) == Concat(groups[..i]) + groups[i]
  {
    assert groups[..i + 1][..i] == groups[..i];
  }

  lemma {:induction false} ConcatMember<T>(groups: seq<seq<T>>, x: T)
    ensures x in Concat(groups) <==> exists g | g in groups :: x in g
    decreases |groups|
  {
    if groups != [] {
      var init, last := groups[..|groups| - 1], groups[|groups| - 1];
      ConcatMember(init, x);
      assert groups == init + [last];
    }
  }

  // ---------------------------------------------------------------- target servers

  function Targets(servers: seq<Server>, names: seq<string>): seq<Server> {
    if servers == [] then []
    else
      var last := servers[|servers| - 1];
      Targets(servers[..|servers| - 1], names) + if last.name in names then [last] else []
  }

  lemma {:induction false} TargetsAreTheNamedServers(servers: seq<Server>, names: seq<string>, s: Server)
    ensures s in Targets(servers, names) <==> s in servers && s.name in names
    decreases |servers|
  {
    if servers != [] {
      TargetsAreTheNamedServers(servers[..|servers| - 1], names, s);
      assert servers == servers[..|servers| - 1] + [servers[|servers| - 1]];
    }
  }

  method SelectTargets(servers: seq<Server>, names: seq<string>) returns (targets: seq<Server>)
    ensures targets == Targets(servers, names)
  {
    var nameSet: set<string> := {};
    for i := 0 to |names|
      invariant nameSet == set n | n in names[..i]
    {
      assert names[..i + 1] == names[..i] + [names[i]];
      nameSet := nameSet + {names[i]};
    }
    assert names[..|names|] == names;
    targets := [];
    for i := 0 to |servers|
      invariant targets == Targets(servers[..i], names)
    {
      assert servers[..i + 1][..i] == servers[..i];
      if servers[i].name in nameSet {
        targets := targets + [servers[i]];
      }
    }
    assert servers[..|servers|] == servers;
  }

  // ---------------------------------------------------------------- the subnet

  function ListedSubnets(l: SubnetListing): seq<Subnet> {
    if l.ListingFailed? then [] else l.subnets
  }

  /** All subnets of one attempt that could be read, network by network. */
  function VisibleIn(listings: seq<SubnetListing>): seq<Subnet> {
    if listings == [] then []
    else VisibleIn(listings[..|listings| - 1]) + ListedSubnets(listings[|listings| - 1])
  }

  function VisibleInAttempt(a: Attempt): seq<Subnet> {
    if a.AttemptFailed? then [] else VisibleIn(a.listings)
  }

  /** Everything the attempts show, in the order it is shown. */
  function Visible(attempts: seq<Attempt>): seq<Subnet> {
    if attempts == [] then []
    else Visible(attempts[..|attempts| - 1]) + VisibleInAttempt(attempts[|attempts| - 1])
  }

  /** The first subnet with the wanted name. */
  function FirstNamed(visible: seq<Subnet>, name: string): (found: Option<Subnet>)
    ensures found.None? <==> forall s | s in visible :: s.name != name
    ensures found.Some? ==>
      exists k | 0 <= k < |visible| ::
        visible[k] == found.value && found.value.name == name && forall j | 0 <= j < k :: visible[j].name != name
  {
    if visible == [] then None
    else
      var last := visible[|visible| - 1];
      var before := FirstNamed(visible[..|visible| - 1], name);
      assert visible == visible[..|visible| - 1] + [last];
      if before.Some? then before else if last.name == name then Some(last) else None
  }

  lemma {:induction false} FirstNamedConcat(a: seq<Subnet>, b: seq<Subnet>, name: string)
    ensures FirstNamed(a + b, name) ==
      if FirstNamed(a, name).Some? then FirstNamed(a, name) else FirstNamed(b, name)
    decreases |b|
  {
    if b == [] {
      assert a + b == a;
    } else {
      FirstNamedConcat(a, b[..|b| - 1], name);
      assert (a + b)[..|a + b| - 1] == a + b[..|b| - 1];
    }
  }

  /** A hit in a prefix of the attempts is the answer for all of them. */
  lemma {:induction false} HitInPrefix(attempts: seq<Attempt>, n: nat, name: string)
    requires n <= |attempts| && FirstNamed(Visible(attempts[..n]), name).Some?
    ensures FirstNamed(Visible(attempts), name) == FirstNamed(Visible(attempts[..n]), name)
    decreases |attempts|
  {
    if n == |attempts| {
      assert attempts[..n] == attempts;
    } else {
      var init := attempts[..|attempts| - 1];
      assert init[..n] == attempts[..n];
      HitInPrefix(init, n, name);
      FirstNamedConcat(Visible(init), VisibleInAttempt(attempts[|attempts| - 1]), name);
    }
  }

  lemma {:induction false} HitInListingPrefix(listings: seq<SubnetListing>, n: nat, name: string)
    requires n <= |listings| && FirstNamed(VisibleIn(listings[..n]), name).Some?
    ensures FirstNamed(VisibleIn(listings), name) == FirstNamed(VisibleIn(listings[..n]), name)
    decreases |listings|
  {
    if n == |listings| {
      assert listings[..n] == listings;
    } else {
      var init := listings[..|listings| - 1];
      assert init[..n] == listings[..n];
      HitInListingPrefix(init, n, name);
      FirstNamedConcat(VisibleIn(init), ListedSubnets(listings[|listings| - 1]), name);
    }
  }

  lemma {:induction false} HitInSubnets(subnets: seq<Subnet>, n: nat, name: string)
    requires n <= |subnets| && FirstNamed(subnets[..n], name).Some?
    ensures FirstNamed(subnets, name) == FirstNamed(subnets[..n], name)
  {
    assert subnets == subnets[..n] + subnets[n..];
    FirstNamedConcat(subnets[..n], subnets[n..], name);
  }

  /** The loop over one network's subnets. */
  method SearchSubnets(subnets: seq<Subnet>, name: string) returns (found: Option<Subnet>)
    ensures found == FirstNamed(subnets, name)
  {
    for k := 0 to |subnets|
      invariant FirstNamed(subnets[..k], name) == None
    {
      assert subnets[..k + 1][..k] == subnets[..k];
      if subnets[k].name == name {
        HitInSubnets(subnets, k + 1, name);
        return Some(subnets[k]);
      }
    }
    assert subnets[..|subnets|] == subnets;
    found := None;
  }

  lemma SearchStep(listings: seq<SubnetListing>, i: nat, name: string)
    requires i < |listings| && FirstNamed(VisibleIn(listings[..i]), name) == None
    ensures FirstNamed(VisibleIn(listings[..i + 1]), name) == FirstNamed(ListedSubnets(listings[i]), name)
  {
    assert listings[..i + 1][..i] == listings[..i];
    FirstNamedConcat(VisibleIn(listings[..i]), ListedSubnets(listings[i]), name);
  }

  /** The loop over one attempt's networks; a network that cannot be read is skipped. */
  method SearchListings(listings: seq<SubnetListing>, name: string) returns (found: Option<Subnet>)
    ensures found == FirstNamed(VisibleIn(listings), name)
  {
    for i := 0 to |listings|
      invariant FirstNamed(VisibleIn(listings[..i]), name) == None
    {
      SearchStep(listings, i, name);
      if listings[i].Listing? {
        found := SearchSubnets(listings[i].subnets, name);
        if found.Some? {
          HitInListingPrefix(listings, i + 1, name);
          return;
        }
      }
    }
    assert listings[..|listings|] == listings;
    found := None;
  }

  /** Retries until an attempt shows a subnet of the wanted name; whatever fails is skipped. */
  method FindSubnet(attempts: seq<Attempt>, name: string) returns (found: Option<Subnet>)
    ensures found == FirstNamed(Visible(attempts), name)
  {
    for i := 0 to |attempts|
      invariant FirstNamed(Visible(attempts[..i]), name) == None
    {
      assert attempts[..i + 1][..i] == attempts[..i];
      assert Visible(attempts[..i + 1]) == Visible(attempts[..i]) + VisibleInAttempt(attempts[i]);
      FirstNamedConcat(Visible(attempts[..i]), VisibleInAttempt(attempts[i]), name);
      if attempts[i].Networks? {
        found := SearchListings(attempts[i].listings, name);
        if found.Some? {
          HitInPrefix(attempts, i + 1, name);
          return;
        }
      }
    }
    assert attempts[..|attempts|] == attempts;
    found := None;
  }

  // ---------------------------------------------------------------- ports

  /** The id of the first port with a fixed IP in the subnet, "" when there is none. */
  function PortInSubnet(ports: seq<Port>, subnetId: string): (id: string)
    ensures id != "" ==> exists k | 0 <= k < |ports| ::
      ports[k].id == id && subnetId in ports[k].fixedIpSubnets
      && forall j | 0 <= j < k :: subnetId !in ports[j].fixedIpSubnets
  {
    if ports == [] then ""
    else if subnetId in ports[0].fixedIpSubnets then ports[0].id
    else
      var id := PortInSubnet(ports[1..], subnetId);
      assert id != "" ==> exists k | 0 <= k < |ports| ::
        ports[k].id == id && subnetId in ports[k].fixedIpSubnets
        && forall j | 0 <= j < k :: subnetId !in ports[j].fixedIpSubnets by {
        if id != "" {
          var k :| 0 <= k < |ports[1..]| && ports[1..][k].id == id && subnetId in ports[1..][k].fixedIpSubnets
            && forall j | 0 <= j < k :: subnetId !in ports[1..][j].fixedIpSubnets;
          assert ports[k + 1].id == id;
          assert forall j | 0 < j < k + 1 :: ports[j] == ports[1..][j - 1];
        }
      }
      id
  }

  method MatchPort(ports: seq<Port>, subnetId: string) returns (id: string)
    ensures id == PortInSubnet(ports, subnetId)
  {
    for i := 0 to |ports|
      invariant PortInSubnet(ports, subnetId) == PortInSubnet(ports[i..], subnetId)
    {
      var ips := ports[i].fixedIpSubnets;
      for k := 0 to |ips|
        invariant subnetId !in ips[..k]
      {
        if ips[k] == subnetId {
          return ports[i].id;
        }
      }
      assert ips[..|ips|] == ips;
      assert ports[i..][1..] == ports[i + 1..];
    }
    id := "";
  }

  // ---------------------------------------------------------------- interface rows

  /** What one address contributes. A fixed address whose type is not a string panics on the type
      assertion; everything else that is incomplete is skipped. */
  datatype Contribution = Skipped | Panic | Contributes(portId: string, mac: string)

  /** The port of an address: the one it names, or the one found by its MAC in the target subnet. */
  function PortOf(a: Address, subnetId: string): string {
    var named := if a.port.Str? then a.port.s else "";
    if named != "" then named
    else if a.query.QueryFailed? then ""
    else PortInSubnet(a.query.ports, subnetId)
  }

  function Contribute(a: Address, subnetId: string): Contribution {
    if a.ipType.Null? || a.mac.Null? then Skipped
    else if !a.ipType.Str? then Panic
    else if a.ipType.s != "fixed" || !a.mac.Str? then Skipped
    else
      var portId := PortOf(a, subnetId);
      if portId == "" then Skipped else Contributes(portId, a.mac.s)
  }

  function MakeRow(c: Context, server: Server, portId: string, mac: string): InterfaceValues {
    InterfaceValues(portId, c.subnetId, mac, server.id, server.name, c.owner, "active", 0, c.createdAt, c.modifiedAt)
  }

  /** The row of an address, when it has one. */
  function AddressRow(c: Context, server: Server, a: Address): seq<InterfaceValues> {
    match Contribute(a, c.subnetId)
    case Contributes(portId, mac) => [MakeRow(c, server, portId, mac)]
    case _ => []
  }

  function AddressRows(c: Context, server: Server, addresses: seq<Address>): seq<InterfaceValues> {
    if addresses == [] then []
    else
      AddressRows(c, server, addresses[..|addresses| - 1])
      + AddressRow(c, server, addresses[|addresses| - 1])
  }

  /** The addresses of a server in visiting order. */
  function ServerRows(c: Context, server: Server): seq<InterfaceValues> {
    AddressRows(c, server, Concat(server.networks))
  }

  function DesiredRows(c: Context, targets: seq<Server>): seq<InterfaceValues> {
    if targets == [] then []
    else DesiredRows(c, targets[..|targets| - 1]) + ServerRows(c, targets[|targets| - 1])
  }

  predicate ServerPanics(server: Server, subnetId: string) {
    exists a | a in Concat(server.networks) :: Contribute(a, subnetId) == Panic
  }

  predicate BuildPanics(targets: seq<Server>, subnetId: string) {
    exists s | s in targets :: ServerPanics(s, subnetId)
  }

  function NodeRows(targets: seq<Server>, createdAt: int, modifiedAt: int): seq<NodeValues> {
    seq(|targets|, i requires 0 <= i < |targets| =>
      NodeValues(targets[i].id, targets[i].name, "active", createdAt, modifiedAt))
  }

  lemma {:induction false} AddressOfRow(c: Context, server: Server, addresses: seq<Address>, r: InterfaceValues)
    returns (a: Address)
    requires r in AddressRows(c, server, addresses)
    ensures a in addresses && r in AddressRow(c, server, a)
    decreases |addresses|
  {
    var init, last := addresses[..|addresses| - 1], addresses[|addresses| - 1];
    if r in AddressRows(c, server, init) {
      a := AddressOfRow(c, server, init, r);
    } else {
      a := last;
    }
  }

  lemma {:induction false} RowOfAddress(c: Context, server: Server, addresses: seq<Address>, a: Address,
                                        r: InterfaceValues)
    requires a in addresses && r in AddressRow(c, server, a)
    ensures r in AddressRows(c, server, addresses)
    decreases |addresses|
  {
    var init, last := addresses[..|addresses| - 1], addresses[|addresses| - 1];
    if a != last {
      assert addresses == init + [last];
      RowOfAddress(c, server, init, a, r);
    }
  }

  lemma AddressRowMember(c: Context, server: Server, a: Address, r: InterfaceValues)
    ensures r in AddressRow(c, server, a) <==>
      Contribute(a, c.subnetId) == Contributes(r.portId, r.mac) && r == MakeRow(c, server, r.portId, r.mac)
  {
  }

  lemma AddressRowsMember(c: Context, server: Server, addresses: seq<Address>, r: InterfaceValues)
    ensures r in AddressRows(c, server, addresses) <==>
      exists a | a in addresses :: Contribute(a, c.subnetId) == Contributes(r.portId, r.mac)
        && r == MakeRow(c, server, r.portId, r.mac)
  {
    if r in AddressRows(c, server, addresses) {
      var a := AddressOfRow(c, server, addresses, r);
      AddressRowMember(c, server, a, r);
    } else if a :| a in addresses && Contribute(a, c.subnetId) == Contributes(r.portId, r.mac)
                   && r == MakeRow(c, server, r.portId, r.mac) {
      AddressRowMember(c, server, a, r);
      RowOfAddress(c, server, addresses, a, r);
    }
  }

  lemma {:induction false} ServerOfRow(c: Context, targets: seq<Server>, r: InterfaceValues) returns (s: Server)
    requires r in DesiredRows(c, targets)
    ensures s in targets && r in ServerRows(c, s)
    decreases |targets|
  {
    var init, last := targets[..|targets| - 1], targets[|targets| - 1];
    if r in DesiredRows(c, init) {
      s := ServerOfRow(c, init, r);
    } else {
      s := last;
    }
  }

  lemma {:induction false} RowOfServer(c: Context, targets: seq<Server>, s: Server, r: InterfaceValues)
    requires s in targets && r in ServerRows(c, s)
    ensures r in DesiredRows(c, targets)
    decreases |targets|
  {
    var init, last := targets[..|targets| - 1], targets[|targets| - 1];
    if s != last {
      assert targets == init + [last];
      RowOfServer(c, init, s, r);
    }
  }

  /** What all rows of one pass share. */
  predicate RowOf(c: Context, s: Server, r: InterfaceValues) {
    && r.nodeId == s.id && r.nodeName == s.name && r.owner == c.owner && r.subnetId == c.subnetId
    && r.createdAt == c.createdAt && r.modifiedAt == c.modifiedAt
  }

  lemma ServerRowFields(c: Context, s: Server, r: InterfaceValues)
    requires r in ServerRows(c, s)
    ensures RowOf(c, s, r)
  {
    AddressRowsMember(c, s, Concat(s.networks), r);
  }

  /** Every desired row belongs to a target, with the pass's owner, subnet and timestamps. */
  lemma DesiredRowsMember(c: Context, targets: seq<Server>, r: InterfaceValues)
    ensures r in DesiredRows(c, targets) <==> exists s | s in targets :: r in ServerRows(c, s)
    ensures r in DesiredRows(c, targets) ==> exists s | s in targets :: RowOf(c, s, r)
  {
    if r in DesiredRows(c, targets) {
      var s := ServerOfRow(c, targets, r);
      ServerRowFields(c, s, r);
    } else if s :| s in targets && r in ServerRows(c, s) {
      RowOfServer(c, targets, s, r);
    }
  }

  // ---------------------------------------------------------------- which addresses have a row

  /** The port of an address: the non-empty one it names; without one, the non-empty id of the first port of an
      answered query that has a fixed IP in the subnet. */
  ghost predicate ResolvesTo(a: Address, subnetId: string, portId: string) {
    && portId != ""
    && if a.port.Str? && a.port.s != "" then portId == a.port.s
       else
         && a.query.Ports?
         && exists k | 0 <= k < |a.query.ports| ::
              && a.query.ports[k].id == portId && subnetId in a.query.ports[k].fixedIpSubnets
              && forall j | 0 <= j < k :: subnetId !in a.query.ports[j].fixedIpSubnets
  }

  /** The first port in the subnet decides, whatever its id is. */
  lemma {:induction false} FirstPortDecides(ports: seq<Port>, subnetId: string, k: nat)
    requires k < |ports| && subnetId in ports[k].fixedIpSubnets
    requires forall j | 0 <= j < k :: subnetId !in ports[j].fixedIpSubnets
    ensures PortInSubnet(ports, subnetId) == ports[k].id
    decreases k
  {
    if k > 0 {
      assert forall j | 0 <= j < k - 1 :: ports[1..][j] == ports[j + 1];
      FirstPortDecides(ports[1..], subnetId, k - 1);
    }
  }

  lemma PortOfIsResolved(a: Address, subnetId: string, portId: string)
    requires portId != ""
    ensures PortOf(a, subnetId) == portId <==> ResolvesTo(a, subnetId, portId)
  {
    if !(a.port.Str? && a.port.s != "") && ResolvesTo(a, subnetId, portId) {
      var k :| 0 <= k < |a.query.ports| && a.query.ports[k].id == portId
               && subnetId in a.query.ports[k].fixedIpSubnets
               && forall j | 0 <= j < k :: subnetId !in a.query.ports[j].fixedIpSubnets;
      FirstPortDecides(a.query.ports, subnetId, k);
    }
  }

  /** A fixed address with a string MAC and a port: exactly these contribute. */
  ghost predicate HasRow(a: Address, subnetId: string, portId: string, mac: string) {
    a.ipType == Str("fixed") && a.mac == Str(mac) && ResolvesTo(a, subnetId, portId)
  }

  lemma ContributesIff(a: Address, subnetId: string, portId: string, mac: string)
    ensures Contribute(a, subnetId) == Contributes(portId, mac) <==> HasRow(a, subnetId, portId, mac)
  {
    if portId != "" {
      PortOfIsResolved(a, subnetId, portId);
    }
  }

  /** An address panics exactly when its type is neither null nor a string and its MAC is not null. */
  lemma PanicsIff(a: Address, subnetId: string)
    ensures Contribute(a, subnetId) == Panic <==> a.ipType == Other && a.mac != Null
  {
  }

  /** The rows of a server: one for each port and MAC of a fixed address in one of its address lists, active and
      not yet applied, with the server's id and name and the pass's owner, subnet and times. */
  lemma ServerRowsIff(c: Context, s: Server, r: InterfaceValues)
    ensures r in ServerRows(c, s) <==>
      && (exists g, a | g in s.networks && a in g :: HasRow(a, c.subnetId, r.portId, r.mac))
      && r.status == "active" && r.netplanSuccess == 0 && RowOf(c, s, r)
  {
    AddressRowsMember(c, s, Concat(s.networks), r);
    if r in ServerRows(c, s) {
      var a :| a in Concat(s.networks) && Contribute(a, c.subnetId) == Contributes(r.portId, r.mac);
      ConcatMember(s.networks, a);
      ContributesIff(a, c.subnetId, r.portId, r.mac);
    }
    if g, a :| g in s.networks && a in g && HasRow(a, c.subnetId, r.portId, r.mac) {
      ConcatMember(s.networks, a);
      ContributesIff(a, c.subnetId, r.portId, r.mac);
    }
  }

  /** The rows of a pass. */
  lemma DesiredRowsIff(c: Context, targets: seq<Server>, r: InterfaceValues)
    ensures r in DesiredRows(c, targets) <==>
      && (exists s, g, a | s in targets && g in s.networks && a in g ::
            HasRow(a, c.subnetId, r.portId, r.mac) && RowOf(c, s, r))
      && r.status == "active" && r.netplanSuccess == 0
  {
    DesiredRowsMember(c, targets, r);
    if r in DesiredRows(c, targets) {
      var s :| s in targets && r in ServerRows(c, s);
      ServerRowsIff(c, s, r);
    }
    if s, g, a :| s in targets && g in s.networks && a in g
                  && HasRow(a, c.subnetId, r.portId, r.mac) && RowOf(c, s, r) {
      ServerRowsIff(c, s, r);
    }
  }

  /** Building the rows panics exactly when some target has an address of a type that is neither null nor a
      string, with a MAC that is not null. */
  lemma BuildPanicsIff(targets: seq<Server>, subnetId: string)
    ensures BuildPanics(targets, subnetId) <==>
      exists s, g, a | s in targets && g in s.networks && a in g :: a.ipType == Other && a.mac != Null
  {
    if BuildPanics(targets, subnetId) {
      var s :| s in targets && ServerPanics(s, subnetId);
      var a :| a in Concat(s.networks) && Contribute(a, subnetId) == Panic;
      ConcatMember(s.networks, a);
      PanicsIff(a, subnetId);
    }
    if s, g, a :| s in targets && g in s.networks && a in g && a.ipType == Other && a.mac != Null {
      ConcatMember(s.networks, a);
      PanicsIff(a, subnetId);
      assert ServerPanics(s, subnetId);
    }
  }

  // ---------------------------------------------------------------- in which order

  /** Targets keep the order and the repetitions of the list. */
  lemma {:induction false} TargetsInOrder(first: seq<Server>, second: seq<Server>, names: seq<string>)
    ensures Targets(first + second, names) == Targets(first, names) + Targets(second, names)
    decreases |second|
  {
    if second == [] {
      assert first + second == first;
    } else {
      var init := second[..|second| - 1];
      assert (first + second)[..|first + second| - 1] == first + init;
      TargetsInOrder(first, init, names);
    }
  }

  /** Rows come server by server. */
  lemma {:induction false} DesiredRowsInOrder(c: Context, first: seq<Server>, second: seq<Server>)
    ensures DesiredRows(c, first + second) == DesiredRows(c, first) + DesiredRows(c, second)
    decreases |second|
  {
    if second == [] {
      assert first + second == first;
    } else {
      var init := second[..|second| - 1];
      assert (first + second)[..|first + second| - 1] == first + init;
      DesiredRowsInOrder(c, first, init);
    }
  }

  lemma VisibleSnoc(init: seq<Attempt>, last: Attempt)
    ensures Visible(init + [last]) == Visible(init) + VisibleInAttempt(last)
  {
    assert (init + [last])[..|init|] == init;
  }

  /** What the attempts show, attempt by attempt. */
  lemma {:induction false} VisibleInOrder(first: seq<Attempt>, second: seq<Attempt>)
    ensures Visible(first + second) == Visible(first) + Visible(second)
    decreases |second|
  {
    if second == [] {
      assert first + second == first;
    } else {
      var init, last := second[..|second| - 1], second[|second| - 1];
      assert second == init + [last];
      Associative(first, init, [last]);
      VisibleSnoc(init, last);
      VisibleSnoc(first + init, last);
      VisibleInOrder(first, init);
      Associative(Visible(first), Visible(init), VisibleInAttempt(last));
    }
  }

  lemma {:induction false} VisibleInMember(listings: seq<SubnetListing>, s: Subnet)
    ensures s in VisibleIn(listings) <==> exists l | l in listings :: l.Listing? && s in l.subnets
    decreases |listings|
  {
    if listings != [] {
      var init, last := listings[..|listings| - 1], listings[|listings| - 1];
      assert listings == init + [last];
      VisibleInMember(init, s);
    }
  }

  /** A subnet is visible exactly when some attempt could list the networks and read one that has it. */
  lemma {:induction false} VisibleMember(attempts: seq<Attempt>, s: Subnet)
    ensures s in Visible(attempts) <==>
      exists a, l | a in attempts && a.Networks? && l in a.listings :: l.Listing? && s in l.subnets
    decreases |attempts|
  {
    if attempts != [] {
      var init, last := attempts[..|attempts| - 1], attempts[|attempts| - 1];
      assert attempts == init + [last];
      VisibleMember(init, s);
      if last.Networks? {
        VisibleInMember(last.listings, s);
      }
    }
  }
}
