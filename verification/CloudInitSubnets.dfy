// cloudinit.go: the version 1 part of SetIfaceAddresses, SetIfaceRoutes,
// SetIfaceDHCP and GetInterfaces, which spread routes over an interface's subnets.
module CloudInitSubnets {
  import opened Text
  import opened Net

  datatype SubnetRoute = SubnetRoute(destination: string, netmask: string, gateway: string, metric: int)

  datatype Subnet = Subnet(
    typ: string, address: string, netmask: string, gateway: string,
    dns: seq<string>, search: seq<string>, routes: seq<SubnetRoute>)

  // ------------------------------------------------------------------------ reading

  // An address with or without a prefix length, and a separate dotted netmask.
  function ParseAddress(address: string, netmask: string): Option<IPNetwork> {
    var n: Option<IPNetwork> :=
      if '/' in address then (match ParseCIDR(address) case Some(c) => Some(c) case None => None)
      else match ParseIP(address)
           case Some(ip) => Some(IPNetwork.IPNet(ip, CIDRMask(8 * |ip|, |ip|)))
           case None => None;
    if n.None? || netmask == "" then n
    else match ParseIP(netmask)
         case Some(m) => (if Is4(m) then Some(n.value.(mask := m)) else None)
         case None => None
  }

  function ParseRoute(r: SubnetRoute): Option<Route> {
    match (ParseAddress(r.destination, r.netmask), ParseIP(r.gateway))
    case (Some(dst), Some(gw)) => Some(Route(dst, Some(gw), r.metric))
    case _ => None
  }

  function ParseRoutes(routes: seq<SubnetRoute>): seq<Route> {
    if routes == [] then []
    else (match ParseRoute(routes[0]) case Some(r) => [r] case None => []) + ParseRoutes(routes[1..])
  }

  // The routes GetInterfaces reports, and SetIfaceAddresses starts from.
  function ReadRoutes(subnets: seq<Subnet>): seq<Route> {
    if subnets == [] then [] else ParseRoutes(subnets[0].routes) + ReadRoutes(subnets[1..])
  }

  // The network of a static subnet, which is what GetInterfaces reports as an address.
  function SubnetNetwork(s: Subnet): Option<IPNetwork> {
    if s.typ == "static" then ParseAddress(s.address, s.netmask) else None
  }

  function ReadAddresses(subnets: seq<Subnet>): seq<IPNetwork> {
    if subnets == [] then []
    else (match SubnetNetwork(subnets[0]) case Some(n) => [n] case None => []) + ReadAddresses(subnets[1..])
  }

  datatype Gateways = Gateways(v4: Option<IP>, v6: Option<IP>)

  // One subnet's gateway field overwrites the gateway of its family.
  function SubnetGateways(g: Gateways, s: Subnet): Gateways {
    if SubnetNetwork(s).None? then g
    else match ParseIP(s.gateway)
         case None => g
         case Some(ip) => if Is4(ip) then g.(v4 := Some(ip)) else g.(v6 := Some(ip))
  }

  function ReadGateways(g: Gateways, subnets: seq<Subnet>): Gateways
    decreases |subnets|
  {
    if subnets == [] then g else ReadGateways(SubnetGateways(g, subnets[0]), subnets[1..])
  }

  const DHCP4_TYPES: set<string> := {"dhcp", "dhcp4"}

  const DHCP6_TYPES: set<string> := {"dhcp6", "ipv6_dhcpv6-stateful", "ipv6_dhcpv6-stateless"}

  predicate HasType(subnets: seq<Subnet>, types: set<string>) {
    exists k: nat | k < |subnets| :: subnets[k].typ in types
  }

  lemma HasTypeStep(subnets: seq<Subnet>, i: nat, types: set<string>)
    requires i < |subnets|
    ensures HasType(subnets[..i + 1], types) <==> HasType(subnets[..i], types) || subnets[i].typ in types
  {
    var a, b := subnets[..i + 1], subnets[..i];
    assert a[i] == subnets[i] && forall k: nat | k < i :: a[k] == b[k];
  }

  lemma NoTypes()
    ensures !HasType([], DHCP4_TYPES) && !HasType([], DHCP6_TYPES)
  {}

  lemma NothingToRead()
    ensures ReadAddresses([]) == [] && ReadRoutes([]) == [] && forall g :: ReadGateways(g, []) == g
  {}

  lemma ReadStep(subnets: seq<Subnet>, i: nat, g: Gateways)
    requires i < |subnets|
    ensures var s, rest := subnets[i], subnets[i + 1..];
            && ReadRoutes(subnets[i..]) == ParseRoutes(s.routes) + ReadRoutes(rest)
            && ReadGateways(g, subnets[i..]) == ReadGateways(SubnetGateways(g, s), rest)
            && ReadAddresses(subnets[i..]) ==
               match SubnetNetwork(s) case Some(n) => [n] + ReadAddresses(rest) case None => ReadAddresses(rest)
  {
    hide SubnetNetwork, SubnetGateways, ParseRoutes;
    assert subnets[i..][0] == subnets[i] && subnets[i..][1..] == subnets[i + 1..];
    assert [] + ReadAddresses(subnets[i + 1..]) == ReadAddresses(subnets[i + 1..]);
  }

  // The loop of GetInterfaces over the subnets of one version 1 config.
  method GetInterface(subnets: seq<Subnet>)
    returns (addrs: seq<IPNetwork>, gateways: Gateways, dhcp4: bool, dhcp6: bool, routes: seq<Route>)
    ensures addrs == ReadAddresses(subnets) && gateways == ReadGateways(Gateways(None, None), subnets)
    ensures dhcp4 == HasType(subnets, DHCP4_TYPES) && dhcp6 == HasType(subnets, DHCP6_TYPES)
    ensures routes == ReadRoutes(subnets)
  {
    hide ParseRoute, ParseRoutes, ParseIP, SubnetNetwork, SubnetGateways, HasType, ReadAddresses, ReadGateways,
         ReadRoutes;
    assert subnets[..0] == [];
    NoTypes();
    NothingToRead();
    addrs, gateways, dhcp4, dhcp6, routes := [], Gateways(None, None), false, false, [];
    assert subnets[0..] == subnets;
    for i := 0 to |subnets|
      invariant addrs + ReadAddresses(subnets[i..]) == ReadAddresses(subnets)
      invariant ReadGateways(gateways, subnets[i..]) == ReadGateways(Gateways(None, None), subnets)
      invariant dhcp4 <==> HasType(subnets[..i], DHCP4_TYPES)
      invariant dhcp6 <==> HasType(subnets[..i], DHCP6_TYPES)
      invariant routes + ReadRoutes(subnets[i..]) == ReadRoutes(subnets)
    {
      var subnet := subnets[i];
      ReadStep(subnets, i, gateways);
      HasTypeStep(subnets, i, DHCP4_TYPES);
      HasTypeStep(subnets, i, DHCP6_TYPES);
      if subnet.typ in DHCP4_TYPES {
        dhcp4 := true;
      } else if subnet.typ in DHCP6_TYPES {
        dhcp6 := true;
      }
      var parsed := CollectRoutes(subnet.routes);
      routes := routes + parsed;
      gateways := SubnetGateways(gateways, subnet);
      var n := SubnetNetwork(subnet);
      if n.Some? { addrs := addrs + [n.value]; }
    }
    assert subnets[..|subnets|] == subnets && subnets[|subnets|..] == [];
  }

  // Strings in order of first occurrence, added to those already seen.
  function AddNew(seen: seq<string>, more: seq<string>): seq<string>
    decreases |more|
  {
    if more == [] then seen
    else AddNew(if more[0] in seen then seen else seen + [more[0]], more[1..])
  }

  function AllDNS(seen: seq<string>, subnets: seq<Subnet>): seq<string>
    decreases |subnets|
  {
    if subnets == [] then seen else AllDNS(AddNew(seen, subnets[0].dns), subnets[1..])
  }

  function AllSearch(seen: seq<string>, subnets: seq<Subnet>): seq<string>
    decreases |subnets|
  {
    if subnets == [] then seen else AllSearch(AddNew(seen, subnets[0].search), subnets[1..])
  }

  // --------------------------------------------------------------- SetIfaceAddresses

  function RouteText(r: Route): SubnetRoute {
    SubnetRoute(NetworkString(r.destination), "", GatewayText(r.gateway), r.metric)
  }

  function RouteTexts(routes: seq<Route>): seq<SubnetRoute> {
    if routes == [] then [] else [RouteText(routes[0])] + RouteTexts(routes[1..])
  }

  predicate Reaches(addr: IPNet, gateway: Option<IP>) { gateway.Some? && Contains(addr, gateway.value) }

  // The first address whose network contains the gateway, or the number of addresses.
  function Owner(addrs: seq<IPNet>, gateway: Option<IP>): (i: nat)
    ensures i <= |addrs|
  {
    if addrs == [] || Reaches(addrs[0], gateway) then 0 else 1 + Owner(addrs[1..], gateway)
  }

  lemma {:induction false} OwnerAt(addrs: seq<IPNet>, gateway: Option<IP>, i: nat)
    requires i < |addrs| && Owner(addrs, gateway) >= i
    ensures Owner(addrs, gateway) == i <==> Reaches(addrs[i], gateway)
  {
    hide Reaches;
    if i > 0 { OwnerAt(addrs[1..], gateway, i - 1); }
  }

  lemma {:induction false} OwnerIsFirst(addrs: seq<IPNet>, gateway: Option<IP>)
    ensures forall j: nat | j < Owner(addrs, gateway) :: !Reaches(addrs[j], gateway)
    ensures Owner(addrs, gateway) < |addrs| ==> Reaches(addrs[Owner(addrs, gateway)], gateway)
  {
    hide Reaches;
    forall j: nat | j < Owner(addrs, gateway) ensures !Reaches(addrs[j], gateway) {
      OwnerAt(addrs, gateway, j);
    }
    if Owner(addrs, gateway) < |addrs| { OwnerAt(addrs, gateway, Owner(addrs, gateway)); }
  }

  // The routes owned by address i, in order.
  function Owned(routes: seq<Route>, addrs: seq<IPNet>, i: nat): seq<Route> {
    if routes == [] then []
    else if Owner(addrs, routes[0].gateway) == i then [routes[0]] + Owned(routes[1..], addrs, i)
    else Owned(routes[1..], addrs, i)
  }

  // The routes that no address before i owns.
  function Unclaimed(routes: seq<Route>, addrs: seq<IPNet>, i: nat): seq<Route> {
    if routes == [] then []
    else if Owner(addrs, routes[0].gateway) >= i then [routes[0]] + Unclaimed(routes[1..], addrs, i)
    else Unclaimed(routes[1..], addrs, i)
  }

  function SubnetGateway(addr: IPNet, gateway4: Option<IP>, gateway6: Option<IP>): string {
    if Reaches(addr, gateway4) then IPText(gateway4.value)
    else if Reaches(addr, gateway6) then IPText(gateway6.value)
    else ""
  }

  // What subnet i is to carry: the routes it owns, and in the first subnet the
  // routes that nobody owns.
  function Share(routes: seq<Route>, addrs: seq<IPNet>, i: nat): seq<Route> {
    Owned(routes, addrs, i) + if i == 0 then Owned(routes, addrs, |addrs|) else []
  }

  function StaticSubnet(addr: IPNet, gateway4: Option<IP>, gateway6: Option<IP>, dns: seq<string>, search: seq<string>,
                        routes: seq<SubnetRoute>): Subnet {
    Subnet("static", NetworkText(addr), "", SubnetGateway(addr, gateway4, gateway6), dns, search, routes)
  }

  function NewSubnets(addrs: seq<IPNet>, gateway4: Option<IP>, gateway6: Option<IP>, dns: seq<string>,
                      search: seq<string>,
                      routes: seq<Route>): (s: seq<Subnet>)
    ensures |s| == |addrs|
  {
    seq(|addrs|, i requires 0 <= i < |addrs| =>
      StaticSubnet(addrs[i], gateway4, gateway6, dns, search, RouteTexts(Share(routes, addrs, i))))
  }

  function SetAddresses(subnets: seq<Subnet>, addrs: seq<IPNet>, gateway4: Option<IP>,
                        gateway6: Option<IP>): seq<Subnet> {
    NewSubnets(addrs, gateway4, gateway6, AllDNS([], subnets), AllSearch([], subnets), ReadRoutes(subnets))
  }

  lemma {:induction false} RouteTextsAppend(a: seq<Route>, b: seq<Route>)
    ensures RouteTexts(a + b) == RouteTexts(a) + RouteTexts(b)
  {
    hide RouteText;
    if a == [] {
      assert a + b == b;
    } else {
      assert (a + b)[1..] == a[1..] + b;
      RouteTextsAppend(a[1..], b);
    }
  }

  lemma {:induction false} OwnedAppend(a: seq<Route>, b: seq<Route>, addrs: seq<IPNet>, i: nat)
    ensures Owned(a + b, addrs, i) == Owned(a, addrs, i) + Owned(b, addrs, i)
    ensures Unclaimed(a + b, addrs, i) == Unclaimed(a, addrs, i) + Unclaimed(b, addrs, i)
  {
    hide Owner;
    if a == [] {
      assert a + b == b;
    } else {
      assert (a + b)[1..] == a[1..] + b;
      OwnedAppend(a[1..], b, addrs, i);
    }
  }

  lemma {:induction false} UnclaimedAll(routes: seq<Route>, addrs: seq<IPNet>)
    ensures Unclaimed(routes, addrs, 0) == routes
    ensures Unclaimed(routes, addrs, |addrs|) == Owned(routes, addrs, |addrs|)
  {
    hide Owner;
    if routes != [] { UnclaimedAll(routes[1..], addrs); }
  }

  lemma {:induction false} UnclaimedLaws(routes: seq<Route>, addrs: seq<IPNet>, i: nat)
    ensures Owned(Unclaimed(routes, addrs, i), addrs, i) == Owned(routes, addrs, i)
    ensures Unclaimed(Unclaimed(routes, addrs, i), addrs, i + 1) == Unclaimed(routes, addrs, i + 1)
    ensures AllAtLeast(Unclaimed(routes, addrs, i), addrs, i)
  {
    hide Owner;
    if routes != [] {
      UnclaimedLaws(routes[1..], addrs, i);
      var rest := Unclaimed(routes[1..], addrs, i);
      assert ([routes[0]] + rest)[1..] == rest;
    }
  }

  // Parse the routes of all subnets and gather the resolvers, each once.
  method Collect(subnets: seq<Subnet>) returns (routes: seq<Route>, dns: seq<string>, domains: seq<string>)
    ensures routes == ReadRoutes(subnets) && dns == AllDNS([], subnets) && domains == AllSearch([], subnets)
  {
    hide ParseRoute;
    routes, dns, domains := [], [], [];
    assert subnets[0..] == subnets;
    for i := 0 to |subnets|
      invariant routes + ReadRoutes(subnets[i..]) == ReadRoutes(subnets)
      invariant AllDNS(dns, subnets[i..]) == AllDNS([], subnets)
      invariant AllSearch(domains, subnets[i..]) == AllSearch([], subnets)
    {
      var subnet := subnets[i];
      assert subnets[i..][0] == subnet && subnets[i..][1..] == subnets[i + 1..];
      var parsed := CollectRoutes(subnet.routes);
      routes := routes + parsed;
      dns := AddMissing(dns, subnet.dns);
      domains := AddMissing(domains, subnet.search);
    }
  }

  lemma ParseRoutesStep(texts: seq<SubnetRoute>, i: nat)
    requires i < |texts|
    ensures var r, rest := ParseRoute(texts[i]), ParseRoutes(texts[i + 1..]);
            ParseRoutes(texts[i..]) == if r.Some? then [r.value] + rest else rest
  {
    hide ParseRoute;
    assert texts[i..][0] == texts[i] && texts[i..][1..] == texts[i + 1..];
    assert [] + ParseRoutes(texts[i + 1..]) == ParseRoutes(texts[i + 1..]);
  }

  method CollectRoutes(texts: seq<SubnetRoute>) returns (routes: seq<Route>)
    ensures routes == ParseRoutes(texts)
  {
    hide ParseRoute;
    routes := [];
    assert texts[0..] == texts;
    for i := 0 to |texts|
      invariant routes + ParseRoutes(texts[i..]) == ParseRoutes(texts)
    {
      ParseRoutesStep(texts, i);
      hide ParseRoutes;
      var r := ParseRoute(texts[i]);
      if r.None? { continue; }
      assert routes + ([r.value] + ParseRoutes(texts[i + 1..])) == (routes + [r.value]) + ParseRoutes(texts[i + 1..]);
      routes := routes + [r.value];
    }
  }

  method AddMissing(seen: seq<string>, more: seq<string>) returns (all: seq<string>)
    ensures all == AddNew(seen, more)
  {
    all := seen;
    assert more[0..] == more;
    for i := 0 to |more|
      invariant AddNew(all, more[i..]) == AddNew(seen, more)
    {
      assert more[i..][0] == more[i] && more[i..][1..] == more[i + 1..];
      var found := false;
      for j := 0 to |all|
        invariant found <==> exists k :: 0 <= k < j && all[k] == more[i]
      {
        if all[j] == more[i] {
          found := true;
          break;
        }
      }
      if !found { all := all + [more[i]]; }
    }
  }

  // The delete-and-rescan loop: take out the routes this address reaches.
  method TakeRoutes(addr: IPNet, i: nat, routes0: seq<Route>, ghost addrs: seq<IPNet>)
    returns (taken: seq<SubnetRoute>, routes: seq<Route>)
    requires i < |addrs| && addrs[i] == addr
    requires AllAtLeast(routes0, addrs, i)
    ensures taken == RouteTexts(Owned(routes0, addrs, i)) && routes == Unclaimed(routes0, addrs, i + 1)
  {
    hide Reaches, RouteText, Owner;
    taken, routes := [], routes0;
    while true
      invariant AllAtLeast(routes, addrs, i)
      invariant taken + RouteTexts(Owned(routes, addrs, i)) == RouteTexts(Owned(routes0, addrs, i))
      invariant Unclaimed(routes, addrs, i + 1) == Unclaimed(routes0, addrs, i + 1)
      decreases |routes|
    {
      var r := FirstReached(addr, i, routes, addrs);
      if r == |routes| {
        NoneOwned(routes, addrs, i);
        break;
      }
      TakeOne(routes, addrs, i, r);
      taken := taken + [RouteText(routes[r])];
      routes := routes[..r] + routes[r + 1..];
    }
  }

  // One scan: the first route the address reaches.
  method FirstReached(addr: IPNet, i: nat, routes: seq<Route>, ghost addrs: seq<IPNet>) returns (r: nat)
    requires i < |addrs| && addrs[i] == addr && AllAtLeast(routes, addrs, i)
    ensures r <= |routes| && AllAtLeast(routes[..r], addrs, i + 1)
    ensures r < |routes| ==> Owner(addrs, routes[r].gateway) == i
  {
    hide Reaches, Owner;
    r := 0;
    while r < |routes|
      invariant r <= |routes| && AllAtLeast(routes[..r], addrs, i + 1)
    {
      OwnerAt(addrs, routes[r].gateway, i);
      if Reaches(addr, routes[r].gateway) { break; }
      assert routes[..r + 1] == routes[..r] + [routes[r]];
      r := r + 1;
    }
  }

  predicate AllAtLeast(routes: seq<Route>, addrs: seq<IPNet>, i: nat) {
    forall k: nat | k < |routes| :: Owner(addrs, routes[k].gateway) >= i
  }

  lemma {:induction false} NoneOwned(routes: seq<Route>, addrs: seq<IPNet>, i: nat)
    requires AllAtLeast(routes, addrs, i + 1)
    ensures Owned(routes, addrs, i) == [] && Unclaimed(routes, addrs, i + 1) == routes
  {
    hide Owner;
    if routes != [] { NoneOwned(routes[1..], addrs, i); }
  }

  lemma TakeOne(routes: seq<Route>, addrs: seq<IPNet>, i: nat, r: nat)
    requires r < |routes| && AllAtLeast(routes, addrs, i)
    requires Owner(addrs, routes[r].gateway) == i && AllAtLeast(routes[..r], addrs, i + 1)
    ensures var left := routes[..r] + routes[r + 1..];
            && AllAtLeast(left, addrs, i)
            && RouteTexts(Owned(routes, addrs, i)) == [RouteText(routes[r])] + RouteTexts(Owned(left, addrs, i))
            && Unclaimed(routes, addrs, i + 1) == Unclaimed(left, addrs, i + 1)
  {
    hide RouteText, Owner;
    var a, b, x := routes[..r], routes[r + 1..], routes[r];
    NoneOwned(a, addrs, i);
    assert routes == a + ([x] + b);
    OwnedAppend(a, [x] + b, addrs, i);
    OwnedAppend(a, b, addrs, i);
    OwnedAppend(a, [x] + b, addrs, i + 1);
    OwnedAppend(a, b, addrs, i + 1);
    assert ([x] + b)[1..] == b;
    assert Owned(routes, addrs, i) == [x] + Owned(b, addrs, i);
    assert Owned(a + b, addrs, i) == Owned(b, addrs, i);
    assert ([x] + Owned(b, addrs, i))[1..] == Owned(b, addrs, i);
  }

  // Set addresses on one version 1 config.
  method SetIfaceAddresses(subnets: seq<Subnet>, addrs: seq<IPNet>, gateway4: Option<IP>, gateway6: Option<IP>)
    returns (config: seq<Subnet>)
    ensures config == SetAddresses(subnets, addrs, gateway4, gateway6)
  {
    hide Reaches, RouteText, Owner, ParseRoute, SubnetGateway, Owned, Unclaimed, NetworkText, NewSubnets;
    var routes, dns, domains := Collect(subnets);
    ghost var all := routes;
    UnclaimedAll(all, addrs);
    config := [];
    for i := 0 to |addrs|
      invariant |config| == i && routes == Unclaimed(all, addrs, i)
      invariant forall k :: 0 <= k < i ==>
        config[k] == StaticSubnet(addrs[k], gateway4, gateway6, dns, domains, RouteTexts(Owned(all, addrs, k)))
    {
      var addr := addrs[i];
      var taken;
      UnclaimedLaws(all, addrs, i);
      taken, routes := TakeRoutes(addr, i, routes, addrs);
      var subnet := StaticSubnet(addr, gateway4, gateway6, dns, domains, taken);
      config := config + [subnet];
    }
    if |routes| != 0 && |config| != 0 {
      var strays := TextsOf(routes);
      config := config[0 := config[0].(routes := config[0].routes + strays)];
    }
    WithStrays(config, addrs, gateway4, gateway6, dns, domains, all);
  }

  lemma WithStrays(config: seq<Subnet>, addrs: seq<IPNet>, gateway4: Option<IP>, gateway6: Option<IP>, dns: seq<string>,
                   search: seq<string>, all: seq<Route>)
    requires |config| == |addrs|
    requires forall k :: 0 <= k < |addrs| ==>
      config[k] == StaticSubnet(addrs[k], gateway4, gateway6, dns, search,
        RouteTexts(Owned(all, addrs, k)) + if k == 0 then RouteTexts(Owned(all, addrs, |addrs|)) else [])
    ensures config == NewSubnets(addrs, gateway4, gateway6, dns, search, all)
  {
    hide StaticSubnet, RouteTexts, Owned, Share;
    Shares(all, addrs);
    forall k | 0 <= k < |addrs| ensures config[k] == NewSubnets(addrs, gateway4, gateway6, dns, search, all)[k] {
      assert k > 0 ==> RouteTexts(Owned(all, addrs, k)) + [] == RouteTexts(Share(all, addrs, k));
    }
  }

  lemma Shares(all: seq<Route>, addrs: seq<IPNet>)
    ensures forall i :: 0 < i < |addrs| ==> RouteTexts(Share(all, addrs, i)) == RouteTexts(Owned(all, addrs, i))
    ensures RouteTexts(Share(all, addrs, 0)) == RouteTexts(Owned(all, addrs, 0)) + RouteTexts(Owned(all, addrs, |addrs|))
  {
    hide RouteText, Owner;
    RouteTextsAppend(Owned(all, addrs, 0), Owned(all, addrs, |addrs|));
    forall i | 0 < i < |addrs| ensures Share(all, addrs, i) == Owned(all, addrs, i) {}
  }

  method TextsOf(routes: seq<Route>) returns (texts: seq<SubnetRoute>)
    ensures texts == RouteTexts(routes)
  {
    hide RouteText;
    texts := [];
    assert routes[0..] == routes;
    for i := 0 to |routes|
      invariant texts + RouteTexts(routes[i..]) == RouteTexts(routes)
    {
      assert routes[i..][0] == routes[i] && routes[i..][1..] == routes[i + 1..];
      texts := texts + [RouteText(routes[i])];
    }
  }
}
