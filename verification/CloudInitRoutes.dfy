// cloudinit.go: SetIfaceRoutes and SetIfaceDHCP on one version 1 config.
// SetIfaceRoutes ranges over a Go map, whose order is different on every pass.
module CloudInitRoutes {
  import opened Text
  import opened Net
  import opened CloudInitSubnets
  import opened CloudInitRoundTrip

  // net.IPNet.Contains with a gateway that may be nil: both sides then have length
  // zero when the network's own mask does not fit it.
  predicate MapReaches(n: IPNetwork, gateway: Option<IP>) {
    match gateway case Some(ip) => RawContains(n, ip) case None => !WellFormed(n)
  }

  // Subnet s is a static one that contains the gateway.
  predicate MayHold(config: seq<Subnet>, gateway: Option<IP>, s: nat) {
    s < |config| && SubnetNetwork(config[s]).Some? && MapReaches(SubnetNetwork(config[s]).value, gateway)
  }

  // The subnets a route may end up in.
  predicate Allowed(config: seq<Subnet>, gateway: Option<IP>, s: nat) {
    MayHold(config, gateway, s) || (s == 0 && forall k: nat | k < |config| :: !MayHold(config, gateway, k))
  }

  predicate Choices(config: seq<Subnet>, routes: seq<Route>, choice: seq<nat>) {
    |choice| == |routes| && forall r: nat | r < |routes| :: Allowed(config, routes[r].gateway, choice[r])
  }

  // The routes sent to subnet s, in the order asked for.
  function Placed(routes: seq<Route>, choice: seq<nat>, s: nat): seq<Route>
    requires |choice| == |routes|
  {
    if routes == [] then []
    else
      var n := |routes| - 1;
      var before := Placed(routes[..n], choice[..n], s);
      if choice[n] == s then before + [routes[n]] else before
  }

  function WithRoutes(s: Subnet, routes: seq<Route>): Subnet { s.(routes := RouteTexts(routes)) }

  // The config once every route has gone where the choice says.
  function Assigned(config: seq<Subnet>, routes: seq<Route>, choice: seq<nat>): (after: seq<Subnet>)
    requires |choice| == |routes|
    ensures |after| == |config|
  {
    seq(|config|, s requires 0 <= s < |config| => WithRoutes(config[s], Placed(routes, choice, s)))
  }

  method SubnetMap(config: seq<Subnet>) returns (subnetMap: map<nat, IPNetwork>)
    ensures forall s: nat :: s in subnetMap <==> s < |config| && SubnetNetwork(config[s]).Some?
    ensures forall s: nat | s in subnetMap :: Some(subnetMap[s]) == SubnetNetwork(config[s])
  {
    hide SubnetNetwork;
    subnetMap := map[];
    for i := 0 to |config|
      invariant forall s: nat :: s in subnetMap <==> s < i && SubnetNetwork(config[s]).Some?
      invariant forall s: nat | s in subnetMap :: Some(subnetMap[s]) == SubnetNetwork(config[s])
    {
      var n := SubnetNetwork(config[i]);
      if n.None? { continue; }
      subnetMap := subnetMap[i := n.value];
    }
  }

  // Range over the map in any order, up to the first network that contains the gateway.
  method FindSubnet(subnetMap: map<nat, IPNetwork>, gateway: Option<IP>) returns (idx: nat)
    ensures (idx in subnetMap && MapReaches(subnetMap[idx], gateway))
            || (idx == 0 && forall s: nat | s in subnetMap :: !MapReaches(subnetMap[s], gateway))
  {
    hide MapReaches;
    idx := 0;
    var left := subnetMap.Keys;
    while left != {}
      invariant idx == 0 && left <= subnetMap.Keys
      invariant forall s: nat | s in subnetMap && s !in left :: !MapReaches(subnetMap[s], gateway)
      decreases left
    {
      var s :| s in left;
      left := left - {s};
      if MapReaches(subnetMap[s], gateway) { return s; }
    }
  }

  // None is the error "no subnets on interface".
  method SetIfaceRoutes(config: seq<Subnet>, routes: seq<Route>)
    returns (after: Option<seq<Subnet>>, ghost choice: seq<nat>)
    ensures after.None? <==> config == []
    ensures after.Some? ==> Choices(config, routes, choice) && after.value == Assigned(config, routes, choice)
  {
    hide SubnetNetwork, MapReaches, RouteText;
    if |config| == 0 { return None, []; }
    var subnetMap := SubnetMap(config);
    var subnets := seq(|config|, s requires 0 <= s < |config| => config[s].(routes := []));
    choice := [];
    for r := 0 to |routes|
      invariant |choice| == r && |subnets| == |config| && Choices(config, routes[..r], choice)
      invariant subnets == Assigned(config, routes[..r], choice)
    {
      var route := routes[r];
      var idx := FindSubnet(subnetMap, route.gateway);
      assert Allowed(config, route.gateway, idx);
      assert 0 <= idx < |subnets|;
      ghost var was := choice;
      choice := choice + [idx];
      AssignOne(config, routes[..r], was, route, idx);
      assert routes[..r + 1] == routes[..r] + [route];
      subnets := subnets[idx := subnets[idx].(routes := subnets[idx].routes + [RouteText(route)])];
    }
    assert routes[..|routes|] == routes;
    return Some(subnets), choice;
  }

  lemma AssignOne(config: seq<Subnet>, routes: seq<Route>, choice: seq<nat>, route: Route, idx: nat)
    requires |choice| == |routes| && idx < |config|
    ensures var before := Assigned(config, routes, choice);
            Assigned(config, routes + [route], choice + [idx]) ==
            before[idx := before[idx].(routes := before[idx].routes + [RouteText(route)])]
  {
    hide RouteText;
    var all, allChoice := routes + [route], choice + [idx];
    assert all[..|routes|] == routes && allChoice[..|routes|] == choice;
    RouteTextsAppend(Placed(routes, choice, idx), [route]);
    assert RouteTexts([route]) == [RouteText(route)];
  }

  // -------------------------------------------------- under every iteration order

  // Each route is in a static subnet that contains its gateway whenever there is
  // one, and in the first subnet otherwise.
  lemma {:induction false} PlacedWhereAllowed(config: seq<Subnet>, routes: seq<Route>, choice: seq<nat>, s: nat)
    requires Choices(config, routes, choice)
    ensures forall k: nat | k < |Placed(routes, choice, s)| :: Allowed(config, Placed(routes, choice, s)[k].gateway, s)
  {
    hide Allowed;
    if routes != [] {
      var n := |routes| - 1;
      PlacedWhereAllowed(config, routes[..n], choice[..n], s);
    }
  }

  // The routes of subnets s and up.
  function AllPlaced(routes: seq<Route>, choice: seq<nat>, s: nat, n: nat): seq<Route>
    requires |choice| == |routes| && s <= n
    decreases n - s
  {
    if s == n then [] else Placed(routes, choice, s) + AllPlaced(routes, choice, s + 1, n)
  }

  lemma {:induction false} PlaceOneMore(routes: seq<Route>, choice: seq<nat>, s: nat, n: nat)
    requires |choice| == |routes| > 0 && s <= n
    ensures var k := |routes| - 1;
            multiset(AllPlaced(routes, choice, s, n)) ==
            multiset(AllPlaced(routes[..k], choice[..k], s, n)) +
            if s <= choice[k] < n then multiset{routes[k]} else multiset{}
    decreases n - s
  {
    if s < n { PlaceOneMore(routes, choice, s + 1, n); }
  }

  lemma {:induction false} PlacedPermutes(routes: seq<Route>, choice: seq<nat>, n: nat)
    requires |choice| == |routes| && forall r: nat | r < |choice| :: choice[r] < n
    ensures multiset(AllPlaced(routes, choice, 0, n)) == multiset(routes)
  {
    var k := |routes| - 1;
    if routes == [] {
      NonePlaced(0, n);
    } else {
      PlaceOneMore(routes, choice, 0, n);
      PlacedPermutes(routes[..k], choice[..k], n);
      assert routes == routes[..k] + [routes[k]];
    }
  }

  lemma {:induction false} NonePlaced(s: nat, n: nat)
    requires s <= n
    ensures AllPlaced([], [], s, n) == []
    decreases n - s
  {
    if s < n { NonePlaced(s + 1, n); }
  }

  lemma ChosenInRange(config: seq<Subnet>, routes: seq<Route>, choice: seq<nat>)
    requires config != [] && Choices(config, routes, choice)
    ensures forall r: nat | r < |choice| :: choice[r] < |config|
  {
    forall r: nat | r < |choice| ensures choice[r] < |config| {
      assert Allowed(config, routes[r].gateway, choice[r]);
    }
  }

  lemma {:induction false} PlacedMasks(routes: seq<Route>, choice: seq<nat>, s: nat)
    requires |choice| == |routes| && CanonicalMasks(routes)
    ensures CanonicalMasks(Placed(routes, choice, s))
  {
    hide CanonicalMask;
    if routes != [] { PlacedMasks(routes[..|routes| - 1], choice[..|routes| - 1], s); }
  }

  lemma {:induction false} ReadPlaced(config: seq<Subnet>, routes: seq<Route>, choice: seq<nat>, s: nat)
    requires |choice| == |routes| && CanonicalMasks(routes) && s <= |config|
    ensures ReadRoutes(Assigned(config, routes, choice)[s..]) == ReadableOnes(AllPlaced(routes, choice, s, |config|))
    decreases |config| - s
  {
    hide Placed, CanonicalMasks, ParseRoutes, RouteTexts;
    if s < |config| {
      var after := Assigned(config, routes, choice);
      ReadPlaced(config, routes, choice, s + 1);
      assert after[s..][0] == after[s] && after[s..][1..] == after[s + 1..];
      PlacedMasks(routes, choice, s);
      RoutesReadBack(Placed(routes, choice, s));
      ReadableAppend(Placed(routes, choice, s), AllPlaced(routes, choice, s + 1, |config|));
    }
  }

  // Whatever order the map was ranged in, the routes over all subnets are the
  // requested ones, and reading the config back yields those that print.
  lemma RoutesReadBackPermuted(config: seq<Subnet>, routes: seq<Route>, choice: seq<nat>)
    requires config != [] && Choices(config, routes, choice) && CanonicalMasks(routes)
    ensures multiset(AllPlaced(routes, choice, 0, |config|)) == multiset(routes)
    ensures multiset(ReadRoutes(Assigned(config, routes, choice))) == multiset(ReadableOnes(routes))
  {
    hide Allowed, CanonicalMasks, ReadRoutes, ReadableOnes, AllPlaced, Readable;
    ChosenInRange(config, routes, choice);
    PlacedPermutes(routes, choice, |config|);
    ReadPlaced(config, routes, choice, 0);
    var after := Assigned(config, routes, choice);
    assert after[0..] == after;
    forall x ensures multiset(ReadRoutes(after))[x] == multiset(ReadableOnes(routes))[x] {
      ReadableCounts(routes, x);
      ReadableCounts(AllPlaced(routes, choice, 0, |config|), x);
    }
  }

  // Everything else about the interface reads as before.
  lemma {:induction false} OnlyRoutesChange(before: seq<Subnet>, after: seq<Subnet>, g: Gateways)
    requires |before| == |after| && forall k: nat | k < |before| :: after[k] == before[k].(routes := after[k].routes)
    ensures ReadAddresses(after) == ReadAddresses(before) && ReadGateways(g, after) == ReadGateways(g, before)
    ensures AllDNS([], after) == AllDNS([], before) && AllSearch([], after) == AllSearch([], before)
  {
    hide ParseAddress, ParseIP;
    if before != [] { OnlyRoutesChange(before[1..], after[1..], SubnetGateways(g, before[0])); }
    SameDNS([], before, after);
  }

  lemma {:induction false} SameDNS(seen: seq<string>, before: seq<Subnet>, after: seq<Subnet>)
    requires |before| == |after| && forall k: nat | k < |before| :: after[k] == before[k].(routes := after[k].routes)
    ensures AllDNS(seen, after) == AllDNS(seen, before) && AllSearch(seen, after) == AllSearch(seen, before)
    decreases |before|
  {
    hide AddNew;
    if before != [] {
      SameDNS(AddNew(seen, before[0].dns), before[1..], after[1..]);
      SameDNS(AddNew(seen, before[0].search), before[1..], after[1..]);
    }
  }

  // --------------------------------------------------------------------- DHCP

  predicate IsDHCP(s: Subnet) { s.typ in DHCP4_TYPES + DHCP6_TYPES }

  function NotDHCP(subnets: seq<Subnet>): seq<Subnet> {
    if subnets == [] then []
    else if IsDHCP(subnets[0]) then NotDHCP(subnets[1..])
    else [subnets[0]] + NotDHCP(subnets[1..])
  }

  function Client(typ: string): Subnet { Subnet(typ, "", "", "", [], [], []) }

  function Clients(dhcp4: bool, dhcp6: bool): seq<Subnet> {
    if dhcp4 && dhcp6 then [Client("dhcp4"), Client("dhcp6")]
    else if dhcp4 then [Client("dhcp4")]
    else if dhcp6 then [Client("dhcp6")]
    else []
  }

  // Rebuild the subnets: the clients asked for, then the old subnets that are none.
  method SetIfaceDHCP(config: seq<Subnet>, dhcp4: bool, dhcp6: bool) returns (subnets: seq<Subnet>)
    ensures subnets == Clients(dhcp4, dhcp6) + NotDHCP(config)
  {
    hide IsDHCP;
    subnets := [];
    if dhcp4 { subnets := subnets + [Client("dhcp4")]; }
    if dhcp6 { subnets := subnets + [Client("dhcp6")]; }
    assert subnets == Clients(dhcp4, dhcp6);
    assert config[0..] == config;
    for i := 0 to |config|
      invariant subnets + NotDHCP(config[i..]) == Clients(dhcp4, dhcp6) + NotDHCP(config)
    {
      assert config[i..][0] == config[i] && config[i..][1..] == config[i + 1..];
      if IsDHCP(config[i]) { continue; }
      subnets := subnets + [config[i]];
    }
  }

  lemma {:induction false} NotDHCPAppend(a: seq<Subnet>, b: seq<Subnet>)
    ensures NotDHCP(a + b) == NotDHCP(a) + NotDHCP(b)
  {
    hide IsDHCP;
    if a == [] {
      assert a + b == b;
    } else {
      assert (a + b)[1..] == a[1..] + b;
      NotDHCPAppend(a[1..], b);
    }
  }

  lemma {:induction false} NotDHCPLaws(s: seq<Subnet>)
    ensures NotDHCP(NotDHCP(s)) == NotDHCP(s) && ReadAddresses(NotDHCP(s)) == ReadAddresses(s)
    ensures forall k: nat | k < |NotDHCP(s)| :: !IsDHCP(NotDHCP(s)[k])
  {
    hide ParseAddress;
    if s != [] {
      NotDHCPLaws(s[1..]);
      assert ([s[0]] + NotDHCP(s[1..]))[1..] == NotDHCP(s[1..]);
    }
  }

  lemma {:induction false} ReadAddressesAppend(a: seq<Subnet>, b: seq<Subnet>)
    ensures ReadAddresses(a + b) == ReadAddresses(a) + ReadAddresses(b)
  {
    hide SubnetNetwork;
    if a == [] {
      assert a + b == b;
    } else {
      assert (a + b)[1..] == a[1..] + b;
      ReadAddressesAppend(a[1..], b);
    }
  }

  // The flags read back whatever spellings the config held, the addresses stay, and
  // a later call is not affected by an earlier one.
  lemma DHCPReadsBack(config: seq<Subnet>, dhcp4: bool, dhcp6: bool, earlier4: bool, earlier6: bool)
    ensures var s := Clients(dhcp4, dhcp6) + NotDHCP(config);
            && HasType(s, DHCP4_TYPES) == dhcp4 && HasType(s, DHCP6_TYPES) == dhcp6
            && ReadAddresses(s) == ReadAddresses(config)
            && Clients(dhcp4, dhcp6) + NotDHCP(Clients(earlier4, earlier6) + NotDHCP(config)) == s
  {
    var c, rest := Clients(dhcp4, dhcp6), NotDHCP(config);
    var s := c + rest;
    NotDHCPLaws(config);
    NotDHCPAppend(Clients(earlier4, earlier6), rest);
    ClientsOnly(earlier4, earlier6);
    ClientsOnly(dhcp4, dhcp6);
    ReadAddressesAppend(c, rest);
    assert [] + rest == rest && [] + ReadAddresses(config) == ReadAddresses(config);
    FlagsOf(s, |c|);
    assert s[..|c|] == c;
  }

  lemma ClientsOnly(dhcp4: bool, dhcp6: bool)
    ensures var c := Clients(dhcp4, dhcp6);
            && NotDHCP(c) == [] && ReadAddresses(c) == []
            && HasType(c, DHCP4_TYPES) == dhcp4 && HasType(c, DHCP6_TYPES) == dhcp6
  {
    var c := Clients(dhcp4, dhcp6);
    assert c != [] ==> IsDHCP(c[0]) && SubnetNetwork(c[0]).None?;
    if |c| > 1 {
      assert c[1..] == [Client("dhcp6")] && [Client("dhcp6")][1..] == [];
      assert NotDHCP([Client("dhcp6")]) == [] && ReadAddresses([Client("dhcp6")]) == [];
    }
    if dhcp4 { assert c[0].typ == "dhcp4"; }
    if dhcp6 { assert c[|c| - 1].typ == "dhcp6"; }
  }

  lemma FlagsOf(s: seq<Subnet>, n: nat)
    requires n <= |s| && forall k: nat | n <= k < |s| :: !IsDHCP(s[k])
    ensures HasType(s, DHCP4_TYPES) == HasType(s[..n], DHCP4_TYPES)
    ensures HasType(s, DHCP6_TYPES) == HasType(s[..n], DHCP6_TYPES)
  {
    assert forall k: nat | k < n :: s[..n][k] == s[k];
  }
}
