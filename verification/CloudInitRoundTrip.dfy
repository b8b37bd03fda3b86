// What SetIfaceAddresses keeps: the routes of the old subnets, the resolvers, and
// the addresses and gateways as GetInterfaces reads them back.
module CloudInitRoundTrip {
  import opened Text
  import opened Net
  import opened CloudInitSubnets

  // ------------------------------------------------------------------ one route

  // A netmask field can leave an IPv6 destination with an IPv4 mask, which prints
  // as "<nil>". Masks that no prefix length describes are not modelled.
  predicate CanonicalMask(r: Route) { WellFormed(r.destination) ==> Canonical(r.destination) }

  predicate CanonicalMasks(routes: seq<Route>) { forall k: nat | k < |routes| :: CanonicalMask(routes[k]) }

  predicate Readable(r: Route) { CanonicalNetwork(r.destination) && r.gateway.Some? }

  function ReadableOnes(routes: seq<Route>): seq<Route> {
    if routes == [] then []
    else if Readable(routes[0]) then [routes[0]] + ReadableOnes(routes[1..])
    else ReadableOnes(routes[1..])
  }

  // A printed route reads back exactly when it has a gateway and a destination of one family.
  lemma RouteReadsBack(r: Route)
    requires CanonicalMask(r)
    ensures ParseRoute(RouteText(r)) == if Readable(r) then Some(r) else None
  {
    NilIsNoIP();
    if WellFormed(r.destination) {
      NetworkTextRoundTrip(r.destination);
      hide NetworkText, ParseCIDR, ParseIP, IPText;
      if r.gateway.Some? { IPTextRoundTrip(r.gateway.value); }
    }
  }

  lemma {:induction false} RoutesReadBack(routes: seq<Route>)
    requires CanonicalMasks(routes)
    ensures ParseRoutes(RouteTexts(routes)) == ReadableOnes(routes)
  {
    hide RouteText, ParseRoute, Readable, CanonicalMask;
    if routes != [] {
      RouteReadsBack(routes[0]);
      RoutesReadBack(routes[1..]);
      assert RouteTexts(routes)[1..] == RouteTexts(routes[1..]);
    }
  }

  // ------------------------------------------------------- where the routes go

  // The routes of subnets i and up, in the order GetInterfaces meets them.
  function Spread(routes: seq<Route>, addrs: seq<IPNet>, i: nat): seq<Route>
    requires i <= |addrs|
    decreases |addrs| - i
  {
    if i == |addrs| then [] else Share(routes, addrs, i) + Spread(routes, addrs, i + 1)
  }

  lemma {:induction false} OwnedTwice(routes: seq<Route>, addrs: seq<IPNet>, i: nat, k: nat)
    ensures Owned(Owned(routes, addrs, i), addrs, k) == if i == k then Owned(routes, addrs, k) else []
  {
    hide Owner;
    if routes != [] {
      OwnedTwice(routes[1..], addrs, i, k);
      var rest := Owned(routes[1..], addrs, i);
      assert ([routes[0]] + rest)[1..] == rest;
    }
  }

  lemma OwnedShare(routes: seq<Route>, addrs: seq<IPNet>, i: nat, k: nat)
    requires i < |addrs| && k <= |addrs|
    ensures Owned(Share(routes, addrs, i), addrs, k) ==
            if k == i || (i == 0 && k == |addrs|) then Owned(routes, addrs, k) else []
  {
    hide Owned;
    var a, b := Owned(routes, addrs, i), Owned(routes, addrs, |addrs|);
    OwnedTwice(routes, addrs, i, k);
    OwnedTwice(routes, addrs, |addrs|, k);
    if i == 0 {
      OwnedAppend(a, b, addrs, k);
      assert Owned(a, addrs, k) + [] == Owned(a, addrs, k) && [] + Owned(b, addrs, k) == Owned(b, addrs, k);
    } else {
      assert a + [] == a;
    }
  }

  lemma {:induction false} OwnedSpread(routes: seq<Route>, addrs: seq<IPNet>, i: nat, k: nat)
    requires i <= |addrs| && k <= |addrs|
    ensures Owned(Spread(routes, addrs, i), addrs, k) ==
            if i <= k < |addrs| || (i == 0 && k == |addrs| != 0) then Owned(routes, addrs, k) else []
    decreases |addrs| - i
  {
    if i < |addrs| {
      var share, rest := Share(routes, addrs, i), Spread(routes, addrs, i + 1);
      assert Spread(routes, addrs, i) == share + rest;
      hide Owned, Share, Spread;
      OwnedSpread(routes, addrs, i + 1, k);
      OwnedShare(routes, addrs, i, k);
      OwnedAppend(share, rest, addrs, k);
      NothingAdded(Owned(routes, addrs, k));
    }
  }

  lemma NothingAdded(routes: seq<Route>)
    ensures routes + [] == routes && [] + routes == routes
  {}

  lemma {:induction false} Partition(routes: seq<Route>, addrs: seq<IPNet>, i: nat)
    ensures multiset(Unclaimed(routes, addrs, i)) ==
            multiset(Owned(routes, addrs, i)) + multiset(Unclaimed(routes, addrs, i + 1))
  {
    hide Owner;
    if routes != [] { Partition(routes[1..], addrs, i); }
  }

  // No route is lost or invented by the distribution over subnets.
  lemma {:induction false} SpreadPermutes(routes: seq<Route>, addrs: seq<IPNet>, i: nat)
    requires i <= |addrs|
    ensures 0 < i ==> multiset(Spread(routes, addrs, i)) + multiset(Owned(routes, addrs, |addrs|))
                      == multiset(Unclaimed(routes, addrs, i))
    ensures i == 0 < |addrs| ==> multiset(Spread(routes, addrs, 0)) == multiset(routes)
    decreases |addrs| - i
  {
    hide Owned, Unclaimed;
    UnclaimedAll(routes, addrs);
    if i < |addrs| {
      SpreadPermutes(routes, addrs, i + 1);
      Partition(routes, addrs, i);
    }
  }

  // ---------------------------------------------------------- filtering commutes

  lemma {:induction false} ReadableAppend(a: seq<Route>, b: seq<Route>)
    ensures ReadableOnes(a + b) == ReadableOnes(a) + ReadableOnes(b)
  {
    hide Readable;
    if a == [] {
      assert a + b == b;
    } else {
      assert (a + b)[1..] == a[1..] + b;
      ReadableAppend(a[1..], b);
    }
  }

  lemma {:induction false} OwnedReadable(routes: seq<Route>, addrs: seq<IPNet>, i: nat)
    ensures Owned(ReadableOnes(routes), addrs, i) == ReadableOnes(Owned(routes, addrs, i))
  {
    hide Readable, Owner;
    if routes != [] {
      OwnedReadable(routes[1..], addrs, i);
      var a, b := ReadableOnes(routes[1..]), Owned(routes[1..], addrs, i);
      assert ([routes[0]] + a)[1..] == a && ([routes[0]] + b)[1..] == b;
    }
  }

  lemma {:induction false} ReadableCounts(routes: seq<Route>, x: Route)
    ensures multiset(ReadableOnes(routes))[x] == if Readable(x) then multiset(routes)[x] else 0
  {
    hide Readable;
    if routes != [] {
      ReadableCounts(routes[1..], x);
      assert routes == [routes[0]] + routes[1..];
    }
  }

  lemma {:induction false} ReadableShrinks(routes: seq<Route>)
    ensures |ReadableOnes(routes)| <= |routes|
    ensures |ReadableOnes(routes)| == |routes| ==> ReadableOnes(routes) == routes
  {
    hide Readable;
    if routes != [] {
      ReadableShrinks(routes[1..]);
      assert routes == [routes[0]] + routes[1..];
    }
  }

  lemma {:induction false} MasksKept(routes: seq<Route>, addrs: seq<IPNet>, i: nat)
    requires CanonicalMasks(routes)
    ensures CanonicalMasks(Owned(routes, addrs, i)) && CanonicalMasks(Share(routes, addrs, i))
    ensures CanonicalMasks(ReadableOnes(routes))
  {
    hide CanonicalMask, Readable, Owner;
    if routes != [] { MasksKept(routes[1..], addrs, i); }
    OwnedMasks(routes, addrs, |addrs|);
    OwnedMasks(routes, addrs, i);
  }

  lemma {:induction false} OwnedMasks(routes: seq<Route>, addrs: seq<IPNet>, i: nat)
    requires CanonicalMasks(routes)
    ensures CanonicalMasks(Owned(routes, addrs, i))
  {
    hide CanonicalMask, Owner;
    if routes != [] { OwnedMasks(routes[1..], addrs, i); }
  }

  // ------------------------------------------------------------- reading it back

  lemma {:induction false} ReadSpread(
      addrs: seq<IPNet>, gateway4: Option<IP>, gateway6: Option<IP>, dns: seq<string>, search: seq<string>,
      routes: seq<Route>, i: nat)
    requires CanonicalMasks(routes) && i <= |addrs|
    ensures ReadRoutes(NewSubnets(addrs, gateway4, gateway6, dns, search, routes)[i..])
            == ReadableOnes(Spread(routes, addrs, i))
    decreases |addrs| - i
  {
    hide Share, CanonicalMasks, RouteTexts, ParseRoutes, SubnetGateway, NetworkText;
    if i < |addrs| {
      var s := NewSubnets(addrs, gateway4, gateway6, dns, search, routes);
      ReadSpread(addrs, gateway4, gateway6, dns, search, routes, i + 1);
      assert s[i..][0] == s[i] && s[i..][1..] == s[i + 1..];
      MasksKept(routes, addrs, i);
      RoutesReadBack(Share(routes, addrs, i));
      ReadableAppend(Share(routes, addrs, i), Spread(routes, addrs, i + 1));
    }
  }

  lemma ReadAfter(subnets: seq<Subnet>, addrs: seq<IPNet>, gateway4: Option<IP>, gateway6: Option<IP>)
    requires CanonicalMasks(ReadRoutes(subnets))
    ensures ReadRoutes(SetAddresses(subnets, addrs, gateway4, gateway6)) ==
            ReadableOnes(Spread(ReadRoutes(subnets), addrs, 0))
  {
    hide Spread, NewSubnets, ReadRoutes, ReadableOnes, AllDNS, AllSearch, CanonicalMasks;
    var s := SetAddresses(subnets, addrs, gateway4, gateway6);
    ReadSpread(addrs, gateway4, gateway6, AllDNS([], subnets), AllSearch([], subnets), ReadRoutes(subnets), 0);
    assert s[0..] == s;
  }

  // Setting at least one address conserves the routes that print, as a multiset;
  // setting none drops them all.
  lemma RoutesConserved(subnets: seq<Subnet>, addrs: seq<IPNet>, gateway4: Option<IP>, gateway6: Option<IP>)
    requires CanonicalMasks(ReadRoutes(subnets))
    ensures multiset(ReadRoutes(SetAddresses(subnets, addrs, gateway4, gateway6))) ==
            if addrs == [] then multiset{} else multiset(ReadableOnes(ReadRoutes(subnets)))
  {
    hide SetAddresses, Readable, Share, ReadRoutes, CanonicalMasks;
    var all := ReadRoutes(subnets);
    ReadAfter(subnets, addrs, gateway4, gateway6);
    if addrs != [] {
      SpreadPermutes(all, addrs, 0);
      hide ReadableOnes, Spread;
      forall x ensures multiset(ReadableOnes(Spread(all, addrs, 0)))[x] == multiset(ReadableOnes(all))[x] {
        ReadableCounts(all, x);
        ReadableCounts(Spread(all, addrs, 0), x);
      }
    }
  }

  // ------------------------------------------------------------------ resolvers

  predicate NoRepeats(s: seq<string>) { forall i, j | 0 <= i < j < |s| :: s[i] != s[j] }

  lemma {:induction false} AddNewNoRepeats(seen: seq<string>, more: seq<string>)
    requires NoRepeats(seen)
    ensures NoRepeats(AddNew(seen, more))
    decreases |more|
  {
    if more != [] { AddNewNoRepeats(if more[0] in seen then seen else seen + [more[0]], more[1..]); }
  }

  lemma {:induction false} AddNewKnown(seen: seq<string>, more: seq<string>)
    requires forall k: nat | k < |more| :: more[k] in seen
    ensures AddNew(seen, more) == seen
    decreases |more|
  {
    if more != [] {
      assert more[0] in seen;
      AddNewKnown(seen, more[1..]);
    }
  }

  lemma {:induction false} AddNewFresh(seen: seq<string>, more: seq<string>)
    requires NoRepeats(seen + more)
    ensures AddNew(seen, more) == seen + more
    decreases |more|
  {
    if more == [] {
      assert seen + more == seen;
    } else {
      var all := seen + more;
      assert all[|seen|] == more[0] && forall k | 0 <= k < |seen| :: all[k] == seen[k] && all[k] != all[|seen|];
      assert (seen + [more[0]]) + more[1..] == all;
      AddNewFresh(seen + [more[0]], more[1..]);
    }
  }

  lemma {:induction false} DNSNoRepeats(seen: seq<string>, subnets: seq<Subnet>)
    requires NoRepeats(seen)
    ensures NoRepeats(AllDNS(seen, subnets))
    decreases |subnets|
  {
    hide NoRepeats;
    if subnets != [] {
      AddNewNoRepeats(seen, subnets[0].dns);
      DNSNoRepeats(AddNew(seen, subnets[0].dns), subnets[1..]);
    }
  }

  lemma {:induction false} SearchNoRepeats(seen: seq<string>, subnets: seq<Subnet>)
    requires NoRepeats(seen)
    ensures NoRepeats(AllSearch(seen, subnets))
    decreases |subnets|
  {
    hide NoRepeats;
    if subnets != [] {
      AddNewNoRepeats(seen, subnets[0].search);
      SearchNoRepeats(AddNew(seen, subnets[0].search), subnets[1..]);
    }
  }

  // Subnets that all carry the same lists give them back, once.
  lemma {:induction false} SameLists(subnets: seq<Subnet>, dns: seq<string>, search: seq<string>)
    requires forall k: nat | k < |subnets| :: subnets[k].dns == dns && subnets[k].search == search
    requires NoRepeats(dns) && NoRepeats(search)
    ensures subnets != [] ==> AllDNS([], subnets) == dns && AllSearch([], subnets) == search
    ensures AllDNS(dns, subnets) == dns && AllSearch(search, subnets) == search
    decreases |subnets|
  {
    hide AddNew, NoRepeats;
    if subnets != [] {
      SameLists(subnets[1..], dns, search);
      assert [] + dns == dns && [] + search == search;
      AddNewFresh([], dns);
      AddNewFresh([], search);
      AddNewKnown(dns, dns);
      AddNewKnown(search, search);
    }
  }

  // --------------------------------------------------------------- doing it twice

  lemma ShareAfter(all: seq<Route>, addrs: seq<IPNet>, i: nat)
    requires i < |addrs|
    ensures Share(ReadableOnes(Spread(all, addrs, 0)), addrs, i) == ReadableOnes(Share(all, addrs, i))
  {
    hide Owned, ReadableOnes, Spread;
    var spread := Spread(all, addrs, 0);
    OwnedSpread(all, addrs, 0, i);
    OwnedSpread(all, addrs, 0, |addrs|);
    OwnedReadable(spread, addrs, i);
    OwnedReadable(spread, addrs, |addrs|);
    ReadableAppend(Owned(all, addrs, i), Owned(all, addrs, |addrs|));
    assert Owned(all, addrs, i) + [] == Owned(all, addrs, i);
    assert ReadableOnes(Owned(all, addrs, i)) + [] == ReadableOnes(Owned(all, addrs, i));
  }

  lemma ListsAfter(subnets: seq<Subnet>, addrs: seq<IPNet>, gateway4: Option<IP>, gateway6: Option<IP>)
    requires addrs != []
    ensures var once := SetAddresses(subnets, addrs, gateway4, gateway6);
            AllDNS([], once) == AllDNS([], subnets) && AllSearch([], once) == AllSearch([], subnets)
  {
    hide AllDNS, AllSearch, ReadRoutes, Share, RouteTexts, NetworkText, SubnetGateway;
    DNSNoRepeats([], subnets);
    SearchNoRepeats([], subnets);
    SameLists(SetAddresses(subnets, addrs, gateway4, gateway6), AllDNS([], subnets), AllSearch([], subnets));
  }

  // A share loses a route on the second reading exactly when it holds one that does not print.
  lemma SharesStayIff(all: seq<Route>, addrs: seq<IPNet>)
    requires addrs != []
    ensures ReadableOnes(all) == all
            <==> forall i: nat | i < |addrs| :: |ReadableOnes(Share(all, addrs, i))| == |Share(all, addrs, i)|
  {
    hide Owned, ReadableOnes, Spread;
    if ReadableOnes(all) == all {
      forall i: nat | i < |addrs| ensures ReadableOnes(Share(all, addrs, i)) == Share(all, addrs, i) {
        OwnedReadable(all, addrs, i);
        OwnedReadable(all, addrs, |addrs|);
        ReadableAppend(Owned(all, addrs, i), Owned(all, addrs, |addrs|));
        assert Owned(all, addrs, i) + [] == Owned(all, addrs, i);
      }
    }
    if forall i: nat | i < |addrs| :: |ReadableOnes(Share(all, addrs, i))| == |Share(all, addrs, i)| {
      hide Share;
      SpreadReadable(all, addrs, 0);
      SpreadPermutes(all, addrs, 0);
      forall x ensures multiset(ReadableOnes(all))[x] == multiset(all)[x] {
        ReadableCounts(all, x);
        ReadableCounts(Spread(all, addrs, 0), x);
      }
      assert multiset(ReadableOnes(all)) == multiset(all);
      assert |multiset(all)| == |all| && |multiset(ReadableOnes(all))| == |ReadableOnes(all)|;
      ReadableShrinks(all);
    }
  }

  lemma {:induction false} SpreadReadable(all: seq<Route>, addrs: seq<IPNet>, i: nat)
    requires i <= |addrs|
    requires forall k: nat | k < |addrs| :: |ReadableOnes(Share(all, addrs, k))| == |Share(all, addrs, k)|
    ensures ReadableOnes(Spread(all, addrs, i)) == Spread(all, addrs, i)
    decreases |addrs| - i
  {
    hide Share;
    if i < |addrs| {
      SpreadReadable(all, addrs, i + 1);
      ReadableShrinks(Share(all, addrs, i));
      ReadableAppend(Share(all, addrs, i), Spread(all, addrs, i + 1));
    }
  }

  lemma {:induction false} RouteTextsLength(routes: seq<Route>)
    ensures |RouteTexts(routes)| == |routes|
  {
    hide RouteText;
    if routes != [] { RouteTextsLength(routes[1..]); }
  }

  // Applying the same call twice is applying it once, resolvers included, exactly
  // when no address is set or every destination prints.
  lemma TwiceIsOnceIff(subnets: seq<Subnet>, addrs: seq<IPNet>, gateway4: Option<IP>, gateway6: Option<IP>)
    requires CanonicalMasks(ReadRoutes(subnets))
    ensures var once := SetAddresses(subnets, addrs, gateway4, gateway6);
            SetAddresses(once, addrs, gateway4, gateway6) == once
            <==> addrs == [] || ReadableOnes(ReadRoutes(subnets)) == ReadRoutes(subnets)
  {
    var all := ReadRoutes(subnets);
    var once := SetAddresses(subnets, addrs, gateway4, gateway6);
    var twice := SetAddresses(once, addrs, gateway4, gateway6);
    hide ReadRoutes, ReadableOnes, AllDNS, AllSearch, Share, RouteTexts, CanonicalMasks, NetworkText, SubnetGateway,
         Spread;
    if addrs != [] {
      ReadAfter(subnets, addrs, gateway4, gateway6);
      ListsAfter(subnets, addrs, gateway4, gateway6);
      SharesStayIff(all, addrs);
      forall i: nat | i < |addrs|
        ensures twice[i].(routes := once[i].routes) == once[i]
        ensures twice[i].routes == RouteTexts(ReadableOnes(Share(all, addrs, i)))
        ensures |twice[i].routes| == |ReadableOnes(Share(all, addrs, i))|
        ensures |once[i].routes| == |Share(all, addrs, i)|
        ensures twice[i] == once[i] <==> |ReadableOnes(Share(all, addrs, i))| == |Share(all, addrs, i)|
      {
        ShareAfter(all, addrs, i);
        RouteTextsLength(Share(all, addrs, i));
        RouteTextsLength(ReadableOnes(Share(all, addrs, i)));
        ReadableShrinks(Share(all, addrs, i));
      }
    }
  }

  // A static subnet with one route to an IPv6 address, whose netmask field holds an
  // IPv4 mask.
  function MixedSubnet(ip: IP, mask: IP, gateway: IP): Subnet {
    Subnet("static", "", "", "", [], [], [SubnetRoute(IPText(ip), IPText(mask), IPText(gateway), 0)])
  }

  // Its route is read, but gone after an address is set, and setting the address again
  // is not the same as setting it once.
  lemma MixedMaskIsLost(ip: IP, mask: IP, gateway: IP, addr: IPNet)
    requires !Is4(ip) && Is4(mask)
    ensures var subnets := [MixedSubnet(ip, mask, gateway)]; var once := SetAddresses(subnets, [addr], None, None);
            && ReadRoutes(subnets) == [Route(IPNetwork.IPNet(ip, mask), Some(gateway), 0)]
            && ReadRoutes(once) == [] && SetAddresses(once, [addr], None, None) != once
  {
    var subnets, r := [MixedSubnet(ip, mask, gateway)], Route(IPNetwork.IPNet(ip, mask), Some(gateway), 0);
    IPTextRoundTrip(ip);
    IPTextRoundTrip(mask);
    IPTextRoundTrip(gateway);
    hide IPText, ParseIP, ParseCIDR, CIDRMask, NetText;
    assert ParseRoute(subnets[0].routes[0]) == Some(r);
    MixedRead(subnets, r);
    hide ParseRoute, SetAddresses;
    assert !Readable(r) && CanonicalMasks([r]);
    assert ReadableOnes([r]) == [];
    RoutesConserved(subnets, [addr], None, None);
    TwiceIsOnceIff(subnets, [addr], None, None);
  }

  lemma MixedRead(subnets: seq<Subnet>, r: Route)
    requires |subnets| == 1 && |subnets[0].routes| == 1 && ParseRoute(subnets[0].routes[0]) == Some(r)
    ensures ReadRoutes(subnets) == [r]
  {
    hide ParseRoute;
    assert subnets[1..] == [] && subnets[0].routes[1..] == [] && ParseRoutes([]) == [] && ReadRoutes([]) == [];
    assert [r] + [] == [r];
  }

  // ------------------------------------------------------- addresses and gateways

  predicate ReachedBySome(addrs: seq<IPNet>, gateway: Option<IP>) {
    exists k: nat | k < |addrs| :: Reaches(addrs[k], gateway)
  }

  function ReachedGateway(addrs: seq<IPNet>, gateway: Option<IP>): Option<IP> {
    if ReachedBySome(addrs, gateway) then gateway else None
  }

  lemma EmptyIsNoIP()
    ensures ParseIP("") == None
  {
    assert |Split("", ':')| == 1;
  }

  lemma SubnetReadsBack(addr: IPNet, gateway4: Option<IP>, gateway6: Option<IP>, dns: seq<string>, search: seq<string>,
                        routes: seq<SubnetRoute>, g: Gateways)
    requires Canonical(addr) && (gateway4.Some? ==> Is4(gateway4.value)) && (gateway6.Some? ==> !Is4(gateway6.value))
    ensures var s := StaticSubnet(addr, gateway4, gateway6, dns, search, routes);
            && SubnetNetwork(s) == Some(addr)
            && SubnetGateways(g, s) == Gateways(
              if Reaches(addr, gateway4) then gateway4 else g.v4, if Reaches(addr, gateway6) then gateway6 else g.v6)
  {
    NetworkTextRoundTrip(addr);
    EmptyIsNoIP();
    if gateway4.Some? { IPTextRoundTrip(gateway4.value); }
    if gateway6.Some? { IPTextRoundTrip(gateway6.value); }
    hide NetworkText, ParseCIDR, ParseIP, IPText;
  }

  // The addresses read back in order; a gateway reads back exactly when an address reaches it.
  lemma AddressesReadBack(subnets: seq<Subnet>, addrs: seq<IPNet>, gateway4: Option<IP>, gateway6: Option<IP>)
    requires forall k: nat | k < |addrs| :: Canonical(addrs[k])
    requires (gateway4.Some? ==> Is4(gateway4.value)) && (gateway6.Some? ==> !Is4(gateway6.value))
    ensures var s := SetAddresses(subnets, addrs, gateway4, gateway6);
            && ReadAddresses(s) == addrs
            && ReadGateways(Gateways(None, None), s) ==
               Gateways(ReachedGateway(addrs, gateway4), ReachedGateway(addrs, gateway6))
            && !HasType(s, DHCP4_TYPES) && !HasType(s, DHCP6_TYPES)
  {
    hide ReadRoutes, AllDNS, AllSearch, ReadGateways, ReadAddresses, ReachedBySome, Canonical;
    var s := SetAddresses(subnets, addrs, gateway4, gateway6);
    AddressesFrom(addrs, gateway4, gateway6, AllDNS([], subnets), AllSearch([], subnets), ReadRoutes(subnets), 0,
                  Gateways(None, None));
    assert s[0..] == s && addrs[0..] == addrs;
  }

  lemma {:induction false} AddressesFrom(
      addrs: seq<IPNet>, gateway4: Option<IP>, gateway6: Option<IP>, dns: seq<string>, search: seq<string>,
      routes: seq<Route>, i: nat, g: Gateways)
    requires i <= |addrs| && forall k: nat | k < |addrs| :: Canonical(addrs[k])
    requires (gateway4.Some? ==> Is4(gateway4.value)) && (gateway6.Some? ==> !Is4(gateway6.value))
    ensures var s := NewSubnets(addrs, gateway4, gateway6, dns, search, routes)[i..];
            && ReadAddresses(s) == addrs[i..]
            && ReadGateways(g, s) == Gateways(
              if ReachedBySome(addrs[i..], gateway4) then gateway4 else g.v4,
              if ReachedBySome(addrs[i..], gateway6) then gateway6 else g.v6)
    decreases |addrs| - i
  {
    hide Share, RouteTexts, StaticSubnet, Reaches, Canonical, SubnetNetwork, SubnetGateways;
    if i < |addrs| {
      var s := NewSubnets(addrs, gateway4, gateway6, dns, search, routes);
      var addr := addrs[i];
      SubnetReadsBack(addr, gateway4, gateway6, dns, search, RouteTexts(Share(routes, addrs, i)), g);
      AddressesFrom(addrs, gateway4, gateway6, dns, search, routes, i + 1, SubnetGateways(g, s[i]));
      assert s[i..][0] == s[i] && s[i..][1..] == s[i + 1..] && addrs[i..] == [addr] + addrs[i + 1..];
      ReachedStep(addr, addrs[i + 1..], gateway4);
      ReachedStep(addr, addrs[i + 1..], gateway6);
    }
  }

  lemma ReachedStep(addr: IPNet, rest: seq<IPNet>, gateway: Option<IP>)
    ensures ReachedBySome([addr] + rest, gateway) <==> Reaches(addr, gateway) || ReachedBySome(rest, gateway)
  {
    hide Reaches;
    var all := [addr] + rest;
    assert all[0] == addr && forall k: nat | k < |rest| :: rest[k] == all[k + 1];
    assert forall k: nat | 0 < k < |all| :: all[k] == rest[k - 1];
  }
}
