// configurator_linux.go: the parts of SetPrimaryAddress: what it collects, the order
// it builds, and "reapply", which rebuilds a family's list in a given order.
module LinuxSetPrimary {
  import opened Text
  import opened Net
  import opened AddressLists
  import opened LinuxKernel
  import opened LinuxAddAddress

  function LinkLocals(list: seq<IPNet>): seq<IPNet> {
    if list == [] then []
    else if IsLinkLocal(list[0].ip) then [list[0]] + LinkLocals(list[1..])
    else LinkLocals(list[1..])
  }

  // The list without the entries whose IP is in the other list.
  function Except(list: seq<IPNet>, gone: seq<IPNet>): seq<IPNet> {
    if list == [] then []
    else if HasIP(gone, list[0].ip) then Except(list[1..], gone)
    else [list[0]] + Except(list[1..], gone)
  }

  function Entry(list: seq<IPNet>, ip: IP): IPNet
    requires HasIP(list, ip)
  {
    HasIPStep(list, ip);
    if list[0].ip == ip then list[0] else Entry(list[1..], ip)
  }

  // The entry with the IP, moved in front of the others.
  function InFront(list: seq<IPNet>, ip: IP): seq<IPNet>
    requires HasIP(list, ip)
  {
    [Entry(list, ip)] + Without(list, ip)
  }

  // ------------------------------------------------------------------- collecting

  method CollectFamily(k: Kernel, addr: IPNet)
    returns (ok: bool, exists_: bool, addresses: seq<IPNet>, familyAddrs: seq<IPNet>)
    requires Wellformed(k.state) && !k.failed
    modifies k`failed
    ensures ok <==> !k.failed
    ensures ok ==> exists_ == Present(k.state, addr.ip) && addresses == Globals(k.state.v4 + k.state.v6)
    ensures ok ==> familyAddrs == Globals(Family(k.state, Is4(addr.ip)))
  {
    hide IsLinkLocal, KeyedByIP, Globals, OfFamily;
    exists_, addresses, familyAddrs := false, [], [];
    var addrs;
    ok, addrs := k.AddrList();
    if !ok { return; }
    EmptyLists(addr);
    EmptyFamily(Is4(addr.ip));
    assert addrs[..0] == [];
    for i := 0 to |addrs|
      invariant !k.failed && exists_ == HasIP(addrs[..i], addr.ip)
      invariant addresses == Globals(addrs[..i]) && familyAddrs == OfFamily(Globals(addrs[..i]), Is4(addr.ip))
    {
      var address := addrs[i];
      ListsStep(addrs, i, addr);
      OfFamilyAppend(Globals(addrs[..i]), address, Is4(addr.ip));
      if address.ip == addr.ip { exists_ := true; }
      if IsLinkLocal(address.ip) { continue; }
      addresses := addresses + [address];
      if Is4(address.ip) == Is4(addr.ip) { familyAddrs := familyAddrs + [address]; }
    }
    assert addrs[..|addrs|] == addrs;
    OtherFamily(k.state, addr.ip);
    FamilyOfBoth(k.state, Is4(addr.ip));
  }

  function OfFamily(list: seq<IPNet>, is4: bool): seq<IPNet> {
    if list == [] then []
    else if Is4(list[0].ip) == is4 then [list[0]] + OfFamily(list[1..], is4)
    else OfFamily(list[1..], is4)
  }

  lemma EmptyFamily(is4: bool)
    ensures OfFamily(Globals([]), is4) == []
  {}

  lemma {:induction false} OfFamilyConcat(a: seq<IPNet>, b: seq<IPNet>, is4: bool)
    ensures OfFamily(a + b, is4) == OfFamily(a, is4) + OfFamily(b, is4)
  {
    if a == [] {
      assert a + b == b;
    } else {
      assert (a + b)[1..] == a[1..] + b;
      OfFamilyConcat(a[1..], b, is4);
    }
  }

  lemma OfFamilyAppend(list: seq<IPNet>, a: IPNet, is4: bool)
    ensures OfFamily(list + [a], is4) == if Is4(a.ip) == is4 then OfFamily(list, is4) + [a] else OfFamily(list, is4)
  {
    OfFamilyConcat(list, [a], is4);
    assert OfFamily([a], is4) == if Is4(a.ip) == is4 then [a] else [];
  }

  lemma {:induction false} OneFamily(list: seq<IPNet>, is4: bool)
    requires forall i: nat | i < |list| :: Is4(list[i].ip) == is4
    ensures OfFamily(list, is4) == list && OfFamily(list, !is4) == []
  {
    if list != [] {
      OneFamily(list[1..], is4);
      assert list == [list[0]] + list[1..];
    }
  }

  // The global addresses of both lists, taken apart again.
  lemma FamilyOfBoth(s: State, is4: bool)
    requires Wellformed(s)
    ensures OfFamily(Globals(s.v4 + s.v6), is4) == Globals(Family(s, is4))
  {
    GlobalsAppend(s.v4, s.v6);
    OfFamilyConcat(Globals(s.v4), Globals(s.v6), is4);
    forall b: bool
      ensures OfFamily(Globals(Family(s, b)), b) == Globals(Family(s, b)) && OfFamily(Globals(Family(s, b)), !b) == []
    {
      GlobalsOneFamily(Family(s, b), b);
      OneFamily(Globals(Family(s, b)), b);
    }
    assert OfFamily(Globals(Family(s, true)), is4) + OfFamily(Globals(Family(s, false)), is4) == Globals(Family(s, is4));
  }

  lemma GlobalsOneFamily(list: seq<IPNet>, is4: bool)
    requires KeyedByIP(list, is4)
    ensures forall i: nat | i < |Globals(list)| :: Is4(Globals(list)[i].ip) == is4
  {
    hide IsLinkLocal;
    GlobalsMembers(list);
    forall i: nat | i < |Globals(list)| ensures Is4(Globals(list)[i].ip) == is4 {
      assert Globals(list)[i] in Globals(list);
    }
  }

  // The first default route of each family, and the one of this family.
  method CaptureRoutes(k: Kernel, is4: bool)
    returns (ok: bool, gateway4: Option<IP>, gateway6: Option<IP>, familyRoute: Default)
    requires !k.failed
    modifies k`failed
    ensures ok <==> !k.failed
    ensures ok ==> gateway4 == GatewayOf(k.state.route4) && gateway6 == GatewayOf(k.state.route6)
    ensures ok ==> familyRoute == RouteOf(k.state, is4)
  {
    gateway4, gateway6, familyRoute := None, None, NoRoute;
    var routes;
    ok, routes := k.RouteList();
    if !ok { return; }
    var seen4, seen6 := false, false;
    for i := 0 to |routes|
      invariant !k.failed && routes == Defaults(k.state)
      invariant seen4 == (i > 0 && !k.state.route4.NoRoute?) && seen6 == (i == |routes| && !k.state.route6.NoRoute?)
      invariant gateway4 == (if seen4 then GatewayOf(k.state.route4) else None)
      invariant gateway6 == (if seen6 then GatewayOf(k.state.route6) else None)
      invariant familyRoute == if (if is4 then seen4 else seen6) then RouteOf(k.state, is4) else NoRoute
    {
      var route := routes[i];
      if route.is4 && !seen4 {
        gateway4 := route.gw;
        seen4 := true;
      } else if !route.is4 && !seen6 {
        gateway6 := route.gw;
        seen6 := true;
      } else {
        continue;
      }
      if route.is4 == is4 { familyRoute := DefaultFor(route.gw); }
      if seen4 && seen6 { break; }
    }
  }

  // ---------------------------------------------------------------------- the order

  // The target first, and the others in order. Without the target in the list, the
  // first entry is one that holds no address.
  method DesiredOrder(familyAddrs: seq<IPNet>, ip: IP, ghost is4: bool) returns (order: seq<Option<IPNet>>)
    requires KeyedByIP(familyAddrs, is4)
    ensures |order| > 0
    ensures order[0].None? <==> !HasIP(familyAddrs, ip)
    ensures order[0].Some? ==> AllSome(order) && Values(order) == InFront(familyAddrs, ip)
  {
    var rest, target := familyAddrs, None;
    for i := 0 to |familyAddrs|
      invariant rest == familyAddrs && target.None? && forall j: nat | j < i :: familyAddrs[j].ip != ip
    {
      if familyAddrs[i].ip == ip {
        rest := familyAddrs[..i] + familyAddrs[i + 1..];
        target := Some(familyAddrs[i]);
        TakeOut(familyAddrs, ip, i, is4);
        break;
      }
    }
    order := [target] + seq(|rest|, i requires 0 <= i < |rest| => Some(rest[i]));
    if target.Some? {
      assert Values(order) == [target.value] + rest;
    }
  }

  predicate AllSome(order: seq<Option<IPNet>>) { forall i: nat | i < |order| :: order[i].Some? }

  function Values(order: seq<Option<IPNet>>): (list: seq<IPNet>)
    requires AllSome(order)
    ensures |list| == |order|
  {
    seq(|order|, i requires 0 <= i < |order| => order[i].value)
  }

  lemma {:induction false} TakeOut(list: seq<IPNet>, ip: IP, i: nat, is4: bool)
    requires KeyedByIP(list, is4) && i < |list| && list[i].ip == ip
    ensures HasIP(list, ip) && Entry(list, ip) == list[i]
    ensures Without(list, ip) == list[..i] + list[i + 1..]
  {
    var rest := list[1..];
    if i == 0 {
      assert !HasIP(rest, ip);
      WithoutFacts(rest, ip);
      assert list[..0] + list[1..] == rest;
    } else {
      TakeOut(rest, ip, i - 1, is4);
      assert list[0].ip != ip;
      assert list[..i] + list[i + 1..] == [list[0]] + (rest[..i - 1] + rest[i..]);
    }
  }

  // ---------------------------------------------------------------------- reapply

  datatype Reapply = Applied | Failed | NilAddress

  lemma {:induction false} ExceptStep(list: seq<IPNet>, gone: seq<IPNet>, n: IPNet)
    ensures Except(list, gone + [n]) == Without(Except(list, gone), n.ip)
  {
    hide HasIP;
    if list != [] {
      ExceptStep(list[1..], gone, n);
      HasIPAppend(gone, [n], list[0].ip);
      OneIP(n, list[0].ip);
      assert ([list[0]] + Except(list[1..], gone))[1..] == Except(list[1..], gone);
    }
  }

  lemma OneIP(n: IPNet, ip: IP)
    ensures HasIP([n], ip) <==> n.ip == ip
  {
    assert [n][0] == n;
  }

  lemma {:induction false} ExceptFacts(list: seq<IPNet>, gone: seq<IPNet>, ip: IP)
    ensures HasIP(Except(list, gone), ip) <==> HasIP(list, ip) && !HasIP(gone, ip)
  {
    assert !HasIP([], ip);
    hide HasIP;
    if list != [] {
      ExceptFacts(list[1..], gone, ip);
      HasIPStep(list, ip);
      var rest := Except(list[1..], gone);
      HasIPStep([list[0]] + rest, ip);
      assert ([list[0]] + rest)[1..] == rest;
    }
  }

  lemma {:induction false} ExceptNone(list: seq<IPNet>)
    ensures Except(list, []) == list
  {
    if list != [] {
      ExceptNone(list[1..]);
      assert !HasIP([], list[0].ip);
    }
  }

  // The list holds exactly these addresses besides its link-local ones.
  ghost predicate HoldsGlobals(list: seq<IPNet>, globals: seq<IPNet>) {
    forall ip :: HasIP(globals, ip) <==> HasIP(list, ip) && !IsLinkLocal(ip)
  }

  lemma {:induction false} ExceptGlobals(list: seq<IPNet>, globals: seq<IPNet>)
    requires forall i: nat | i < |list| :: HasIP(globals, list[i].ip) <==> !IsLinkLocal(list[i].ip)
    ensures Except(list, globals) == LinkLocals(list)
  {
    hide HasIP, IsLinkLocal;
    if list != [] { ExceptGlobals(list[1..], globals); }
  }

  lemma HeldGlobals(list: seq<IPNet>, globals: seq<IPNet>)
    requires HoldsGlobals(list, globals)
    ensures Except(list, globals) == LinkLocals(list)
  {
    hide IsLinkLocal;
    assert forall i: nat | i < |list| :: HasIP(list, list[i].ip);
    ExceptGlobals(list, globals);
  }

  // Delete the family's addresses one by one.
  method DeleteAll(k: Kernel, is4: bool, familyAddrs: seq<IPNet>) returns (ok: bool)
    requires !k.failed && KeyedByIP(familyAddrs, is4) && HoldsGlobals(Family(k.state, is4), familyAddrs)
    modifies k
    ensures ok <==> !k.failed
    ensures ok ==> k.state == WithRoute(WithFamily(old(k.state), is4, LinkLocals(Family(old(k.state), is4))), is4,
                                        RouteOf(k.state, is4))
    ensures ok ==> RouteOf(k.state, is4) == RouteOf(old(k.state), is4)
                   || (RouteOf(k.state, is4).NoRoute? && RouteOf(old(k.state), is4).Via?)
  {
    hide HasIP, IsLinkLocal, Deleting, KeyedByIP, HoldsGlobals, LinkLocals, OnlyThrough, Deleted;
    ghost var list, s := Family(k.state, is4), k.state;
    DeletingStart(s, is4, familyAddrs);
    ok := true;
    for i := 0 to |familyAddrs|
      invariant ok && !k.failed && Deleting(s, is4, familyAddrs, i, k.state)
    {
      var n := familyAddrs[i];
      ghost var before := k.state;
      DeletingPresent(s, is4, familyAddrs, i, before);
      ghost var dropped;
      ok, dropped := k.AddrDel(n.ip);
      if !ok { return; }
      DeletingStep(s, is4, familyAddrs, i, before, dropped);
    }
    DeletingEnd(s, is4, familyAddrs, k.state);
  }

  // The state after the first i deletions.
  predicate Deleting(s: State, is4: bool, familyAddrs: seq<IPNet>, i: nat, now: State)
    requires i <= |familyAddrs|
  {
    && now == WithRoute(WithFamily(s, is4, Except(Family(s, is4), familyAddrs[..i])), is4, RouteOf(now, is4))
    && (RouteOf(now, is4) == RouteOf(s, is4) || (RouteOf(now, is4).NoRoute? && RouteOf(s, is4).Via?))
  }

  lemma DeletingStart(s: State, is4: bool, familyAddrs: seq<IPNet>)
    ensures Deleting(s, is4, familyAddrs, 0, s)
  {
    ExceptNone(Family(s, is4));
    assert familyAddrs[..0] == [];
  }

  lemma DeletingPresent(s: State, is4: bool, familyAddrs: seq<IPNet>, i: nat, now: State)
    requires KeyedByIP(familyAddrs, is4) && HoldsGlobals(Family(s, is4), familyAddrs)
    requires i < |familyAddrs| && Deleting(s, is4, familyAddrs, i, now)
    ensures HasIP(Family(now, Is4(familyAddrs[i].ip)), familyAddrs[i].ip)
    ensures Is4(familyAddrs[i].ip) == is4
  {
    StillThere(Family(s, is4), familyAddrs, i, is4);
    hide HasIP, KeyedByIP, HoldsGlobals, Except;
  }

  lemma DeletingStep(s: State, is4: bool, familyAddrs: seq<IPNet>, i: nat, before: State, dropped: bool)
    requires i < |familyAddrs| && Is4(familyAddrs[i].ip) == is4 && Deleting(s, is4, familyAddrs, i, before)
    requires dropped ==> OnlyThrough(before, familyAddrs[i].ip)
    ensures Deleting(s, is4, familyAddrs, i + 1, Deleted(before, familyAddrs[i].ip, dropped))
  {
    var n := familyAddrs[i];
    ExceptStep(Family(s, is4), familyAddrs[..i], n);
    assert familyAddrs[..i + 1] == familyAddrs[..i] + [n];
    if dropped { DroppedWasVia(before, n.ip); }
    hide OnlyThrough, Except, Without;
  }

  lemma DeletingEnd(s: State, is4: bool, familyAddrs: seq<IPNet>, now: State)
    requires HoldsGlobals(Family(s, is4), familyAddrs) && Deleting(s, is4, familyAddrs, |familyAddrs|, now)
    ensures now == WithRoute(WithFamily(s, is4, LinkLocals(Family(s, is4))), is4, RouteOf(now, is4))
    ensures RouteOf(now, is4) == RouteOf(s, is4) || (RouteOf(now, is4).NoRoute? && RouteOf(s, is4).Via?)
  {
    assert familyAddrs[..|familyAddrs|] == familyAddrs;
    HeldGlobals(Family(s, is4), familyAddrs);
  }

  lemma StillThere(list: seq<IPNet>, familyAddrs: seq<IPNet>, i: nat, is4: bool)
    requires KeyedByIP(familyAddrs, is4) && HoldsGlobals(list, familyAddrs) && i < |familyAddrs|
    ensures HasIP(Except(list, familyAddrs[..i]), familyAddrs[i].ip) && Is4(familyAddrs[i].ip) == is4
  {
    ExceptFacts(list, familyAddrs[..i], familyAddrs[i].ip);
    assert HasIP(familyAddrs, familyAddrs[i].ip);
    assert forall j: nat | j < i :: familyAddrs[..i][j] == familyAddrs[j];
  }

  // Remove the family's addresses, add them in the given order, and bring back the
  // default route if it went with them.
  method ReapplyOrder(k: Kernel, is4: bool, familyAddrs: seq<IPNet>, order: seq<Option<IPNet>>, familyRoute: Default)
    returns (r: Reapply)
    requires !k.failed && KeyedByIP(familyAddrs, is4) && HoldsGlobals(Family(k.state, is4), familyAddrs)
    requires familyRoute == RouteOf(k.state, is4)
    requires |order| > 0 && (order[0].None? || GoodOrder(order, is4))
    modifies k
    ensures r.Failed? <==> k.failed
    ensures order[0].None? ==> r.NilAddress? || r.Failed?
    ensures r.NilAddress? ==>
              order[0].None? && Family(k.state, is4) == LinkLocals(Family(old(k.state), is4))
              && Family(k.state, !is4) == Family(old(k.state), !is4)
    ensures r.Applied? ==>
              AllSome(order)
              && k.state == WithFamily(old(k.state), is4, LinkLocals(Family(old(k.state), is4)) + Values(order))
  {
    hide HasIP, IsLinkLocal, LinkLocals, HoldsGlobals, KeyedByIP;
    ghost var s := k.state;
    var ok := DeleteAll(k, is4, familyAddrs);
    if !ok { return Failed; }
    ghost var base, route := LinkLocals(Family(s, is4)), RouteOf(k.state, is4);
    if order[0].None? { return NilAddress; }
    NothingAdded(order, base);
    for i := 0 to |order|
      invariant !k.failed && k.state == WithRoute(WithFamily(s, is4, base + Values(order)[..i]), is4, route)
    {
      AppendNext(order, base, Family(s, is4), i, is4);
      ok := k.AddrReplace(order[i].value);
      if !ok { return Failed; }
    }
    assert Values(order)[..|order|] == Values(order);
    if familyRoute.NoRoute? { return Applied; }
    var present, routes := false, [];
    ok, routes := k.RouteList();
    if !ok { return Failed; }
    present := PresentRoute(routes, is4, familyRoute, k.state);
    if !present {
      ok := k.RouteReplace(is4, familyRoute);
      if !ok { return Failed; }
    }
    return Applied;
  }

  method PresentRoute(routes: seq<RouteEntry>, is4: bool, familyRoute: Default, ghost s: State) returns (present: bool)
    requires routes == Defaults(s) && !familyRoute.NoRoute?
    ensures present <==> RouteOf(s, is4) == familyRoute
  {
    present := false;
    for i := 0 to |routes|
      invariant present <==> exists j: nat | j < i :: routes[j].is4 == is4 && DefaultFor(routes[j].gw) == familyRoute
    {
      if routes[i].is4 == is4 && routes[i].gw == GatewayOf(familyRoute) { present := true; }
    }
    if is4 && !s.route4.NoRoute? { assert routes[0] == RouteEntry(true, GatewayOf(s.route4)); }
    if !is4 && !s.route6.NoRoute? { assert routes[|routes| - 1] == RouteEntry(false, GatewayOf(s.route6)); }
  }

  // An order of distinct addresses of the family, none of them link-local.
  predicate GoodOrder(order: seq<Option<IPNet>>, is4: bool) {
    AllSome(order) && KeyedByIP(Values(order), is4) && forall i: nat | i < |order| :: !IsLinkLocal(Values(order)[i].ip)
  }

  lemma NothingAdded(order: seq<Option<IPNet>>, base: seq<IPNet>)
    requires AllSome(order)
    ensures base + Values(order)[..0] == base
  {}

  lemma {:induction false} LinkLocalsMembers(list: seq<IPNet>)
    ensures forall x :: x in LinkLocals(list) <==> x in list && IsLinkLocal(x.ip)
  {
    hide IsLinkLocal;
    if list != [] { LinkLocalsMembers(list[1..]); }
  }

  lemma AppendNext(order: seq<Option<IPNet>>, base: seq<IPNet>, list: seq<IPNet>, i: nat, is4: bool)
    requires GoodOrder(order, is4) && i < |order| && base == LinkLocals(list)
    ensures var n := order[i].value;
            Is4(n.ip) == is4 && Put(base + Values(order)[..i], n) == base + Values(order)[..i + 1]
  {
    var v, n := Values(order), order[i].value;
    hide IsLinkLocal;
    LinkLocalsMembers(list);
    HasIPAppend(base, v[..i], n.ip);
    assert v[i] == n && !IsLinkLocal(n.ip);
    assert forall j: nat | j < |base| :: base[j] in base;
    assert forall j: nat | j < i :: v[..i][j] == v[j];
    PutFacts(base + v[..i], n);
    assert v[..i + 1] == v[..i] + [n];
    assert (base + v[..i]) + [n] == base + (v[..i] + [n]);
  }
}
