// configurator_linux.go: the three operations on addresses, each a transaction of
// kernel calls followed by calls to the backends and the control panels.
module LinuxConfigurator {
  import opened Text
  import opened Net
  import opened AddressLists
  import opened LinuxKernel
  import opened LinuxAddAddress
  import opened LinuxSetPrimary
  import opened LinuxRemoveAddress

  class Configurator {
    const kernel: Kernel
    const options: Options
    var calls: seq<BackendCall>

    constructor (kernel0: Kernel, options0: Options)
      ensures kernel == kernel0 && options == options0 && calls == []
    {
      kernel, options, calls := kernel0, options0, [];
    }

    // Raise the link, make the change, and put a link raised here down again unless
    // the change was applied.
    method AddAddress(addr: IPNet, gateway: Option<IP>) returns (r: Outcome)
      requires Wellformed(kernel.state) && !kernel.failed
      modifies this, kernel
      ensures r in {Done, KernelError, Unreachable, Responds, Aborted}
      ensures r.Unreachable? <==> !Acceptable(addr, gateway)
      ensures r.KernelError? ==> kernel.failed
      ensures (r.Unreachable? || r.Responds?) && !kernel.failed ==> kernel.state == old(kernel.state)
      ensures r.Responds? ==> !Present(old(kernel.state), addr.ip)
      ensures r.Aborted? ==> !options.skipConnectivityCheck
      ensures r.Aborted? && !kernel.failed ==> Undone(old(kernel.state), addr, gateway, kernel.state)
      ensures r.Aborted? && gateway.Some? ==> gateway.value != Zero(Is4(addr.ip))
      ensures r.Done? ==> kernel.state == AfterAdd(old(kernel.state), addr, gateway) && !kernel.failed
      ensures r.Done? ==> calls == old(calls) + AddCalls(old(kernel.state), addr, gateway, options)
      ensures !r.Done? ==> calls == old(calls)
    {
      hide IsLinkLocal, Replaced, BackendAddresses, KeyedByIP, Contains, Present;
      if gateway.Some? && gateway.value != Zero(Is4(addr.ip)) {
        if !Contains(addr, gateway.value) && !IsLinkLocal(gateway.value) { return Unreachable; }
      }
      var broughtUp := false;
      if !kernel.state.up {
        var ok := kernel.LinkSet(true);
        if !ok { return KernelError; }
        broughtUp := true;
      }
      LiftedState(old(kernel.state), addr, gateway);
      r := AddToLink(addr, gateway);
      if broughtUp && !r.Done? {
        var ok := kernel.LinkSet(false);
      }
    }

    method AddToLink(addr: IPNet, gateway0: Option<IP>) returns (r: Outcome)
      requires Wellformed(kernel.state) && !kernel.failed && kernel.state.up
      modifies this, kernel
      ensures r in {Done, KernelError, Responds, Aborted}
      ensures r.KernelError? <==> kernel.failed
      ensures r.Responds? ==> kernel.state == old(kernel.state)
      ensures r.Responds? ==> !Present(old(kernel.state), addr.ip)
      ensures r.Aborted? ==> !options.skipConnectivityCheck
      ensures r.Aborted? ==> Undone(old(kernel.state), addr, gateway0, kernel.state)
      ensures r.Aborted? && gateway0.Some? ==> gateway0.value != Zero(Is4(addr.ip))
      ensures r.Done? ==> kernel.state == AfterAdd(old(kernel.state), addr, gateway0)
      ensures r.Done? ==> calls == old(calls) + AddCalls(old(kernel.state), addr, gateway0, options)
      ensures !r.Done? ==> calls == old(calls)
    {
      hide IsLinkLocal, KeyedByIP, Globals, HasIP, Put, Undone, Masked;
      ghost var s := kernel.state;
      var is4 := Is4(addr.ip);
      var ok, exists_, addresses, origAddresses := UpdateMask(kernel, addr);
      if !ok { return KernelError; }
      MaskedState(s, addr);
      if !exists_ {
        var responds: bool := *;
        if responds { return Responds; }
        ok := kernel.AddrAdd(addr);
        if !ok { return KernelError; }
        addresses := addresses + [addr];
      }
      assert kernel.state == Replaced(s, addr) && addresses == BackendAddresses(s, addr);
      var gateway, gateway4, gateway6, origGw;
      ok, gateway, gateway4, gateway6, origGw := UpdateRoute(kernel, is4, gateway0);
      if !ok { return KernelError; }
      if gateway == Some(Zero(is4)) { gateway := None; }
      if gateway.Some? {
        var added := false;
        if is4 && gateway4.None? {
          ok := kernel.RouteAdd(true, gateway.value);
          if !ok { return KernelError; }
          added := true;
          gateway4 := gateway;
        } else if !is4 && gateway6.None? {
          ok := kernel.RouteAdd(false, gateway.value);
          if !ok { return KernelError; }
          added := true;
          gateway6 := gateway;
        }
        if !options.skipConnectivityCheck {
          var internet: bool := *;
          if !internet {
            ok := RollBack(kernel, addr, exists_, origAddresses, origGw, added, s, gateway0);
            if !ok { return KernelError; }
            assert s.(up := true) == s;
            return Aborted;
          }
        }
      }
      calls := calls + [ApplyAddresses(addresses, gateway4, gateway6)];
      if !options.skipPanels { calls := calls + [ReloadPanels]; }
      return Done;
    }

    // Promote an address that the interface has to be the first of its family.
    method SetPrimaryAddress(addr: IPNet) returns (r: Outcome)
      requires Wellformed(kernel.state) && !kernel.failed
      modifies this, kernel
      ensures r in {Done, KernelError, NotFound, Aborted, Crashed}
      ensures r.KernelError? <==> kernel.failed
      ensures r.NotFound? ==> kernel.state == old(kernel.state)
      ensures !r.KernelError? ==> (r.NotFound? <==> !Present(old(kernel.state), addr.ip))
      ensures !r.KernelError? ==> (r.Crashed? <==> Present(old(kernel.state), addr.ip) && IsLinkLocal(addr.ip))
      ensures r.Crashed? ==>
                Family(kernel.state, Is4(addr.ip)) == LinkLocals(Family(old(kernel.state), Is4(addr.ip)))
                && Family(kernel.state, !Is4(addr.ip)) == Family(old(kernel.state), !Is4(addr.ip))
      ensures r.Aborted? ==> !options.skipConnectivityCheck && RouteOf(old(kernel.state), Is4(addr.ip)).Via?
      ensures r.Aborted? ==> kernel.state == PromoteUndone(old(kernel.state), Is4(addr.ip))
      ensures r.Done? ==> HasIP(Globals(Family(old(kernel.state), Is4(addr.ip))), addr.ip)
      ensures r.Done? ==> kernel.state == AfterPromote(old(kernel.state), addr.ip)
      ensures r.Done? ==> calls == old(calls) + PromoteCalls(old(kernel.state), addr, options)
      ensures !r.Done? ==> calls == old(calls)
    {
      hide IsLinkLocal, KeyedByIP, Globals, HasIP, LinkLocals, Without, HoldsGlobals, Promoted, Entry;
      ghost var s, list := kernel.state, Family(kernel.state, Is4(addr.ip));
      var is4 := Is4(addr.ip);
      var ok, exists_, addresses, familyAddrs := CollectFamily(kernel, addr);
      if !ok { return KernelError; }
      if !exists_ { return NotFound; }
      var gateway4, gateway6, familyRoute;
      ok, gateway4, gateway6, familyRoute := CaptureRoutes(kernel, is4);
      if !ok { return KernelError; }
      FamilyFacts(list, is4, addr.ip);
      if |familyAddrs| != 0 && familyAddrs[0].ip == addr.ip {
        FirstIsThere(familyAddrs, addr.ip);
        PresentInBoth(s, addr.ip);
        addresses, ok := ReorderPrimaryAddress(addresses, addr);
        Persist(addresses, gateway4, gateway6, addr.ip);
        return Done;
      }
      var desired := DesiredOrder(familyAddrs, addr.ip, is4);
      if desired[0].Some? { DesiredIsGood(list, addr.ip, is4, desired); }
      var applied := ReapplyOrder(kernel, is4, familyAddrs, desired, familyRoute);
      if applied.Failed? { return KernelError; }
      if applied.NilAddress? { return Crashed; }
      assert kernel.state == AfterPromote(s, addr.ip);
      if !options.skipConnectivityCheck && familyRoute.Via? {
        var internet: bool := *;
        if !internet {
          var back := seq(|familyAddrs|, i requires 0 <= i < |familyAddrs| => Some(familyAddrs[i]));
          assert Values(back) == familyAddrs;
          BackIsGood(list, addr.ip, is4, back);
          applied := ReapplyOrder(kernel, is4, familyAddrs, back, familyRoute);
          if applied.Failed? { return KernelError; }
          return Aborted;
        }
      }
      PresentInBoth(s, addr.ip);
      addresses, ok := ReorderPrimaryAddress(addresses, addr);
      Persist(addresses, gateway4, gateway6, addr.ip);
      return Done;
    }

    // The backends, and unless they are skipped the panels with their new main IP.
    method Persist(addresses: seq<IPNet>, gateway4: Option<IP>, gateway6: Option<IP>, ip: IP)
      modifies this`calls
      ensures var apply := ApplyAddresses(addresses, gateway4, gateway6);
              calls == old(calls) + if options.skipPanels then [apply] else [apply, ReloadPanels, SetMainIP(ip)]
    {
      calls := calls + [ApplyAddresses(addresses, gateway4, gateway6)];
      if !options.skipPanels { calls := calls + [ReloadPanels, SetMainIP(ip)]; }
    }

    method RemoveAddress(addr: IPNet) returns (r: Outcome)
      requires Wellformed(kernel.state) && !kernel.failed
      modifies this, kernel
      ensures r in {Done, KernelError, PrimaryRefused, LosesGateway, Aborted}
      ensures r.KernelError? <==> kernel.failed
      ensures !r.KernelError? ==> (r.PrimaryRefused? <==> RemovalRefused(old(kernel.state), addr.ip, options))
      ensures !r.KernelError? ==> (r.LosesGateway? <==>
                !RemovalRefused(old(kernel.state), addr.ip, options) && !KeepsGateway(old(kernel.state), addr.ip))
      ensures r.PrimaryRefused? || r.LosesGateway? ==> kernel.state == old(kernel.state)
      ensures r.Aborted? ==> !options.skipConnectivityCheck && Present(old(kernel.state), addr.ip)
                             && kernel.state == RemovalUndone(old(kernel.state), addr.ip)
      ensures r.Done? ==> kernel.state == AfterRemove(old(kernel.state), addr.ip)
      ensures r.Done? ==> calls == old(calls) + RemoveCalls(old(kernel.state), addr.ip, options)
      ensures !r.Done? ==> calls == old(calls)
    {
      hide IsLinkLocal, KeyedByIP, Globals, HasIP, Contains, Entry;
      ghost var s := kernel.state;
      var is4 := Is4(addr.ip);
      var ok, gateway4, gateway6, familyRoute := CaptureRoutes(kernel, is4);
      if !ok { return KernelError; }
      var gw := GatewayOf(familyRoute);
      var addrs;
      ok, addrs := kernel.AddrList();
      if !ok { return KernelError; }
      PresentInBoth(s, addr.ip);
      var primary := PrimaryIn(addrs, is4);
      PrimaryOfBoth(s, is4);
      var nlAddr, routeToGateway, addresses := ScanOthers(addrs, addr.ip, gw);
      if primary == Some(addr.ip) && !options.allowPrimaryRemoval { return PrimaryRefused; }
      if gw.Some? && !routeToGateway { return LosesGateway; }
      if nlAddr.Some? {
        NothingDrops(s, addr.ip);
        EntryOfBoth(s, addr.ip);
        ghost var dropped;
        ok, dropped := kernel.AddrDel(nlAddr.value.ip);
        if !ok { return KernelError; }
        if !options.skipConnectivityCheck {
          var internet: bool := *;
          if !internet {
            ok := kernel.AddrReplace(nlAddr.value);
            if !ok { return KernelError; }
            PutAfterDelete(Family(s, is4), addr.ip);
            return Aborted;
          }
        }
      } else {
        NothingToRemove(s, addr.ip);
      }
      if !options.skipPanels { calls := calls + [RemoveIP(addr.ip)]; }
      calls := calls + [ApplyAddresses(addresses, gateway4, gateway6)];
      return Done;
    }
  }

  function AddCalls(s: State, addr: IPNet, gateway: Option<IP>, options: Options): seq<BackendCall> {
    var after := AfterAdd(s, addr, gateway);
    var apply := ApplyAddresses(BackendAddresses(s, addr), GatewayOf(after.route4), GatewayOf(after.route6));
    if options.skipPanels then [apply] else [apply, ReloadPanels]
  }

  // Raising the link changes nothing that the rest depends on.
  lemma LiftedState(s: State, addr: IPNet, gateway: Option<IP>)
    ensures var t := s.(up := true);
            && AfterAdd(t, addr, gateway) == AfterAdd(s, addr, gateway)
            && BackendAddresses(t, addr) == BackendAddresses(s, addr)
            && (Present(t, addr.ip) <==> Present(s, addr.ip))
    ensures forall after :: Undone(s.(up := true), addr, gateway, after) ==> Undone(s, addr, gateway, after.(up := s.up))
  {
    hide HasIP, Put, IsLinkLocal, Globals;
  }

  // ---------------------------------------------------------------------- promoting

  function AfterPromote(s: State, ip: IP): State
    requires HasIP(Globals(Family(s, Is4(ip))), ip)
  {
    var list := Family(s, Is4(ip));
    if Globals(list) != [] && Globals(list)[0].ip == ip then s
    else WithFamily(s, Is4(ip), LinkLocals(list) + InFront(Globals(list), ip))
  }

  function PromoteUndone(s: State, is4: bool): State {
    WithFamily(s, is4, LinkLocals(Family(s, is4)) + Globals(Family(s, is4)))
  }

  function PromoteCalls(s: State, addr: IPNet, options: Options): seq<BackendCall> {
    var apply := ApplyAddresses(Promoted(Globals(s.v4 + s.v6), addr), GatewayOf(s.route4), GatewayOf(s.route6));
    if options.skipPanels then [apply] else [apply, ReloadPanels, SetMainIP(addr.ip)]
  }

  lemma GlobalsHeld(list: seq<IPNet>, is4: bool)
    requires KeyedByIP(list, is4)
    ensures HoldsGlobals(list, Globals(list)) && KeyedByIP(Globals(list), is4)
  {
    hide IsLinkLocal;
    GlobalsMembers(list);
    forall ip ensures HasIP(Globals(list), ip) <==> HasIP(list, ip) && !IsLinkLocal(ip) {
      InGlobals(list, ip);
    }
    GlobalsKeyed(list, is4);
  }

  lemma {:induction false} GlobalsKeyed(list: seq<IPNet>, is4: bool)
    requires KeyedByIP(list, is4)
    ensures KeyedByIP(Globals(list), is4)
  {
    hide IsLinkLocal;
    if list != [] {
      GlobalsKeyed(list[1..], is4);
      GlobalsMembers(list[1..]);
      var rest := Globals(list[1..]);
      forall j: nat | j < |rest| ensures rest[j].ip != list[0].ip {
        assert rest[j] in rest && rest[j] in list[1..];
      }
    }
  }

  lemma {:induction false} InGlobals(list: seq<IPNet>, ip: IP)
    ensures HasIP(Globals(list), ip) <==> HasIP(list, ip) && !IsLinkLocal(ip)
  {
    assert !HasIP([], ip);
    hide IsLinkLocal, HasIP;
    if list != [] {
      InGlobals(list[1..], ip);
      HasIPStep(list, ip);
      var rest := Globals(list[1..]);
      HasIPStep([list[0]] + rest, ip);
      assert ([list[0]] + rest)[1..] == rest;
    }
  }

  lemma FamilyFacts(list: seq<IPNet>, is4: bool, ip: IP)
    requires KeyedByIP(list, is4)
    ensures HoldsGlobals(list, Globals(list)) && KeyedByIP(Globals(list), is4)
    ensures HasIP(Globals(list), ip) <==> HasIP(list, ip) && !IsLinkLocal(ip)
  {
    GlobalsHeld(list, is4);
    InGlobals(list, ip);
  }

  lemma FirstIsThere(list: seq<IPNet>, ip: IP)
    requires list != [] && list[0].ip == ip
    ensures HasIP(list, ip)
  {}

  lemma PresentInBoth(s: State, ip: IP)
    requires Wellformed(s)
    ensures HasIP(s.v4 + s.v6, ip) <==> Present(s, ip)
  {
    OtherFamily(s, ip);
  }

  lemma InFrontKeyed(list: seq<IPNet>, ip: IP, is4: bool)
    requires KeyedByIP(list, is4) && HasIP(list, ip)
    ensures KeyedByIP(InFront(list, ip), is4) && forall x :: x in InFront(list, ip) <==> x in list
  {
    var i: nat :| i < |list| && list[i].ip == ip;
    TakeOut(list, ip, i, is4);
    hide Without, Entry, HasIP, KeyedByIP;
    var front := [list[i]] + list[..i] + list[i + 1..];
    assert InFront(list, ip) == front;
    FrontMembers(list, i, front);
    FrontDistinct(list, i, front, is4);
  }

  lemma FrontMembers(list: seq<IPNet>, i: nat, front: seq<IPNet>)
    requires i < |list| && front == [list[i]] + list[..i] + list[i + 1..]
    ensures forall x :: x in front <==> x in list
  {
    assert list == list[..i] + [list[i]] + list[i + 1..];
  }

  lemma FrontDistinct(list: seq<IPNet>, i: nat, front: seq<IPNet>, is4: bool)
    requires KeyedByIP(list, is4) && i < |list| && front == [list[i]] + list[..i] + list[i + 1..]
    ensures KeyedByIP(front, is4)
  {
    assert forall a: nat | a < |front| :: front[a] == if a == 0 then list[i] else if a <= i then list[a - 1] else list[a];
  }

  lemma DesiredIsGood(list: seq<IPNet>, ip: IP, is4: bool, order: seq<Option<IPNet>>)
    requires KeyedByIP(list, is4) && HasIP(Globals(list), ip) && AllSome(order)
             && Values(order) == InFront(Globals(list), ip)
    ensures GoodOrder(order, is4)
  {
    hide IsLinkLocal, InFront;
    GlobalsHeld(list, is4);
    GlobalsMembers(list);
    InFrontKeyed(Globals(list), ip, is4);
    forall i: nat | i < |order| ensures !IsLinkLocal(Values(order)[i].ip) {
      assert Values(order)[i] in InFront(Globals(list), ip);
    }
  }

  // After the new order is in place the old one can be re-applied.
  lemma BackIsGood(list: seq<IPNet>, ip: IP, is4: bool, back: seq<Option<IPNet>>)
    requires KeyedByIP(list, is4) && HasIP(Globals(list), ip) && AllSome(back) && Values(back) == Globals(list)
    ensures |back| > 0 && GoodOrder(back, is4)
    ensures var now := LinkLocals(list) + InFront(Globals(list), ip);
            HoldsGlobals(now, Globals(list)) && LinkLocals(now) == LinkLocals(list)
  {
    hide IsLinkLocal, InFront;
    GlobalsHeld(list, is4);
    GlobalsMembers(list);
    LinkLocalsMembers(list);
    InFrontKeyed(Globals(list), ip, is4);
    forall i: nat | i < |back| ensures !IsLinkLocal(Values(back)[i].ip) {
      assert Values(back)[i] in Globals(list);
    }
    hide GoodOrder, KeyedByIP;
    NowHolds(list, InFront(Globals(list), ip));
  }

  lemma NowHolds(list: seq<IPNet>, front: seq<IPNet>)
    requires forall x :: x in front <==> x in Globals(list)
    ensures var now := LinkLocals(list) + front;
            HoldsGlobals(now, Globals(list)) && LinkLocals(now) == LinkLocals(list)
  {
    hide IsLinkLocal;
    GlobalsMembers(list);
    LinkLocalsMembers(list);
    var now := LinkLocals(list) + front;
    forall ip ensures HasIP(Globals(list), ip) <==> HasIP(now, ip) && !IsLinkLocal(ip) {
      HasIPAppend(LinkLocals(list), front, ip);
      SameIPs(front, Globals(list), ip);
      InLinkLocals(list, ip);
      InGlobals(list, ip);
    }
    LinkLocalsOf(LinkLocals(list), front);
  }

  lemma SameIPs(a: seq<IPNet>, b: seq<IPNet>, ip: IP)
    requires forall x :: x in a <==> x in b
    ensures HasIP(a, ip) <==> HasIP(b, ip)
  {
    if i: nat :| i < |a| && a[i].ip == ip {
      assert a[i] in b;
      var j: nat :| j < |b| && b[j] == a[i];
    }
    if i: nat :| i < |b| && b[i].ip == ip {
      assert b[i] in a;
      var j: nat :| j < |a| && a[j] == b[i];
    }
  }

  lemma InLinkLocals(list: seq<IPNet>, ip: IP)
    ensures HasIP(LinkLocals(list), ip) ==> IsLinkLocal(ip)
  {
    hide IsLinkLocal;
    LinkLocalsMembers(list);
    if i: nat :| i < |LinkLocals(list)| && LinkLocals(list)[i].ip == ip {
      assert LinkLocals(list)[i] in LinkLocals(list);
    }
  }

  lemma {:induction false} LinkLocalsOf(a: seq<IPNet>, b: seq<IPNet>)
    requires (forall i: nat | i < |a| :: IsLinkLocal(a[i].ip)) && forall i: nat | i < |b| :: !IsLinkLocal(b[i].ip)
    ensures LinkLocals(a + b) == a
  {
    hide IsLinkLocal;
    if a != [] {
      assert (a + b)[1..] == a[1..] + b;
      LinkLocalsOf(a[1..], b);
    } else {
      assert a + b == b;
      if b != [] {
        assert [] + b[1..] == b[1..];
        LinkLocalsOf([], b[1..]);
      }
    }
  }
}
