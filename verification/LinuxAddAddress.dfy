// configurator_linux.go: AddAddress, step by step against the kernel, with the undo
// it makes when the connection is lost.
module LinuxAddAddress {
  import opened Text
  import opened Net
  import opened AddressLists
  import opened LinuxKernel

  // Calls to the configuration backends and the control panels.
  datatype BackendCall =
    | ApplyAddresses(addrs: seq<IPNet>, gateway4: Option<IP>, gateway6: Option<IP>)
    | ReloadPanels
    | SetMainIP(ip: IP)
    | RemoveIP(ip: IP)

  datatype Outcome =
    | Done
    | KernelError
    | Unreachable     // the gateway is not reachable from the network
    | Responds        // the new address answers to ping
    | NotFound        // the address to promote is not on the interface
    | PrimaryRefused  // removing the primary address is not allowed
    | LosesGateway    // no other address reaches the gateway
    | Aborted         // undone, because the internet was lost
    | Crashed         // a nil pointer is dereferenced

  datatype Options = Options(skipConnectivityCheck: bool, skipPanels: bool, allowPrimaryRemoval: bool)

  function Globals(list: seq<IPNet>): seq<IPNet> {
    if list == [] then []
    else if IsLinkLocal(list[0].ip) then Globals(list[1..])
    else [list[0]] + Globals(list[1..])
  }

  lemma {:induction false} GlobalsAppend(a: seq<IPNet>, b: seq<IPNet>)
    ensures Globals(a + b) == Globals(a) + Globals(b)
  {
    hide IsLinkLocal;
    if a == [] {
      assert a + b == b;
    } else {
      assert (a + b)[1..] == a[1..] + b;
      GlobalsAppend(a[1..], b);
    }
  }

  lemma {:induction false} GlobalsMembers(list: seq<IPNet>)
    ensures forall x :: x in Globals(list) <==> x in list && !IsLinkLocal(x.ip)
  {
    hide IsLinkLocal;
    if list != [] { GlobalsMembers(list[1..]); }
  }

  // ------------------------------------------------------------ what it should do

  // No gateway keeps the default route, the zero address removes it, another sets it.
  function NewDefault(d: Default, gateway: Option<IP>, is4: bool): Default {
    match gateway
    case None => d
    case Some(g) => if g == Zero(is4) then NoRoute else Via(g)
  }

  function AfterAdd(s: State, addr: IPNet, gateway: Option<IP>): State {
    var is4 := Is4(addr.ip);
    WithRoute(Replaced(s, addr), is4, NewDefault(RouteOf(s, is4), gateway, is4)).(up := true)
  }

  predicate Present(s: State, ip: IP) { HasIP(Family(s, Is4(ip)), ip) }

  // The addresses the backends are given: those that are not link-local, in kernel
  // order, with the new mask; a new address stands last, whatever its family or scope.
  function BackendAddresses(s: State, addr: IPNet): seq<IPNet> {
    if Present(s, addr.ip) then Globals(Replaced(s, addr).v4 + Replaced(s, addr).v6)
    else Globals(s.v4 + s.v6) + [addr]
  }

  predicate Acceptable(addr: IPNet, gateway: Option<IP>) {
    gateway.Some? && gateway.value != Zero(Is4(addr.ip)) ==> Contains(addr, gateway.value) || IsLinkLocal(gateway.value)
  }

  // What the undo leaves, when no kernel call fails.
  predicate Undone(s: State, addr: IPNet, gateway: Option<IP>, after: State) {
    var is4 := Is4(addr.ip);
    && after.up == s.up
    && Family(after, !is4) == Family(s, !is4) && RouteOf(after, !is4) == RouteOf(s, !is4)
    && Family(after, is4) ==
       (if Present(s, addr.ip) && IsLinkLocal(addr.ip) then Put(Family(s, is4), addr) else Family(s, is4))
    && if RouteOf(s, is4).OnLink? && gateway.Some? then RouteOf(after, is4) in {NoRoute, Via(gateway.value)}
       else RouteOf(after, is4) == RouteOf(s, is4)
  }

  // ------------------------------------------------------------------- the addresses

  function Masked(list: seq<IPNet>, n: IPNet): (r: seq<IPNet>)
    ensures |r| == |list|
  {
    seq(|list|, i requires 0 <= i < |list| => if list[i].ip == n.ip then n else list[i])
  }

  lemma {:induction false} MaskedIsPut(list: seq<IPNet>, n: IPNet, is4: bool)
    requires KeyedByIP(list, is4)
    ensures Masked(list, n) == if HasIP(list, n.ip) then Put(list, n) else list
  {
    if k: nat :| k < |list| && list[k].ip == n.ip {
      PutBack(list, n, k, is4);
      forall i: nat | i < |list| ensures Masked(list, n)[i] == list[k := n][i] {
        assert i < k || i == k || k < i;
      }
    }
  }

  lemma OtherFamily(s: State, ip: IP)
    requires Wellformed(s)
    ensures !HasIP(Family(s, !Is4(ip)), ip)
    ensures HasIP(s.v4 + s.v6, ip) <==> Present(s, ip)
  {
    HasIPAppend(s.v4, s.v6, ip);
    var other := Family(s, !Is4(ip));
    forall i: nat | i < |other| ensures other[i].ip != ip { assert Is4(other[i].ip) == !Is4(ip); }
  }

  lemma MaskedAppend(a: seq<IPNet>, b: seq<IPNet>, n: IPNet)
    ensures Masked(a + b, n) == Masked(a, n) + Masked(b, n)
  {}

  lemma MaskedState(s: State, n: IPNet)
    requires Wellformed(s)
    ensures Masked(s.v4 + s.v6, n) ==
            if Present(s, n.ip) then Replaced(s, n).v4 + Replaced(s, n).v6 else s.v4 + s.v6
  {
    OtherFamily(s, n.ip);
    MaskedIsPut(s.v4, n, true);
    MaskedIsPut(s.v6, n, false);
    assert Masked(s.v4 + s.v6, n) == Masked(s.v4, n) + Masked(s.v6, n) by { MaskedAppend(s.v4, s.v6, n); }
    hide HasIP, Put, KeyedByIP, Masked, Wellformed;
  }

  lemma UniqueIn(s: State, i: nat, j: nat)
    requires Wellformed(s) && i < j < |s.v4 + s.v6|
    ensures (s.v4 + s.v6)[i].ip != (s.v4 + s.v6)[j].ip
  {
    var all, n := s.v4 + s.v6, |s.v4|;
    if j < n {
      assert all[i] == s.v4[i] && all[j] == s.v4[j];
    } else if i < n {
      assert all[i] == s.v4[i] && all[j] == s.v6[j - n];
      assert Is4(s.v4[i].ip) && !Is4(s.v6[j - n].ip);
    } else {
      assert all[i] == s.v6[i - n] && all[j] == s.v6[j - n];
    }
  }

  // The loop over the existing addresses: change the mask of the one that is there,
  // and keep the ones that are not link-local, as they were and as they are now.
  method UpdateMask(k: Kernel, addr: IPNet)
    returns (ok: bool, exists_: bool, addresses: seq<IPNet>, origAddresses: seq<IPNet>)
    requires Wellformed(k.state) && !k.failed
    modifies k
    ensures ok <==> !k.failed
    ensures ok ==> exists_ == Present(old(k.state), addr.ip)
    ensures ok ==> k.state == (if exists_ then Replaced(old(k.state), addr) else old(k.state))
    ensures ok ==> origAddresses == Globals(old(k.state).v4 + old(k.state).v6)
    ensures ok ==> addresses == Globals(Masked(old(k.state).v4 + old(k.state).v6, addr))
  {
    hide IsLinkLocal, Put, KeyedByIP, Globals;
    exists_, addresses, origAddresses := false, [], [];
    ghost var s := k.state;
    var addrs;
    ok, addrs := k.AddrList();
    if !ok { return; }
    EmptyLists(addr);
    assert addrs[..0] == [];
    for i := 0 to |addrs|
      invariant !k.failed && exists_ == HasIP(addrs[..i], addr.ip)
      invariant k.state == if exists_ then Replaced(s, addr) else s
      invariant origAddresses == Globals(addrs[..i]) && addresses == Globals(Masked(addrs[..i], addr))
    {
      var address := addrs[i];
      ListsStep(addrs, i, addr);
      if address.ip == addr.ip { FirstTime(s, addrs, i, addr); }
      if !IsLinkLocal(address.ip) { origAddresses := origAddresses + [address]; }
      if address.ip == addr.ip {
        exists_ := true;
        address := IPNetwork.IPNet(address.ip, addr.mask);
        ok := k.AddrReplace(address);
        if !ok { return; }
      }
      if IsLinkLocal(address.ip) { continue; }
      addresses := addresses + [address];
    }
    assert addrs[..|addrs|] == addrs;
    OtherFamily(s, addr.ip);
  }

  lemma EmptyLists(addr: IPNet)
    ensures Globals([]) == [] && !HasIP([], addr.ip) && Globals(Masked([], addr)) == []
  {}

  lemma FirstTime(s: State, addrs: seq<IPNet>, i: nat, addr: IPNet)
    requires Wellformed(s) && addrs == s.v4 + s.v6 && i < |addrs| && addrs[i].ip == addr.ip
    ensures !HasIP(addrs[..i], addr.ip)
  {
    forall j: nat | j < i ensures addrs[..i][j].ip != addr.ip { UniqueIn(s, j, i); }
  }

  lemma ListsStep(addrs: seq<IPNet>, i: nat, addr: IPNet)
    requires i < |addrs|
    ensures var a := addrs[i];
            var m := if a.ip == addr.ip then addr else a;
            && (HasIP(addrs[..i + 1], addr.ip) <==> HasIP(addrs[..i], addr.ip) || a.ip == addr.ip)
            && Globals(addrs[..i + 1]) == (if IsLinkLocal(a.ip) then Globals(addrs[..i]) else Globals(addrs[..i]) + [a])
            && Globals(Masked(addrs[..i + 1], addr)) ==
               (if IsLinkLocal(a.ip) then Globals(Masked(addrs[..i], addr)) else Globals(Masked(addrs[..i], addr)) + [m])
  {
    hide IsLinkLocal;
    var a := addrs[i];
    var m := if a.ip == addr.ip then addr else a;
    assert addrs[..i + 1] == addrs[..i] + [a];
    assert Masked(addrs[..i + 1], addr) == Masked(addrs[..i], addr) + [m];
    GlobalsAppend(addrs[..i], [a]);
    GlobalsAppend(Masked(addrs[..i], addr), [m]);
    HasIPAppend(addrs[..i], [a], addr.ip);
    assert [a][0].ip == a.ip;
  }

  // ---------------------------------------------------------------------- the route

  // The route a default is changed into, when there is one to change.
  function ChangedDefault(d: Default, gateway: Option<IP>, is4: bool): Default {
    if d.NoRoute? then NoRoute else NewDefault(d, gateway, is4)
  }

  // The loop over the default routes: change or remove the one of the family.
  method UpdateRoute(k: Kernel, is4: bool, gateway0: Option<IP>)
    returns (ok: bool, gateway: Option<IP>, gateway4: Option<IP>, gateway6: Option<IP>, origGw: Option<IP>)
    requires !k.failed
    modifies k
    ensures ok <==> !k.failed
    ensures ok ==> k.state == WithRoute(old(k.state), is4, ChangedDefault(RouteOf(old(k.state), is4), gateway0, is4))
    ensures ok ==> gateway == if gateway0.None? then GatewayOf(RouteOf(old(k.state), is4)) else gateway0
    ensures ok ==> gateway4 == GatewayOf(k.state.route4) && gateway6 == GatewayOf(k.state.route6)
    ensures ok ==> origGw == GatewayOf(RouteOf(old(k.state), is4))
  {
    gateway, gateway4, gateway6, origGw := gateway0, None, None, None;
    ghost var s := k.state;
    var routes;
    ok, routes := k.RouteList();
    if !ok { return; }
    var seen4, seen6 := false, false;
    for i := 0 to |routes|
      invariant !k.failed && routes == Defaults(s)
      invariant seen4 == (i > 0 && !s.route4.NoRoute?) && seen6 == (i == |routes| && !s.route6.NoRoute?)
      invariant var seen := if is4 then seen4 else seen6;
                && k.state == (if seen then WithRoute(s, is4, NewDefault(RouteOf(s, is4), gateway0, is4)) else s)
                && origGw == (if seen then GatewayOf(RouteOf(s, is4)) else None)
                && gateway == (if seen && gateway0.None? then GatewayOf(RouteOf(s, is4)) else gateway0)
      invariant gateway4 == if seen4 then GatewayOf(k.state.route4) else None
      invariant gateway6 == if seen6 then GatewayOf(k.state.route6) else None
    {
      var route := routes[i];
      if (route.is4 && seen4) || (!route.is4 && seen6) { continue; }
      if route.is4 == is4 {
        origGw := route.gw;
        if gateway.None? {
          gateway := route.gw;
        } else if gateway.value == Zero(is4) {
          var r := k.RouteDel(is4);
          if !r.Removed? {
            ok := false;
            return;
          }
          route := route.(gw := None);
        } else {
          route := route.(gw := gateway);
          ok := k.RouteChange(is4, gateway.value);
          if !ok { return; }
        }
      }
      if route.is4 {
        gateway4 := route.gw;
        seen4 := true;
      } else {
        gateway6 := route.gw;
        seen6 := true;
      }
      if seen4 && seen6 { break; }
    }
  }

  // ----------------------------------------------------------------------- the undo

  // Where re-applying the original addresses one by one has got to: the family of the
  // changed address has its old list back once its own original has been re-applied.
  ghost predicate Reapplied(s: State, addr: IPNet, now: State, masked: bool, done: seq<IPNet>) {
    && Family(now, !Is4(addr.ip)) == Family(s, !Is4(addr.ip)) && now.up
    && Family(now, Is4(addr.ip)) ==
       if masked && !HasIP(done, addr.ip) then Put(Family(s, Is4(addr.ip)), addr) else Family(s, Is4(addr.ip))
  }

  lemma PutSame(list: seq<IPNet>, n: IPNet, is4: bool)
    requires KeyedByIP(list, is4) && n in list
    ensures Put(list, n) == list
  {
    var k: nat :| k < |list| && list[k] == n;
    PutBack(list, n, k, is4);
  }

  lemma PutOriginal(list: seq<IPNet>, addr: IPNet, n: IPNet, is4: bool)
    requires KeyedByIP(list, is4) && n in list && HasIP(list, addr.ip)
    ensures Put(Put(list, addr), n) == if n.ip == addr.ip then list else Put(list, addr)
  {
    var k: nat :| k < |list| && list[k].ip == addr.ip;
    var j: nat :| j < |list| && list[j] == n;
    assert n.ip == addr.ip ==> j == k by { assert j < k || k < j || j == k; }
    PutBack(list, addr, k, is4);
    hide Put;
    var changed := list[k := addr];
    if n.ip != addr.ip {
      ChangedKeyed(list, addr, k, is4);
      assert changed[j] == n;
      PutSame(changed, n, is4);
    }
  }

  lemma ChangedKeyed(list: seq<IPNet>, addr: IPNet, k: nat, is4: bool)
    requires KeyedByIP(list, is4) && k < |list| && list[k].ip == addr.ip
    ensures KeyedByIP(list[k := addr], is4)
  {
    var changed := list[k := addr];
    assert forall i: nat | i < |list| :: changed[i].ip == list[i].ip;
  }

  lemma ReapplyOne(s: State, addr: IPNet, now: State, masked: bool, done: seq<IPNet>, n: IPNet)
    requires Wellformed(s) && Reapplied(s, addr, now, masked, done) && n in s.v4 + s.v6
    requires masked ==> Present(s, addr.ip)
    ensures Reapplied(s, addr, Replaced(now, n), masked, done + [n])
  {
    OneMoreDone(done, n, addr.ip);
    InItsFamily(s, n);
    ReplacedFamily(now, n);
    hide HasIP, Put, KeyedByIP, Wellformed, Replaced, Family;
    PutSame(Family(s, Is4(n.ip)), n, Is4(n.ip));
    if Is4(n.ip) == Is4(addr.ip) {
      if masked { PutOriginal(Family(s, Is4(n.ip)), addr, n, Is4(n.ip)); }
    } else {
      assert n.ip != addr.ip;
    }
  }

  lemma ReplacedFamily(now: State, n: IPNet)
    ensures var after := Replaced(now, n);
            && after.up == now.up && Family(after, Is4(n.ip)) == Put(Family(now, Is4(n.ip)), n)
            && Family(after, !Is4(n.ip)) == Family(now, !Is4(n.ip))
  {
    hide Put;
  }

  lemma OneMoreDone(done: seq<IPNet>, n: IPNet, ip: IP)
    ensures HasIP(done + [n], ip) <==> HasIP(done, ip) || n.ip == ip
  {
    HasIPAppend(done, [n], ip);
    assert HasIP([n], ip) <==> n.ip == ip by { assert [n][0].ip == n.ip; }
  }

  lemma InItsFamily(s: State, n: IPNet)
    requires Wellformed(s) && n in s.v4 + s.v6
    ensures n in Family(s, Is4(n.ip)) && KeyedByIP(Family(s, Is4(n.ip)), Is4(n.ip))
  {
    var k: nat :| k < |s.v4 + s.v6| && (s.v4 + s.v6)[k] == n;
    if k < |s.v4| { assert s.v4[k] == n; } else { assert s.v6[k - |s.v4|] == n; }
  }

  // Put the addresses back, one at a time.
  method ReapplyAll(k: Kernel, addr: IPNet, exists_: bool, origAddresses: seq<IPNet>, ghost s: State) returns (ok: bool)
    requires Wellformed(s) && !k.failed && origAddresses == Globals(s.v4 + s.v6) && exists_ == Present(s, addr.ip)
    requires Reapplied(s, addr, k.state, exists_, [])
    modifies k
    ensures ok <==> !k.failed
    ensures ok ==> Reapplied(s, addr, k.state, exists_, origAddresses)
    ensures ok ==> forall is4 :: RouteOf(k.state, is4) == RouteOf(old(k.state), is4)
  {
    hide IsLinkLocal, Put, KeyedByIP, Globals, HasIP, Without, Reapplied, OnlyThrough, Wellformed;
    GlobalsMembers(s.v4 + s.v6);
    assert origAddresses[..0] == [];
    for i := 0 to |origAddresses|
      invariant !k.failed && Reapplied(s, addr, k.state, exists_, origAddresses[..i])
      invariant forall is4 :: RouteOf(k.state, is4) == RouteOf(old(k.state), is4)
    {
      var orig := origAddresses[i];
      assert orig in Globals(s.v4 + s.v6);
      ReapplyOne(s, addr, k.state, exists_, origAddresses[..i], orig);
      assert origAddresses[..i + 1] == origAddresses[..i] + [orig];
      ok := k.AddrReplace(orig);
      if !ok { return; }
    }
    assert origAddresses[..|origAddresses|] == origAddresses;
    ok := true;
  }

  // Put the addresses and the default route back.
  method RollBack(k: Kernel, addr: IPNet, exists_: bool, origAddresses: seq<IPNet>, origGw: Option<IP>, added: bool,
                  ghost s: State, ghost gateway: Option<IP>)
    returns (ok: bool)
    requires Wellformed(s) && !k.failed && k.state == AfterAdd(s, addr, gateway)
    requires exists_ == Present(s, addr.ip) && origAddresses == Globals(s.v4 + s.v6)
    requires origGw == GatewayOf(RouteOf(s, Is4(addr.ip)))
    requires added ==> RouteOf(s, Is4(addr.ip)).NoRoute?
    requires !added && RouteOf(s, Is4(addr.ip)).NoRoute? ==> gateway.None?
    requires gateway.Some? ==> gateway.value != Zero(Is4(addr.ip))
    modifies k
    ensures ok <==> !k.failed
    ensures ok ==> Undone(s.(up := true), addr, gateway, k.state)
  {
    hide IsLinkLocal, Put, KeyedByIP, Globals, HasIP, Without, Reapplied, OnlyThrough, Wellformed;
    var is4 := Is4(addr.ip);
    DeletedAgain(s, addr, gateway, k.state);
    if !exists_ {
      ghost var dropped;
      ok, dropped := k.AddrDel(addr.ip);
      if !ok { return; }
      if dropped { DroppedWasVia(AfterAdd(s, addr, gateway), addr.ip); }
    }
    ghost var d := RouteOf(k.state, is4);
    ghost var changed := NewDefault(RouteOf(s, is4), gateway, is4);
    assert d == changed || (d.NoRoute? && changed.Via?);
    NoneDone(addr);
    ok := ReapplyAll(k, addr, exists_, origAddresses, s);
    if !ok { return; }
    assert RouteOf(k.state, is4) == d && RouteOf(k.state, !is4) == RouteOf(s, !is4);
    AllReapplied(s, addr, k.state, exists_, origAddresses);
    if origGw.Some? {
      ok := k.RouteReplace(is4, Via(origGw.value));
    } else if added {
      var r := k.RouteDel(is4);
      ok := !r.Refused?;
    }
  }

  lemma DroppedWasVia(s: State, ip: IP)
    requires OnlyThrough(s, ip)
    ensures RouteOf(s, Is4(ip)).Via?
  {}

  lemma NoneDone(addr: IPNet)
    ensures !HasIP([], addr.ip)
  {}

  lemma DeletedAgain(s: State, addr: IPNet, gateway: Option<IP>, now: State)
    requires Wellformed(s) && now == AfterAdd(s, addr, gateway)
    ensures Present(now, addr.ip)
    ensures Present(s, addr.ip) ==> Reapplied(s, addr, now, true, [])
    ensures !Present(s, addr.ip) ==> forall dropped :: Reapplied(s, addr, Deleted(now, addr.ip, dropped), false, [])
    ensures RouteOf(now, !Is4(addr.ip)) == RouteOf(s, !Is4(addr.ip))
  {
    hide Put, Without, HasIP, OnlyThrough, KeyedByIP, Wellformed;
    var list := Family(s, Is4(addr.ip));
    PutFacts(list, addr);
    if !Present(s, addr.ip) { AddThenDelete(list, addr); }
    NoneDone(addr);
  }

  lemma AllReapplied(s: State, addr: IPNet, now: State, masked: bool, done: seq<IPNet>)
    requires Wellformed(s) && Reapplied(s, addr, now, masked, done) && done == Globals(s.v4 + s.v6)
    requires masked == Present(s, addr.ip)
    ensures now.up && Family(now, !Is4(addr.ip)) == Family(s, !Is4(addr.ip))
    ensures Family(now, Is4(addr.ip)) ==
            if Present(s, addr.ip)
            && IsLinkLocal(addr.ip) then Put(Family(s, Is4(addr.ip)), addr) else Family(s, Is4(addr.ip))
  {
    hide IsLinkLocal, Put, Globals, KeyedByIP;
    GlobalsMembers(s.v4 + s.v6);
    OtherFamily(s, addr.ip);
    if HasIP(s.v4 + s.v6, addr.ip) && !IsLinkLocal(addr.ip) {
      var k: nat :| k < |s.v4 + s.v6| && (s.v4 + s.v6)[k].ip == addr.ip;
      var n := (s.v4 + s.v6)[k];
      assert n in s.v4 + s.v6 && n in done;
      var j: nat :| j < |done| && done[j] == n;
      assert HasIP(done, addr.ip);
    }
    if HasIP(done, addr.ip) {
      var j: nat :| j < |done| && done[j].ip == addr.ip;
      assert done[j] in done && !IsLinkLocal(done[j].ip);
    }
  }
}
