// What the transactions of configurator_linux.go keep: when an undo restores, what the
// backends are told, and what holds over whole runs.
module LinuxRuns {
  import opened Text
  import opened Net
  import opened AddressLists
  import opened LinuxKernel
  import opened LinuxAddAddress
  import opened LinuxSetPrimary
  import opened LinuxRemoveAddress
  import opened LinuxConfigurator

  // ------------------------------------------------------------------ undo restores

  // The address is a link-local one that is there with another mask.
  predicate RemasksLinkLocal(s: State, addr: IPNet) {
    Present(s, addr.ip) && IsLinkLocal(addr.ip) && Entry(Family(s, Is4(addr.ip)), addr.ip).mask != addr.mask
  }

  // A gateway is asked for where the default route has none.
  predicate GivesGatewayToOnLink(s: State, addr: IPNet, gateway: Option<IP>) {
    RouteOf(s, Is4(addr.ip)).OnLink? && gateway.Some?
  }

  lemma PutChanges(list: seq<IPNet>, addr: IPNet, is4: bool)
    requires KeyedByIP(list, is4) && HasIP(list, addr.ip)
    ensures Put(list, addr) == list <==> Entry(list, addr.ip).mask == addr.mask
  {
    var i: nat :| i < |list| && list[i].ip == addr.ip;
    TakeOut(list, addr.ip, i, is4);
    PutBack(list, addr, i, is4);
  }

  // When the internet is lost and no kernel call fails, AddAddress leaves the kernel as
  // it found it, unless it changed the mask of a link-local address or gave a gateway to
  // an on-link default route. Those two it never restores.
  lemma AddUndoRestoresIff(s: State, addr: IPNet, gateway: Option<IP>, after: State)
    requires Wellformed(s) && Undone(s, addr, gateway, after)
    ensures after == s <==> !RemasksLinkLocal(s, addr) && !GivesGatewayToOnLink(s, addr, gateway)
  {
    hide IsLinkLocal;
    var is4 := Is4(addr.ip);
    if Present(s, addr.ip) { PutChanges(Family(s, is4), addr, is4); }
    hide Put, HasIP, KeyedByIP, Entry;
    assert after == s <==> Family(after, is4) == Family(s, is4) && RouteOf(after, is4) == RouteOf(s, is4);
  }

  // A link-local address stands after one that is not.
  predicate LinkLocalAfterGlobal(list: seq<IPNet>) {
    exists i, j :: 0 <= i < j < |list| && !IsLinkLocal(list[i].ip) && IsLinkLocal(list[j].ip)
  }

  // SetPrimaryAddress restores exactly when the family's link-local addresses come first:
  // it re-adds the others behind them.
  lemma PromoteUndoRestoresIff(s: State, is4: bool)
    ensures PromoteUndone(s, is4) == s <==> !LinkLocalAfterGlobal(Family(s, is4))
  {
    SplitsIff(Family(s, is4));
  }

  lemma {:induction false} SplitsIff(list: seq<IPNet>)
    ensures LinkLocals(list) + Globals(list) == list <==> !LinkLocalAfterGlobal(list)
  {
    hide IsLinkLocal;
    LinkLocalsMembers(list);
    GlobalsMembers(list);
    var a, b := LinkLocals(list), Globals(list);
    if a + b == list {
      forall k: nat | k < |list| ensures IsLinkLocal(list[k].ip) <==> k < |a| {
        assert if k < |a| then list[k] == a[k] && a[k] in a else list[k] == b[k - |a|] && b[k - |a|] in b;
      }
    } else if !LinkLocalAfterGlobal(list) {
      SplitSorted(list);
    }
  }

  lemma {:induction false} SplitSorted(list: seq<IPNet>)
    requires !LinkLocalAfterGlobal(list)
    ensures LinkLocals(list) + Globals(list) == list
  {
    hide IsLinkLocal;
    if list != [] {
      var rest := list[1..];
      assert !LinkLocalAfterGlobal(rest)
             && (IsLinkLocal(list[0].ip) || forall i: nat | i < |rest| :: !IsLinkLocal(rest[i].ip)) by {
        assert forall i: nat | i < |rest| :: rest[i] == list[i + 1];
      }
      hide LinkLocalAfterGlobal;
      SplitSorted(rest);
      assert list == [list[0]] + rest;
      if IsLinkLocal(list[0].ip) {
        assert ([list[0]] + LinkLocals(rest)) + Globals(rest) == [list[0]] + (LinkLocals(rest) + Globals(rest));
      } else {
        NoLinkLocals(rest);
        assert [] + Globals(rest) == Globals(rest);
        assert [] + ([list[0]] + Globals(rest)) == [list[0]] + Globals(rest);
      }
    }
  }

  lemma {:induction false} NoLinkLocals(list: seq<IPNet>)
    requires forall i: nat | i < |list| :: !IsLinkLocal(list[i].ip)
    ensures LinkLocals(list) == []
  {
    hide IsLinkLocal;
    if list != [] { NoLinkLocals(list[1..]); }
  }

  // RemoveAddress puts the address back at the end, so it restores exactly when the
  // address was the last of its family.
  lemma RemoveUndoRestoresIff(s: State, ip: IP)
    requires Wellformed(s) && Present(s, ip)
    ensures RemovalUndone(s, ip) == s <==> Family(s, Is4(ip))[|Family(s, Is4(ip))| - 1].ip == ip
  {
    var list := Family(s, Is4(ip));
    var i: nat :| i < |list| && list[i].ip == ip;
    TakeOut(list, ip, i, Is4(ip));
    var n := |list| - 1;
    var back := list[..i] + list[i + 1..] + [list[i]];
    if i == n {
      assert back == list;
    } else {
      assert back[n] == list[i] && list[n].ip != list[i].ip;
    }
  }

  // ------------------------------------------------------------- what backends are told

  // Per family, the backends are told the kernel's list without the link-local
  // addresses, except for a link-local address that has just been added.
  lemma AddTellsTheKernelsList(s: State, addr: IPNet, gateway: Option<IP>, is4: bool)
    requires Wellformed(s) && Acceptable(addr, gateway)
    ensures Wellformed(AfterAdd(s, addr, gateway))
    ensures OfFamily(BackendAddresses(s, addr), is4) ==
            Globals(Family(AfterAdd(s, addr, gateway), is4)) +
            if !Present(s, addr.ip) && IsLinkLocal(addr.ip) && is4 == Is4(addr.ip) then [addr] else []
  {
    AddWellformed(s, addr, gateway);
    hide IsLinkLocal, Globals, Wellformed, Present;
    if Present(s, addr.ip) { KnownTold(s, addr, gateway, is4); } else { NewTold(s, addr, gateway, is4); }
  }

  lemma KnownTold(s: State, addr: IPNet, gateway: Option<IP>, is4: bool)
    requires Wellformed(AfterAdd(s, addr, gateway)) && Present(s, addr.ip)
    ensures OfFamily(BackendAddresses(s, addr), is4) == Globals(Family(AfterAdd(s, addr, gateway), is4)) + []
  {
    var after := AfterAdd(s, addr, gateway);
    hide IsLinkLocal, Globals, Wellformed, Present, Put;
    assert after.v4 == Replaced(s, addr).v4 && after.v6 == Replaced(s, addr).v6;
    FamilyOfBoth(after, is4);
    assert Globals(Family(after, is4)) + [] == Globals(Family(after, is4));
  }

  lemma NewTold(s: State, addr: IPNet, gateway: Option<IP>, is4: bool)
    requires Wellformed(s) && !Present(s, addr.ip)
    ensures OfFamily(BackendAddresses(s, addr), is4) ==
            Globals(Family(AfterAdd(s, addr, gateway), is4)) + if IsLinkLocal(addr.ip) && is4 == Is4(addr.ip) then [addr] else []
  {
    var list := Family(s, Is4(addr.ip));
    FamilyOfBoth(s, is4);
    OfFamilyAppend(Globals(s.v4 + s.v6), addr, is4);
    PutFacts(list, addr);
    GlobalsAppend(list, [addr]);
    GlobalsOfOne(addr);
    hide IsLinkLocal, Globals;
  }

  lemma GlobalsOfOne(addr: IPNet)
    ensures Globals([addr]) == if IsLinkLocal(addr.ip) then [] else [addr]
  {}

  lemma AddWellformed(s: State, addr: IPNet, gateway: Option<IP>)
    requires Wellformed(s) && Acceptable(addr, gateway)
    ensures Wellformed(AfterAdd(s, addr, gateway))
  {
    hide IsLinkLocal;
    var list := Family(s, Is4(addr.ip));
    PutKeyed(list, addr);
  }

  lemma PutKeyed(list: seq<IPNet>, addr: IPNet)
    requires KeyedByIP(list, Is4(addr.ip))
    ensures KeyedByIP(Put(list, addr), Is4(addr.ip))
  {
    PutFacts(list, addr);
    if i: nat :| i < |list| && list[i].ip == addr.ip {
      PutBack(list, addr, i, Is4(addr.ip));
      ChangedKeyed(list, addr, i, Is4(addr.ip));
    } else {
      assert Put(list, addr) == list + [addr];
    }
  }

  lemma PromotedPrimary(list: seq<IPNet>, ip: IP, is4: bool)
    requires KeyedByIP(list, is4) && HasIP(list, ip)
    ensures InFront(list, ip)[0].ip == ip
    ensures list[0].ip == ip ==> InFront(list, ip) == list
  {
    EntryHasIP(list, ip);
    var i: nat :| i < |list| && list[i].ip == ip;
    TakeOut(list, ip, i, is4);
    assert i > 0 ==> list[0].ip != list[i].ip;
    if list[0].ip == ip {
      assert list == [list[0]] + list[1..];
    }
  }

  // The kernel's addresses of the family after a promotion: the promoted one, then the rest.
  lemma PromoteGlobals(s: State, ip: IP)
    requires Wellformed(s) && HasIP(Globals(Family(s, Is4(ip))), ip)
    ensures Globals(Family(AfterPromote(s, ip), Is4(ip))) == InFront(Globals(Family(s, Is4(ip))), ip)
  {
    var list := Family(s, Is4(ip));
    GlobalsHeld(list, Is4(ip));
    PromotedPrimary(Globals(list), ip, Is4(ip));
    if Globals(list)[0].ip != ip {
      InFrontKeyed(Globals(list), ip, Is4(ip));
      GlobalsMembers(list);
      LinkLocalsMembers(list);
      GlobalsAppend(LinkLocals(list), InFront(Globals(list), ip));
      NoGlobals(LinkLocals(list));
      AllGlobals(InFront(Globals(list), ip));
      assert [] + InFront(Globals(list), ip) == InFront(Globals(list), ip);
    }
  }

  lemma {:induction false} NoGlobals(list: seq<IPNet>)
    requires forall x :: x in list ==> IsLinkLocal(x.ip)
    ensures Globals(list) == []
  {
    hide IsLinkLocal;
    if list != [] {
      assert list[0] in list;
      NoGlobals(list[1..]);
    }
  }

  lemma {:induction false} AllGlobals(list: seq<IPNet>)
    requires forall x :: x in list ==> !IsLinkLocal(x.ip)
    ensures Globals(list) == list
  {
    hide IsLinkLocal;
    if list != [] {
      assert list[0] in list;
      AllGlobals(list[1..]);
      assert list == [list[0]] + list[1..];
    }
  }

  lemma {:induction false} WithoutOfFamily(list: seq<IPNet>, ip: IP, is4: bool)
    ensures OfFamily(Without(list, ip), is4) == Without(OfFamily(list, is4), ip)
  {
    if list != [] {
      WithoutOfFamily(list[1..], ip, is4);
      var a, b := Without(list[1..], ip), OfFamily(list[1..], is4);
      assert ([list[0]] + a)[1..] == a && ([list[0]] + b)[1..] == b;
    }
  }

  lemma {:induction false} WithoutGlobals(list: seq<IPNet>, ip: IP)
    ensures Globals(Without(list, ip)) == Without(Globals(list), ip)
  {
    hide IsLinkLocal;
    if list != [] {
      WithoutGlobals(list[1..], ip);
      var a, b := Without(list[1..], ip), Globals(list[1..]);
      assert ([list[0]] + a)[1..] == a && ([list[0]] + b)[1..] == b;
    }
  }

  // The promoted list taken apart: the target and the rest of its family, and the other family.
  lemma PromotedFamilies(s: State, addr: IPNet)
    requires Wellformed(s) && HasIP(Globals(Family(s, Is4(addr.ip))), addr.ip)
    ensures var told, is4 := Promoted(Globals(s.v4 + s.v6), addr), Is4(addr.ip);
            && OfFamily(told, is4) == [addr] + Without(Globals(Family(s, is4)), addr.ip)
            && OfFamily(told, !is4) == Globals(Family(s, !is4))
  {
    var all, is4, ip := Globals(s.v4 + s.v6), Is4(addr.ip), addr.ip;
    InGlobals(s.v4 + s.v6, ip);
    InGlobals(Family(s, is4), ip);
    InGlobals(Family(s, !is4), ip);
    OtherFamily(s, ip);
    FamilyOfBoth(s, is4);
    FamilyOfBoth(s, !is4);
    WithoutOfFamily(all, ip, is4);
    WithoutOfFamily(all, ip, !is4);
    OneOfFamily(addr);
    WithoutFacts(Globals(Family(s, !is4)), ip);
    hide Globals, Without, HasIP, IsLinkLocal, OfFamily;
    OfFamilyConcat([addr], Without(all, ip), is4);
    OfFamilyConcat([addr], Without(all, ip), !is4);
    assert [] + Globals(Family(s, !is4)) == Globals(Family(s, !is4));
  }

  lemma OneOfFamily(addr: IPNet)
    ensures OfFamily([addr], Is4(addr.ip)) == [addr] && OfFamily([addr], !Is4(addr.ip)) == []
  {}

  // After a promotion the backends are told, per family, the kernel's list, in which
  // the promoted address carries the caller's mask.
  lemma PromoteTellsTheKernelsList(s: State, addr: IPNet)
    requires Wellformed(s) && HasIP(Globals(Family(s, Is4(addr.ip))), addr.ip)
    ensures var told, is4 := Promoted(Globals(s.v4 + s.v6), addr), Is4(addr.ip);
            var kept := Globals(Family(AfterPromote(s, addr.ip), is4));
            && |kept| > 0 && kept[0].ip == addr.ip
            && OfFamily(told, is4) == kept[0 := addr]
            && OfFamily(told, !is4) == Globals(Family(AfterPromote(s, addr.ip), !is4))
  {
    var is4, ip := Is4(addr.ip), addr.ip;
    var list := Globals(Family(s, is4));
    PromoteGlobals(s, ip);
    PromotedFamilies(s, addr);
    GlobalsKeyed(Family(s, is4), is4);
    PromotedPrimary(list, ip, is4);
    hide Globals, Without, Entry, HasIP, OfFamily, LinkLocals;
    assert [addr] + Without(list, ip) == InFront(list, ip)[0 := addr];
  }

  // After a removal the backends are told the kernel's list.
  lemma RemoveTellsTheKernelsList(s: State, ip: IP, is4: bool)
    requires Wellformed(s)
    ensures OfFamily(Without(Globals(s.v4 + s.v6), ip), is4) == Globals(Family(AfterRemove(s, ip), is4))
  {
    WithoutOfFamily(Globals(s.v4 + s.v6), ip, is4);
    FamilyOfBoth(s, is4);
    WithoutGlobals(Family(s, is4), ip);
    if is4 != Is4(ip) {
      OtherFamily(s, ip);
      InGlobals(Family(s, is4), ip);
      WithoutFacts(Globals(Family(s, is4)), ip);
    }
  }

  // --------------------------------------------------------------- undo that fails

  function Net4(a: bv8, b: bv8, c: bv8, d: bv8, mask: seq<bv8>): IPNet
    requires |mask| == 4
  {
    IPNetwork.IPNet([a, b, c, d], mask)
  }

  const MASK16: seq<bv8> := [0xff, 0xff, 0, 0]
  const MASK24: seq<bv8> := [0xff, 0xff, 0xff, 0]

  // Widening the mask of a link-local address, and giving a gateway where the default
  // route is on-link: both are acceptable requests, and neither is undone.
  lemma AddUndoFails()
    ensures var linkLocal := Net4(169, 254, 0, 1, MASK24);
            var s := State([linkLocal, Net4(10, 0, 0, 2, MASK24)], [], Via([10, 0, 0, 1]), NoRoute, true);
            var addr := Net4(169, 254, 0, 1, MASK16);
            Wellformed(s) && Acceptable(addr, None) && RemasksLinkLocal(s, addr)
    ensures var s := State([Net4(10, 0, 0, 2, MASK24)], [], OnLink, NoRoute, true);
            var addr, gateway := Net4(10, 0, 0, 3, MASK24), Some([10, 0, 0, 1]);
            Wellformed(s) && Acceptable(addr, gateway) && GivesGatewayToOnLink(s, addr, gateway)
  {
    var linkLocal := Net4(169, 254, 0, 1, MASK24);
    var list := [linkLocal, Net4(10, 0, 0, 2, MASK24)];
    assert list[0].ip == [169, 254, 0, 1];
    assert HasIP(list, [169, 254, 0, 1]) && Entry(list, [169, 254, 0, 1]) == linkLocal;
    var gw: IP := [10, 0, 0, 1];
    var addr := Net4(10, 0, 0, 3, MASK24);
    forall i | 0 <= i < 4 ensures addr.ip[i] & addr.mask[i] == gw[i] & addr.mask[i] {}
  }

  // A link-local address between two others ends up in front of them.
  lemma PromoteUndoFails()
    ensures var list := [Net4(10, 0, 0, 2, MASK24), Net4(169, 254, 0, 1, MASK16), Net4(10, 0, 0, 3, MASK24)];
            var s := State(list, [], Via([10, 0, 0, 1]), NoRoute, true);
            Wellformed(s) && LinkLocalAfterGlobal(list) && PromoteUndone(s, true) != s
  {
    var list := [Net4(10, 0, 0, 2, MASK24), Net4(169, 254, 0, 1, MASK16), Net4(10, 0, 0, 3, MASK24)];
    assert !IsLinkLocal(list[0].ip) && IsLinkLocal(list[1].ip);
    PromoteUndoRestoresIff(State(list, [], Via([10, 0, 0, 1]), NoRoute, true), true);
  }

  // Promoting a link-local address, which crashes: all that is left of the family then is
  // the address itself.
  lemma PromoteCrashes()
    ensures var global, linkLocal := Net4(10, 0, 0, 2, MASK24), Net4(169, 254, 0, 1, MASK16);
            var s := State([global, linkLocal], [], Via([10, 0, 0, 1]), NoRoute, true);
            && Wellformed(s) && Present(s, linkLocal.ip) && IsLinkLocal(linkLocal.ip)
            && LinkLocals(Family(s, true)) == [linkLocal]
  {
    var list := [Net4(10, 0, 0, 2, MASK24), Net4(169, 254, 0, 1, MASK16)];
    assert list[1].ip == [169, 254, 0, 1] && !IsLinkLocal(list[0].ip) && IsLinkLocal(list[1].ip);
    assert list[1..] == [list[1]] && [list[1]][1..] == [] && LinkLocals([]) == [];
    assert [list[1]] + [] == [list[1]];
    assert LinkLocals([list[1]]) == [list[1]] && LinkLocals(list) == LinkLocals(list[1..]);
  }

  // The middle one of three addresses comes back as the last.
  lemma RemoveUndoFails(options: Options)
    ensures var list := [Net4(10, 0, 0, 2, MASK24), Net4(10, 0, 0, 3, MASK24), Net4(10, 0, 0, 4, MASK24)];
            var s, ip := State(list, [], Via([10, 0, 0, 1]), NoRoute, true), [10, 0, 0, 3];
            && Wellformed(s) && Present(s, ip) && !RemovalRefused(s, ip, options) && KeepsGateway(s, ip)
            && RemovalUndone(s, ip) != s
  {
    var list := [Net4(10, 0, 0, 2, MASK24), Net4(10, 0, 0, 3, MASK24), Net4(10, 0, 0, 4, MASK24)];
    var s, ip := State(list, [], Via([10, 0, 0, 1]), NoRoute, true), [10, 0, 0, 3];
    assert list[1].ip == ip && list + [] == list;
    var gw: IP := [10, 0, 0, 1];
    forall i | 0 <= i < 4 ensures list[0].ip[i] & list[0].mask[i] == gw[i] & list[0].mask[i] {}
    assert ReachesGateway(list[0], ip, gw);
    RemoveUndoRestoresIff(s, ip);
  }

  // ---------------------------------------------------------------------- whole runs

  datatype Op = Add(addr: IPNet, gateway: Option<IP>) | Promote(addr: IPNet) | Remove(addr: IPNet)

  // The operation can succeed in this state.
  predicate Succeeds(s: State, op: Op, options: Options) {
    match op
    case Add(addr, gateway) => Acceptable(addr, gateway)
    case Promote(addr) => HasIP(Globals(Family(s, Is4(addr.ip))), addr.ip)
    case Remove(addr) => !RemovalRefused(s, addr.ip, options) && KeepsGateway(s, addr.ip)
  }

  function Next(s: State, op: Op, options: Options): State
    requires Succeeds(s, op, options)
  {
    match op
    case Add(addr, gateway) => AfterAdd(s, addr, gateway)
    case Promote(addr) => AfterPromote(s, addr.ip)
    case Remove(addr) => AfterRemove(s, addr.ip)
  }

  predicate Run(s: State, ops: seq<Op>, options: Options)
    decreases |ops|
  {
    ops == [] || (Succeeds(s, ops[0], options) && Run(Next(s, ops[0], options), ops[1..], options))
  }

  function After(s: State, ops: seq<Op>, options: Options): State
    requires Run(s, ops, options)
    decreases |ops|
  {
    if ops == [] then s else After(Next(s, ops[0], options), ops[1..], options)
  }

  // Carry out operations until one does not succeed.
  method Perform(c: Configurator, ops: seq<Op>) returns (n: nat)
    requires Wellformed(c.kernel.state) && !c.kernel.failed
    modifies c, c.kernel
    ensures n <= |ops| && Run(old(c.kernel.state), ops[..n], c.options)
    ensures n == |ops| ==> Run(old(c.kernel.state), ops, c.options)
    ensures n == |ops| ==> c.kernel.state == After(old(c.kernel.state), ops, c.options) && !c.kernel.failed
  {
    hide Succeeds, Next, Wellformed;
    ghost var s := c.kernel.state;
    n := 0;
    assert ops[..0] == [];
    while n < |ops|
      invariant n <= |ops| && Run(s, ops[..n], c.options) && !c.kernel.failed && Wellformed(c.kernel.state)
      invariant c.kernel.state == After(s, ops[..n], c.options)
    {
      ghost var before := c.kernel.state;
      var r := PerformOne(c, ops[n]);
      if !r.Done? { return; }
      RunMore(s, ops[..n], ops[n], c.options);
      assert ops[..n + 1] == ops[..n] + [ops[n]];
      NextWellformed(before, ops[n], c.options);
      n := n + 1;
    }
    assert ops[..n] == ops;
  }

  method PerformOne(c: Configurator, op: Op) returns (r: Outcome)
    requires Wellformed(c.kernel.state) && !c.kernel.failed
    modifies c, c.kernel
    ensures r.Done? ==> Succeeds(old(c.kernel.state), op, c.options) && !c.kernel.failed
                        && c.kernel.state == Next(old(c.kernel.state), op, c.options)
  {
    hide IsLinkLocal, Contains, Globals, HasIP, Wellformed, AfterAdd, AfterPromote, AfterRemove;
    if op.Add? {
      r := c.AddAddress(op.addr, op.gateway);
    } else if op.Promote? {
      r := c.SetPrimaryAddress(op.addr);
    } else {
      r := c.RemoveAddress(op.addr);
    }
  }

  lemma {:induction false} RunMore(s: State, ops: seq<Op>, op: Op, options: Options)
    requires Run(s, ops, options) && Succeeds(After(s, ops, options), op, options)
    ensures Run(s, ops + [op], options)
    ensures After(s, ops + [op], options) == Next(After(s, ops, options), op, options)
    decreases |ops|
  {
    hide Succeeds, Next;
    if ops == [] {
      assert [] + [op] == [op] && [op][1..] == [];
    } else {
      assert (ops + [op])[1..] == ops[1..] + [op];
      RunMore(Next(s, ops[0], options), ops[1..], op, options);
    }
  }

  // ------------------------------------------------------------ gateways stay reachable

  predicate GatewayReached(s: State, is4: bool) {
    var d := RouteOf(s, is4);
    d.Via? ==> IsLinkLocal(d.gw) || Covered(Family(s, is4), d.gw)
  }

  // A call that only changes the mask of an address, with no new gateway, leaves the
  // gateway covered.
  predicate MaskKeepsGateway(s: State, op: Op) {
    op.Add? && op.gateway.None? && Present(s, op.addr.ip) ==>
      var d := RouteOf(s, Is4(op.addr.ip));
      d.Via? && !IsLinkLocal(d.gw) && Covered(Family(s, Is4(op.addr.ip)), d.gw) ==>
        Covered(Put(Family(s, Is4(op.addr.ip)), op.addr), d.gw)
  }

  predicate MasksKeepGateways(s: State, ops: seq<Op>, options: Options)
    requires Run(s, ops, options)
    decreases |ops|
  {
    ops == [] || (MaskKeepsGateway(s, ops[0]) && MasksKeepGateways(Next(s, ops[0], options), ops[1..], options))
  }

  lemma CoveredBy(list: seq<IPNet>, a: IPNet, gw: IP)
    requires a in list && Contains(a, gw)
    ensures Covered(list, gw)
  {
    hide Contains;
    var i: nat :| i < |list| && list[i] == a;
  }

  // The same addresses cover the same gateways.
  lemma CoveredSame(a: seq<IPNet>, b: seq<IPNet>, gw: IP)
    requires Covered(a, gw) && forall x :: x in a ==> x in b
    ensures Covered(b, gw)
  {
    hide Contains;
    var i: nat :| i < |a| && Contains(a[i], gw);
    CoveredBy(b, a[i], gw);
  }

  lemma AddKeepsGateways(s: State, addr: IPNet, gateway: Option<IP>, is4: bool)
    requires Wellformed(s) && Acceptable(addr, gateway) && GatewayReached(s, is4)
    requires MaskKeepsGateway(s, Add(addr, gateway))
    ensures GatewayReached(AfterAdd(s, addr, gateway), is4)
  {
    hide IsLinkLocal, Contains, Covered;
    var list, after := Family(s, is4), AfterAdd(s, addr, gateway);
    if is4 == Is4(addr.ip) {
      PutHolds(list, addr);
      if gateway.None? {
        if RouteOf(s, is4).Via? && !IsLinkLocal(RouteOf(s, is4).gw) && !Present(s, addr.ip) {
          CoveredSame(list, Put(list, addr), RouteOf(s, is4).gw);
        }
      } else if gateway.value != Zero(is4) && Contains(addr, gateway.value) {
        CoveredBy(Put(list, addr), addr, gateway.value);
      }
    }
  }

  lemma PutHolds(list: seq<IPNet>, addr: IPNet)
    requires KeyedByIP(list, Is4(addr.ip))
    ensures addr in Put(list, addr)
    ensures !HasIP(list, addr.ip) ==> forall x :: x in list ==> x in Put(list, addr)
  {
    PutFacts(list, addr);
    if i: nat :| i < |list| && list[i].ip == addr.ip {
      PutBack(list, addr, i, Is4(addr.ip));
      assert Put(list, addr)[i] == addr;
    } else {
      assert Put(list, addr) == list + [addr];
    }
  }

  lemma PromotedMembers(s: State, ip: IP)
    requires Wellformed(s) && HasIP(Globals(Family(s, Is4(ip))), ip)
    ensures KeyedByIP(Family(AfterPromote(s, ip), Is4(ip)), Is4(ip))
    ensures forall x :: x in Family(AfterPromote(s, ip), Is4(ip)) <==> x in Family(s, Is4(ip))
  {
    hide IsLinkLocal;
    var is4, list := Is4(ip), Family(s, Is4(ip));
    GlobalsHeld(list, is4);
    GlobalsMembers(list);
    LinkLocalsMembers(list);
    InFrontKeyed(Globals(list), ip, is4);
    hide Globals, LinkLocals, HasIP, InFront;
    if !(Globals(list) != [] && Globals(list)[0].ip == ip) {
      LinkLocalsKeyed(list, is4);
      Joined(LinkLocals(list), InFront(Globals(list), ip), is4);
    }
  }

  lemma {:induction false} LinkLocalsKeyed(list: seq<IPNet>, is4: bool)
    requires KeyedByIP(list, is4)
    ensures KeyedByIP(LinkLocals(list), is4)
  {
    hide IsLinkLocal;
    if list != [] {
      LinkLocalsKeyed(list[1..], is4);
      LinkLocalsMembers(list[1..]);
      var rest := LinkLocals(list[1..]);
      forall j: nat | j < |rest| ensures rest[j].ip != list[0].ip {
        assert rest[j] in rest && rest[j] in list[1..];
      }
    }
  }

  lemma Joined(a: seq<IPNet>, b: seq<IPNet>, is4: bool)
    requires KeyedByIP(a, is4) && KeyedByIP(b, is4)
    requires (forall x :: x in a ==> IsLinkLocal(x.ip)) && forall x :: x in b ==> !IsLinkLocal(x.ip)
    ensures KeyedByIP(a + b, is4)
  {
    hide IsLinkLocal;
    var all := a + b;
    forall i, j | 0 <= i < j < |all| ensures all[i].ip != all[j].ip {
      assert i < |a| ==> all[i] in a;
      assert j >= |a| ==> all[j] in b;
    }
  }

  lemma {:induction false} WithoutKeyed(list: seq<IPNet>, ip: IP, is4: bool)
    requires KeyedByIP(list, is4)
    ensures KeyedByIP(Without(list, ip), is4)
  {
    hide HasIP;
    if list != [] {
      var a, rest := list[0], Without(list[1..], ip);
      WithoutKeyed(list[1..], ip, is4);
      WithoutFacts(list[1..], ip);
      assert forall x | x in list[1..] :: x.ip != a.ip by {
        assert forall k: nat | k < |list[1..]| :: list[1..][k] == list[k + 1];
      }
      hide Without;
      AddedInFront(a, rest, is4);
    }
  }

  lemma AddedInFront(a: IPNet, rest: seq<IPNet>, is4: bool)
    requires KeyedByIP(rest, is4) && Is4(a.ip) == is4
    requires forall x :: x in rest ==> x.ip != a.ip
    ensures KeyedByIP([a] + rest, is4)
  {
    assert forall j: nat | j < |rest| :: rest[j] in rest;
  }

  lemma NextWellformed(s: State, op: Op, options: Options)
    requires Wellformed(s) && Succeeds(s, op, options)
    ensures Wellformed(Next(s, op, options))
  {
    if op.Add? {
      AddWellformed(s, op.addr, op.gateway);
    } else if op.Promote? {
      PromotedMembers(s, op.addr.ip);
      hide KeyedByIP, HasIP, Globals, LinkLocals, InFront;
    } else {
      hide IsLinkLocal;
      WithoutKeyed(Family(s, Is4(op.addr.ip)), op.addr.ip, Is4(op.addr.ip));
    }
  }

  lemma RemoveKeepsGateways(s: State, ip: IP, is4: bool)
    requires Wellformed(s) && KeepsGateway(s, ip) && GatewayReached(s, is4)
    ensures GatewayReached(AfterRemove(s, ip), is4)
  {
    NothingDrops(s, ip);
  }

  lemma NextKeepsGateways(s: State, op: Op, options: Options, is4: bool)
    requires Wellformed(s) && Succeeds(s, op, options) && GatewayReached(s, is4) && MaskKeepsGateway(s, op)
    ensures GatewayReached(Next(s, op, options), is4)
  {
    if op.Add? {
      AddKeepsGateways(s, op.addr, op.gateway, is4);
    } else if op.Promote? {
      hide IsLinkLocal, Covered, Globals;
      var d := RouteOf(s, is4);
      if is4 == Is4(op.addr.ip) && d.Via? && !IsLinkLocal(d.gw) {
        PromotedMembers(s, op.addr.ip);
        CoveredSame(Family(s, is4), Family(AfterPromote(s, op.addr.ip), is4), d.gw);
      }
    } else {
      RemoveKeepsGateways(s, op.addr.ip, is4);
    }
  }

  // Over any run of successful calls every default gateway stays link-local or in the
  // network of some address, as long as calls that only change a mask keep it so.
  lemma {:induction false} GatewaysStayReachable(s: State, ops: seq<Op>, options: Options)
    requires Wellformed(s) && Run(s, ops, options) && MasksKeepGateways(s, ops, options)
    requires GatewayReached(s, true) && GatewayReached(s, false)
    ensures GatewayReached(After(s, ops, options), true) && GatewayReached(After(s, ops, options), false)
    ensures Wellformed(After(s, ops, options))
    decreases |ops|
  {
    hide Wellformed, GatewayReached, Succeeds, Next, MaskKeepsGateway;
    if ops != [] {
      NextWellformed(s, ops[0], options);
      NextKeepsGateways(s, ops[0], options, true);
      NextKeepsGateways(s, ops[0], options, false);
      GatewaysStayReachable(Next(s, ops[0], options), ops[1..], options);
    }
  }

  // -------------------------------------------------------------- the primary address

  predicate PromotesIn(op: Op, is4: bool) { op.Promote? && Is4(op.addr.ip) == is4 }

  lemma NextKeepsPrimary(s: State, op: Op, options: Options, is4: bool)
    requires Wellformed(s) && Succeeds(s, op, options) && !PromotesIn(op, is4) && !options.allowPrimaryRemoval
    requires Primary(s, is4).Some?
    ensures Primary(Next(s, op, options), is4) == Primary(s, is4)
  {
    hide IsLinkLocal, KeepsGateway, Acceptable;
    var list := Family(s, is4);
    if Is4(op.addr.ip) == is4 {
      if op.Add? {
        PutPrimary(list, op.addr);
      } else if op.Remove? {
        WithoutGlobals(list, op.addr.ip);
        assert Globals(list)[0].ip != op.addr.ip;
      }
    }
  }

  lemma {:induction false} PutPrimary(list: seq<IPNet>, addr: IPNet)
    requires Globals(list) != []
    ensures Globals(Put(list, addr)) != [] && Globals(Put(list, addr))[0].ip == Globals(list)[0].ip
  {
    hide IsLinkLocal;
    var put := Put(list, addr);
    if list[0].ip == addr.ip {
      assert put[1..] == list[1..];
    } else {
      assert put[1..] == Put(list[1..], addr);
      if IsLinkLocal(list[0].ip) { PutPrimary(list[1..], addr); }
    }
  }

  // Without the option to remove primaries, the primary address of a family that has one
  // changes only through SetPrimaryAddress on that family.
  lemma {:induction false} PrimaryChangesOnlyByPromotion(s: State, ops: seq<Op>, options: Options, is4: bool)
    requires Wellformed(s) && Run(s, ops, options) && !options.allowPrimaryRemoval && Primary(s, is4).Some?
    requires forall k: nat | k < |ops| :: !PromotesIn(ops[k], is4)
    ensures Primary(After(s, ops, options), is4) == Primary(s, is4)
    decreases |ops|
  {
    hide Wellformed, Primary, Succeeds, Next, PromotesIn;
    if ops != [] {
      NextWellformed(s, ops[0], options);
      NextKeepsPrimary(s, ops[0], options, is4);
      assert forall k: nat | k < |ops[1..]| :: ops[1..][k] == ops[k + 1];
      PrimaryChangesOnlyByPromotion(Next(s, ops[0], options), ops[1..], options, is4);
    }
  }
}
