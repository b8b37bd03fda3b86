// configurator_linux.go: the parts of RemoveAddress.
module LinuxRemoveAddress {
  import opened Text
  import opened Net
  import opened AddressLists
  import opened LinuxKernel
  import opened LinuxAddAddress
  import opened LinuxSetPrimary

  // ------------------------------------------------------------ what it should do

  // The first address of a family that is not link-local.
  function Primary(s: State, is4: bool): Option<IP> {
    var globals := Globals(Family(s, is4));
    if globals == [] then None else Some(globals[0].ip)
  }

  predicate RemovalRefused(s: State, ip: IP, options: Options) {
    Primary(s, Is4(ip)) == Some(ip) && !options.allowPrimaryRemoval
  }

  predicate ReachesGateway(a: IPNet, ip: IP, gw: IP) { a.ip != ip && (Contains(a, gw) || IsLinkLocal(gw)) }

  // Some other address of the interface reaches the family's gateway.
  predicate KeepsGateway(s: State, ip: IP) {
    var d := RouteOf(s, Is4(ip));
    d.Via? ==> OtherReaches(s.v4 + s.v6, ip, d.gw)
  }

  predicate OtherReaches(addrs: seq<IPNet>, ip: IP, gw: IP) {
    exists i: nat | i < |addrs| :: ReachesGateway(addrs[i], ip, gw)
  }

  function AfterRemove(s: State, ip: IP): State { Deleted(s, ip, false) }

  // The address comes back at the end of its list.
  function RemovalUndone(s: State, ip: IP): State
    requires Present(s, ip)
  {
    var list := Family(s, Is4(ip));
    WithFamily(s, Is4(ip), Without(list, ip) + [Entry(list, ip)])
  }

  function RemoveCalls(s: State, ip: IP, options: Options): seq<BackendCall> {
    var apply := ApplyAddresses(Without(Globals(s.v4 + s.v6), ip), GatewayOf(s.route4), GatewayOf(s.route6));
    if options.skipPanels then [apply] else [RemoveIP(ip), apply]
  }

  // --------------------------------------------------------------------- the loops

  function FirstIP(list: seq<IPNet>): Option<IP> { if list == [] then None else Some(list[0].ip) }

  method PrimaryIn(addrs: seq<IPNet>, is4: bool) returns (primary: Option<IP>)
    ensures primary == FirstIP(OfFamily(Globals(addrs), is4))
  {
    hide IsLinkLocal;
    assert addrs[0..] == addrs;
    for i := 0 to |addrs|
      invariant OfFamily(Globals(addrs[i..]), is4) == OfFamily(Globals(addrs), is4)
    {
      assert addrs[i..][0] == addrs[i] && addrs[i..][1..] == addrs[i + 1..];
      if IsLinkLocal(addrs[i].ip) { continue; }
      var rest := Globals(addrs[i + 1..]);
      assert ([addrs[i]] + rest)[1..] == rest;
      if Is4(addrs[i].ip) != is4 { continue; }
      return Some(addrs[i].ip);
    }
    return None;
  }

  lemma PrimaryOfBoth(s: State, is4: bool)
    requires Wellformed(s)
    ensures FirstIP(OfFamily(Globals(s.v4 + s.v6), is4)) == Primary(s, is4)
  {
    FamilyOfBoth(s, is4);
  }

  method ScanOthers(addrs: seq<IPNet>, ip: IP, gw: Option<IP>)
    returns (nlAddr: Option<IPNet>, routeToGateway: bool, addresses: seq<IPNet>)
    ensures nlAddr.Some? <==> HasIP(addrs, ip)
    ensures nlAddr.Some? ==> nlAddr.value in addrs && nlAddr.value.ip == ip
    ensures routeToGateway <==> gw.Some? && OtherReaches(addrs, ip, gw.value)
    ensures addresses == Without(Globals(addrs), ip)
  {
    nlAddr, routeToGateway, addresses := None, false, [];
    assert addrs[0..] == addrs && addrs[..0] == [];
    NoneHas(ip);
    assert gw.Some? ==> !OtherReaches([], ip, gw.value);
    hide *;
    for i := 0 to |addrs|
      invariant nlAddr.Some? <==> HasIP(addrs[..i], ip)
      invariant nlAddr.Some? ==> nlAddr.value in addrs && nlAddr.value.ip == ip
      invariant routeToGateway <==> gw.Some? && OtherReaches(addrs[..i], ip, gw.value)
      invariant addresses + Without(Globals(addrs[i..]), ip) == Without(Globals(addrs), ip)
    {
      var address := addrs[i];
      RestStep(addrs, i, ip);
      if gw.Some? { ReachesStep(addrs, i, ip, gw.value); }
      SeenStep(addrs, i, ip);
      ghost var rest := Without(Globals(addrs[i + 1..]), ip);
      assert addresses + ([address] + rest) == addresses + [address] + rest;
      if address.ip == ip {
        nlAddr := Some(address);
        continue;
      }
      if gw.Some? && (Contains(address, gw.value) || IsLinkLocal(gw.value)) { routeToGateway := true; }
      if IsLinkLocal(address.ip) { continue; }
      addresses := addresses + [address];
    }
    assert addrs[..|addrs|] == addrs;
  }

  lemma NoneHas(ip: IP)
    ensures !HasIP([], ip) && Without(Globals([]), ip) == []
  {}

  lemma SeenStep(addrs: seq<IPNet>, i: nat, ip: IP)
    requires i < |addrs|
    ensures HasIP(addrs[..i + 1], ip) <==> HasIP(addrs[..i], ip) || addrs[i].ip == ip
  {
    hide *;
    assert addrs[..i + 1] == addrs[..i] + [addrs[i]];
    HasIPAppend(addrs[..i], [addrs[i]], ip);
    OneIP(addrs[i], ip);
  }

  lemma RestStep(addrs: seq<IPNet>, i: nat, ip: IP)
    requires i < |addrs|
    ensures var a, rest := addrs[i], Without(Globals(addrs[i + 1..]), ip);
            Without(Globals(addrs[i..]), ip) == if a.ip == ip || IsLinkLocal(a.ip) then rest else [a] + rest
  {
    hide IsLinkLocal;
    var a, rest := addrs[i], Globals(addrs[i + 1..]);
    assert addrs[i..][0] == a && addrs[i..][1..] == addrs[i + 1..];
    assert ([a] + rest)[1..] == rest;
  }

  lemma ReachesStep(addrs: seq<IPNet>, i: nat, ip: IP, gw: IP)
    requires i < |addrs|
    ensures var a := addrs[i];
            OtherReaches(addrs[..i + 1], ip, gw) <==>
            OtherReaches(addrs[..i], ip, gw) || (a.ip != ip && (Contains(a, gw) || IsLinkLocal(gw)))
  {
    var next, now := addrs[..i + 1], addrs[..i];
    assert ReachesGateway(addrs[i], ip, gw) <==> addrs[i].ip != ip && (Contains(addrs[i], gw) || IsLinkLocal(gw));
    hide ReachesGateway, Contains, IsLinkLocal;
    assert next[i] == addrs[i] && forall j: nat | j < i :: next[j] == now[j];
  }

  // ---------------------------------------------------------------------- the facts

  // With the gateway reachable otherwise, the kernel keeps the default route.
  lemma NothingDrops(s: State, ip: IP)
    requires Wellformed(s) && KeepsGateway(s, ip)
    ensures !OnlyThrough(s, ip)
  {
    hide IsLinkLocal;
    var d, list := RouteOf(s, Is4(ip)), Family(s, Is4(ip));
    if d.Via? && !IsLinkLocal(d.gw) {
      var i: nat :| i < |s.v4 + s.v6| && ReachesGateway((s.v4 + s.v6)[i], ip, d.gw);
      var a := (s.v4 + s.v6)[i];
      assert a in s.v4 + s.v6;
      InItsFamily(s, a);
      WithoutFacts(list, ip);
      assert a in Without(list, ip);
      var j: nat :| j < |Without(list, ip)| && Without(list, ip)[j] == a;
      assert Contains(Without(list, ip)[j], d.gw);
    }
  }

  // The entry found in the two lists together is the one of the family's list.
  lemma EntryOfBoth(s: State, ip: IP)
    requires Wellformed(s) && Present(s, ip)
    ensures forall n :: n in s.v4 + s.v6 && n.ip == ip ==> n == Entry(Family(s, Is4(ip)), ip)
  {
    var list := Family(s, Is4(ip));
    forall n | n in s.v4 + s.v6 && n.ip == ip ensures n == Entry(list, ip) {
      InItsFamily(s, n);
      var i: nat :| i < |list| && list[i] == n;
      TakeOut(list, ip, i, Is4(ip));
    }
  }

  lemma PutAfterDelete(list: seq<IPNet>, ip: IP)
    requires HasIP(list, ip)
    ensures Entry(list, ip).ip == ip && Put(Without(list, ip), Entry(list, ip)) == Without(list, ip) + [Entry(list, ip)]
  {
    EntryHasIP(list, ip);
    WithoutFacts(list, ip);
    PutFacts(Without(list, ip), Entry(list, ip));
  }

  lemma {:induction false} EntryHasIP(list: seq<IPNet>, ip: IP)
    requires HasIP(list, ip)
    ensures Entry(list, ip) in list && Entry(list, ip).ip == ip
  {
    HasIPStep(list, ip);
    if list[0].ip != ip { EntryHasIP(list[1..], ip); }
  }

  lemma NothingToRemove(s: State, ip: IP)
    requires !Present(s, ip)
    ensures AfterRemove(s, ip) == s
  {
    WithoutFacts(Family(s, Is4(ip)), ip);
  }
}
