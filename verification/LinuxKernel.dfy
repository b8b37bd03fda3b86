// The kernel as configurator_linux.go sees one link through netlink: an ordered list
// of addresses and at most one default route per family, and the up flag. Any call
// may fail; the other ways a call can be refused are written out.
module LinuxKernel {
  import opened Text
  import opened Net
  import opened AddressLists

  // A default route without a gateway sends straight onto the link.
  datatype Default = NoRoute | OnLink | Via(gw: IP)

  datatype State = State(v4: seq<IPNet>, v6: seq<IPNet>, route4: Default, route6: Default, up: bool)

  function Family(s: State, is4: bool): seq<IPNet> { if is4 then s.v4 else s.v6 }

  function WithFamily(s: State, is4: bool, list: seq<IPNet>): State { if is4 then s.(v4 := list) else s.(v6 := list) }

  function RouteOf(s: State, is4: bool): Default { if is4 then s.route4 else s.route6 }

  function WithRoute(s: State, is4: bool, d: Default): State { if is4 then s.(route4 := d) else s.(route6 := d) }

  function GatewayOf(d: Default): Option<IP> { if d.Via? then Some(d.gw) else None }

  // -------------------------------------------------------------------- addresses

  // A gateway is of the route's family, or link-local.
  predicate Fits(d: Default, is4: bool) { d.Via? ==> Is4(d.gw) == is4 || IsLinkLocal(d.gw) }

  predicate Wellformed(s: State) {
    KeyedByIP(s.v4, true) && KeyedByIP(s.v6, false) && Fits(s.route4, true) && Fits(s.route6, false)
  }

  predicate Covered(list: seq<IPNet>, gw: IP) { exists i: nat | i < |list| :: Contains(list[i], gw) }

  // The family's default route resolves through no other address than this one.
  predicate OnlyThrough(s: State, ip: IP) {
    var d := RouteOf(s, Is4(ip));
    d.Via? && !IsLinkLocal(d.gw) && !Covered(Without(Family(s, Is4(ip)), ip), d.gw)
  }

  function Deleted(s: State, ip: IP, dropped: bool): State {
    var rest := WithFamily(s, Is4(ip), Without(Family(s, Is4(ip)), ip));
    if dropped then WithRoute(rest, Is4(ip), NoRoute) else rest
  }

  function Replaced(s: State, n: IPNet): State { WithFamily(s, Is4(n.ip), Put(Family(s, Is4(n.ip)), n)) }

  datatype RouteEntry = RouteEntry(is4: bool, gw: Option<IP>)

  function Defaults(s: State): seq<RouteEntry> {
    (if s.route4.NoRoute? then [] else [RouteEntry(true, GatewayOf(s.route4))]) +
    (if s.route6.NoRoute? then [] else [RouteEntry(false, GatewayOf(s.route6))])
  }

  function DefaultFor(gw: Option<IP>): Default { match gw case Some(ip) => Via(ip) case None => OnLink }

  datatype DelResult = Removed | Gone | Refused

  class Kernel {
    var state: State
    ghost var failed: bool  // a call has failed for a reason outside this model

    constructor (state0: State)
      ensures state == state0 && !failed
    {
      state, failed := state0, false;
    }

    // The reason outside the model, if there is one this time.
    method Attempt() returns (ok: bool)
      modifies this`failed
      ensures ok ==> failed == old(failed)
      ensures !ok ==> failed
    {
      ok := *;
      if !ok { failed := true; }
    }

    method LinkSet(up: bool) returns (ok: bool)
      modifies this
      ensures ok ==> state == old(state).(up := up) && failed == old(failed)
      ensures !ok ==> state == old(state) && failed
    {
      ok := Attempt();
      if ok { state := state.(up := up); }
    }

    // IPv4 before IPv6, each in its own order.
    method AddrList() returns (ok: bool, addrs: seq<IPNet>)
      modifies this`failed
      ensures ok ==> addrs == state.v4 + state.v6 && failed == old(failed)
      ensures !ok ==> failed
    {
      ok := Attempt();
      addrs := state.v4 + state.v6;
    }

    method AddrReplace(n: IPNet) returns (ok: bool)
      modifies this
      ensures ok ==> state == Replaced(old(state), n) && failed == old(failed)
      ensures !ok ==> state == old(state) && failed
    {
      ok := Attempt();
      if ok { state := Replaced(state, n); }
    }

    // Adding an address that is there is refused.
    method AddrAdd(n: IPNet) returns (ok: bool)
      modifies this
      ensures ok ==>
                !HasIP(Family(old(state), Is4(n.ip)), n.ip) && state == Replaced(old(state), n)
                && failed == old(failed)
      ensures !ok ==>
                state == old(state) && (failed || (HasIP(Family(state, Is4(n.ip)), n.ip) && failed == old(failed)))
    {
      if HasIP(Family(state, Is4(n.ip)), n.ip) { return false; }
      ok := Attempt();
      if ok { state := Replaced(state, n); }
    }

    // Deleting an address that is not there is refused. With an address the kernel
    // may drop the default route that resolved only through it.
    method AddrDel(ip: IP) returns (ok: bool, ghost dropped: bool)
      modifies this
      ensures ok ==>
                HasIP(Family(old(state), Is4(ip)), ip) && state == Deleted(old(state), ip, dropped)
                && failed == old(failed)
      ensures ok && dropped ==> OnlyThrough(old(state), ip)
      ensures !ok ==> state == old(state) && (failed || (!HasIP(Family(state, Is4(ip)), ip) && failed == old(failed)))
    {
      dropped := false;
      if !HasIP(Family(state, Is4(ip)), ip) { return false, false; }
      ok := Attempt();
      if ok {
        var takes: bool := *;
        takes := takes && OnlyThrough(state, ip);
        dropped := takes;
        state := Deleted(state, ip, takes);
      }
    }

    method RouteList() returns (ok: bool, routes: seq<RouteEntry>)
      modifies this`failed
      ensures ok ==> routes == Defaults(state) && failed == old(failed)
      ensures !ok ==> failed
    {
      ok := Attempt();
      routes := Defaults(state);
    }

    // Gone is ESRCH: there is no such route.
    method RouteDel(is4: bool) returns (r: DelResult)
      modifies this
      ensures r.Removed? ==> !RouteOf(old(state), is4).NoRoute? && state == WithRoute(old(state), is4, NoRoute)
      ensures r.Gone? <==> RouteOf(old(state), is4).NoRoute?
      ensures !r.Removed? ==> state == old(state)
      ensures failed == (old(failed) || r.Refused?)
    {
      if RouteOf(state, is4).NoRoute? { return Gone; }
      var ok: bool := *;
      if !ok {
        failed := true;
        return Refused;
      }
      state := WithRoute(state, is4, NoRoute);
      return Removed;
    }

    // Only an existing route can be changed, and only a missing one added.
    method RouteChange(is4: bool, gw: IP) returns (ok: bool)
      modifies this
      ensures ok ==> state == WithRoute(old(state), is4, Via(gw)) && failed == old(failed)
      ensures !ok ==> state == old(state) && (failed || RouteOf(state, is4).NoRoute?)
    {
      if RouteOf(state, is4).NoRoute? { return false; }
      ok := Attempt();
      if ok { state := WithRoute(state, is4, Via(gw)); }
    }

    method RouteAdd(is4: bool, gw: IP) returns (ok: bool)
      modifies this
      ensures ok ==> state == WithRoute(old(state), is4, Via(gw)) && failed == old(failed)
      ensures !ok ==> state == old(state) && (failed || !RouteOf(state, is4).NoRoute?)
    {
      if !RouteOf(state, is4).NoRoute? { return false; }
      ok := Attempt();
      if ok { state := WithRoute(state, is4, Via(gw)); }
    }

    method RouteReplace(is4: bool, d: Default) returns (ok: bool)
      requires !d.NoRoute?
      modifies this
      ensures ok ==> state == WithRoute(old(state), is4, d) && failed == old(failed)
      ensures !ok ==> state == old(state) && failed
    {
      ok := Attempt();
      if ok { state := WithRoute(state, is4, d); }
    }
  }
}
