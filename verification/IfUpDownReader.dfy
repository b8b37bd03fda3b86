// ifupdown.go: the model of an interface and ifUpDown.ReadFile, a line parser
// with a register holding the address that is still waiting for its netmask.
module IfUpDownReader {
  import opened Text
  import opened Net

  datatype Iface = Iface(
    name: string,
    mode: string,
    isDHCP: bool,
    isPPP: bool,
    addresses: seq<IPNetwork>,
    gateway4: Option<IP>,
    gateway6: Option<IP>,
    routes: seq<Route>,
    config: map<string, seq<string>>)

  datatype Error =
    | InvalidSyntax
    | NoInterface
    | NoAddress
    | InvalidAddress
    | InvalidNetmask
    | InvalidGateway
    | NilInterface      // the Go code dereferences a nil interface here
    | SourceNotModelled // source and source-directory are left out

  // ---------------------------------------------------------------- tokens

  // The fields of a line once its comment is cut off.
  function Tokens(line: string): (ws: seq<string>)
    ensures AreWords(ws)
  {
    Fields(Before(line, '#'))
  }

  // The interface a name such as eth0:1 is an alias of.
  function BaseName(name: string): string { Before(name, ':') }

  datatype Directive = Global | Source | Stanza | Address | Netmask | Gateway | Default

  function DirectiveOf(w: string): Directive {
    if w == "auto" || w == "allow-hotplug" then Global
    else if w == "source" || w == "source-directory" then Source
    else if w == "iface" || w == "interface" then Stanza
    else if w == "address" then Address
    else if w == "netmask" then Netmask
    else if w == "gateway" then Gateway
    else Default
  }

  // ------------------------------------------- route and ip commands in scripts

  function HostMask(ip: IP): seq<bv8> { CIDRMask(8 * |ip|, |ip|) }

  function HostNetwork(ip: IP): IPNetwork { IPNetwork.IPNet(ip, HostMask(ip)) }

  function Widen(n: Option<IPNet>): Option<IPNetwork> {
    match n case None => None case Some(v) => Some(v)
  }

  // An address or a CIDR; a bare address stands for the host alone.
  function ParseNetwork(w: string): (r: Option<IPNetwork>)
    ensures r.Some? ==> WellFormed(r.value)
  {
    if '/' in w then Widen(ParseCIDR(w))
    else match ParseIP(w) case None => None case Some(ip) => Some(HostNetwork(ip))
  }

  // A dotted-decimal netmask.
  function ParseIPMask(w: string): Option<seq<bv8>> {
    match ParseIP(w) case Some(ip) => (if Is4(ip) then Some(ip) else None) case None => None
  }

  datatype RouteCommand = RouteCommand(
    verb: bool, dst: Option<IPNetwork>, gateway: Option<IP>, metric: int)

  const NO_ROUTE_COMMAND := RouteCommand(false, None, None, 256)

  // The scan of "up route add ..." (up) and of "down route del ..." from word f on.
  function ScanRoute(ws: seq<string>, f: nat, up: bool, c: RouteCommand): RouteCommand
    decreases |ws| - f
  {
    if f + 1 >= |ws| then c
    else if ws[f] == (if up then "add" else "del") then ScanRoute(ws, f + 1, up, c.(verb := true))
    else if ws[f] == "-net" || ws[f] == "-host" then ScanRoute(ws, f + 1, up, c)
    else if ws[f] == "netmask" then
      ScanRoute(ws, f + 2, up,
        if c.dst.Some? && ParseIPMask(ws[f + 1]).Some?
        then c.(dst := Some(c.dst.value.(mask := ParseIPMask(ws[f + 1]).value))) else c)
    else if up && ws[f] == "gw" then ScanRoute(ws, f + 2, up, c.(gateway := ParseIP(ws[f + 1])))
    else if up && ws[f] == "metric" then
      ScanRoute(ws, f + 2, up,
        c.(metric := match Atoi(ws[f + 1]) case Some(m) => m case None => 256))
    else ScanRoute(ws, f + 1, up, if c.dst.Some? then c else c.(dst := ParseNetwork(ws[f])))
  }

  datatype IpCommand = IpCommand(
    isRoute: bool, isAddr: bool, verb: bool, thisDev: bool,
    address: Option<IPNetwork>, dst: Option<IPNetwork>, gateway: Option<IP>, metric: int)

  const NO_IP_COMMAND := IpCommand(false, false, false, false, None, None, None, 256)

  predicate IsIpVerb(w: string, up: bool) {
    if up then w == "add" else w == "del" || w == "delete"
  }

  // The scan of "up ip ... add ..." (up) and of "down ip ... del ..." from word f on.
  function ScanIp(ws: seq<string>, f: nat, up: bool, name: string, c: IpCommand): IpCommand
    decreases |ws| - f
  {
    if f + 1 >= |ws| then c
    else if ws[f] == "addr" || ws[f] == "address" then ScanIp(ws, f + 1, up, name, c.(isAddr := true))
    else if ws[f] == "route" then ScanIp(ws, f + 1, up, name, c.(isRoute := true))
    else if IsIpVerb(ws[f], up) then ScanIp(ws, f + 2, up, name, IpOperand(c.(verb := true), ParseCIDR(ws[f + 1])))
    else if ws[f] == "dev" then
      ScanIp(ws, f + 2, up, name,
        if ws[f + 1] == "$IFACE" || ws[f + 1] == name then c.(thisDev := true) else c)
    else if up && ws[f] == "via" then ScanIp(ws, f + 2, up, name, c.(gateway := ParseIP(ws[f + 1])))
    else if up && ws[f] == "metric" then
      ScanIp(ws, f + 2, up, name, c.(metric := IpMetric(Atoi(ws[f + 1]))))
    else ScanIp(ws, f + 1, up, name, c)
  }

  function IpOperand(c: IpCommand, network: Option<IPNet>): IpCommand {
    if network.None? then c
    else if c.isAddr then c.(address := Widen(network))
    else if c.isRoute then c.(dst := Widen(network))
    else c
  }

  function IpMetric(m: Option<int>): int {
    if m.None? || m.value == 0 then 256 else m.value
  }

  method ScanRouteWords(ws: seq<string>, up: bool) returns (c: RouteCommand)
    ensures c == ScanRoute(ws, 2, up, NO_ROUTE_COMMAND)
  {
    c := NO_ROUTE_COMMAND;
    var f := 2;
    while f < |ws|
      invariant 2 <= f
      invariant ScanRoute(ws, f, up, c) == ScanRoute(ws, 2, up, NO_ROUTE_COMMAND)
    {
      var field := ws[f];
      if f + 1 >= |ws| {
        f := f + 1;
        continue;
      }
      if field == (if up then "add" else "del") {
        c := c.(verb := true);
      } else if field == "-net" || field == "-host" {
      } else if field == "netmask" {
        f := f + 1;
        var mask := ParseIPMask(ws[f]);
        if c.dst.Some? && mask.Some? {
          c := c.(dst := Some(c.dst.value.(mask := mask.value)));
        }
      } else if up && field == "gw" {
        f := f + 1;
        c := c.(gateway := ParseIP(ws[f]));
      } else if up && field == "metric" {
        f := f + 1;
        var m := Atoi(ws[f]);
        c := c.(metric := if m.Some? then m.value else 256);
      } else if c.dst.None? {
        c := c.(dst := ParseNetwork(field));
      }
      f := f + 1;
    }
  }

  method ScanIpWords(ws: seq<string>, up: bool, name: string) returns (c: IpCommand)
    ensures c == ScanIp(ws, 2, up, name, NO_IP_COMMAND)
  {
    c := NO_IP_COMMAND;
    var f := 2;
    while f < |ws|
      invariant 2 <= f
      invariant ScanIp(ws, f, up, name, c) == ScanIp(ws, 2, up, name, NO_IP_COMMAND)
    {
      var field := ws[f];
      if f + 1 >= |ws| {
        f := f + 1;
        continue;
      }
      if field == "addr" || field == "address" {
        c := c.(isAddr := true);
      } else if field == "route" {
        c := c.(isRoute := true);
      } else if IsIpVerb(field, up) {
        f := f + 1;
        c := IpOperand(c.(verb := true), ParseCIDR(ws[f]));
      } else if field == "dev" {
        f := f + 1;
        if ws[f] == "$IFACE" || ws[f] == name {
          c := c.(thisDev := true);
        }
      } else if up && field == "via" {
        f := f + 1;
        c := c.(gateway := ParseIP(ws[f]));
      } else if up && field == "metric" {
        f := f + 1;
        c := c.(metric := IpMetric(Atoi(ws[f])));
      }
      f := f + 1;
    }
  }

  // ------------------------------------------------------- one body line's effect

  // An interface whose stanza is being read, with the pending address.
  datatype Open = Open(iface: Iface, pending: Option<IPNetwork>)

  function Flush(o: Open): Iface {
    if o.pending.Some? then o.iface.(addresses := o.iface.addresses + [o.pending.value]) else o.iface
  }

  datatype Outcome = Outcome(open: Open, error: Option<Error>)

  function Good(o: Open): Outcome { Outcome(o, None) }

  function Bad(o: Open, e: Error): Outcome { Outcome(o, Some(e)) }

  function AddressLine(o: Open, ws: seq<string>): Outcome {
    if |ws| < 2 then Bad(o, InvalidSyntax)
    else
      var flushed := Open(Flush(o), None);
      match ParseNetwork(ws[1])
      case None => Bad(flushed, InvalidAddress)
      case Some(n) => Good(flushed.(pending := Some(n)))
  }

  // net.CIDRMask, which yields an empty mask when the length is out of range.
  function PrefixMask(prefix: int, ip: IP): seq<bv8> {
    if 0 <= prefix <= 8 * |ip| then CIDRMask(prefix, |ip|) else []
  }

  function NetmaskLine(o: Open, ws: seq<string>): Outcome {
    if |ws| < 2 then Bad(o, InvalidSyntax)
    else if o.pending.None? then Bad(o, NoAddress)
    else if '.' in ws[1] then
      match ParseIPMask(ws[1])
      case None => Bad(o, InvalidNetmask)
      case Some(m) => Good(o.(pending := Some(o.pending.value.(mask := m))))
    else
      match Atoi(ws[1])
      case None => Bad(o, InvalidNetmask)
      case Some(p) => Good(o.(pending := Some(o.pending.value.(mask := PrefixMask(p, o.pending.value.ip)))))
  }

  function GatewayLine(o: Open, ws: seq<string>): Outcome {
    if |ws| < 2 then Bad(o, InvalidSyntax)
    else
      match ParseIP(ws[1])
      case None => Bad(o, InvalidGateway)
      case Some(ip) =>
        Good(o.(iface := if Is4(ip) then o.iface.(gateway4 := Some(ip)) else o.iface.(gateway6 := Some(ip))))
  }

  // What a script line contributes besides a key/value pair.
  datatype Absorbed = Nothing | Skipped | ARoute(route: Route) | AnAddress(address: IPNetwork)

  function UpScript(ws: seq<string>, name: string): Absorbed
    requires |ws| >= 4
  {
    if ws[1] == "route" then
      var c := ScanRoute(ws, 2, true, NO_ROUTE_COMMAND);
      if c.verb && c.dst.Some? && c.gateway.Some? then ARoute(Route(c.dst.value, c.gateway, c.metric)) else Nothing
    else if ws[1] == "ip" then
      var c := ScanIp(ws, 2, true, name, NO_IP_COMMAND);
      if c.verb && c.isRoute && c.dst.Some? && c.gateway.Some? then ARoute(Route(c.dst.value, c.gateway, c.metric))
      else if c.verb && c.isAddr && c.address.Some? && c.thisDev then AnAddress(c.address.value)
      else Nothing
    else Nothing
  }

  predicate SomeRouteContains(routes: seq<Route>, ip: IP) {
    exists r :: 0 <= r < |routes| && RawContains(routes[r].destination, ip)
  }

  method AnyRouteContains(routes: seq<Route>, ip: IP) returns (found: bool)
    ensures found <==> SomeRouteContains(routes, ip)
  {
    for r := 0 to |routes|
      invariant forall k :: 0 <= k < r ==> !RawContains(routes[k].destination, ip)
    {
      if RawContains(routes[r].destination, ip) { return true; }
    }
    return false;
  }

  function DownScript(ws: seq<string>, name: string, routes: seq<Route>): Absorbed
    requires |ws| >= 4
  {
    if ws[1] == "route" then
      var c := ScanRoute(ws, 2, false, NO_ROUTE_COMMAND);
      if c.verb && c.dst.Some? && SomeRouteContains(routes, c.dst.value.ip) then Skipped else Nothing
    else if ws[1] == "ip" then
      var c := ScanIp(ws, 2, false, name, NO_IP_COMMAND);
      if c.verb && c.isRoute && c.dst.Some? then Skipped
      else if c.verb && c.isAddr && c.address.Some? && c.thisDev then Skipped
      else Nothing
    else Nothing
  }

  function Script(ws: seq<string>, iface: Iface): Absorbed
    requires ws != []
  {
    if |ws| < 4 then Nothing
    else if ws[0] == "up" then UpScript(ws, iface.name)
    else if ws[0] == "down" then DownScript(ws, iface.name, iface.routes)
    else Nothing
  }

  function ConfigValues(config: map<string, seq<string>>, key: string): seq<string> {
    if key in config then config[key] else []
  }

  function AddConfig(iface: Iface, key: string, value: string): Iface {
    iface.(config := iface.config[key := ConfigValues(iface.config, key) + [value]])
  }

  function DefaultLine(o: Open, ws: seq<string>): Outcome
    requires ws != []
  {
    if |ws| < 2 then Bad(o, InvalidSyntax)
    else
      match Script(ws, o.iface)
      case Skipped => Good(o)
      case ARoute(r) => Good(o.(iface := o.iface.(routes := o.iface.routes + [r])))
      case AnAddress(n) => Good(o.(iface := o.iface.(addresses := o.iface.addresses + [n])))
      case Nothing => Good(o.(iface := AddConfig(o.iface, ws[0], Join(ws[1..]))))
  }

  predicate IsBody(ws: seq<string>) {
    ws != [] && DirectiveOf(ws[0]) in {Address, Netmask, Gateway, Default}
  }

  // The effect of a line inside a stanza depends on nothing but that stanza.
  function BodyLine(o: Open, ws: seq<string>): Outcome
    requires IsBody(ws)
  {
    var d := DirectiveOf(ws[0]);
    if d == Address then AddressLine(o, ws)
    else if d == Netmask then NetmaskLine(o, ws)
    else if d == Gateway then GatewayLine(o, ws)
    else DefaultLine(o, ws)
  }

  // The same lines before any stanza.
  function OrphanError(ws: seq<string>): Option<Error>
    requires IsBody(ws)
  {
    if |ws| < 2 then Some(InvalidSyntax)
    else
      var d := DirectiveOf(ws[0]);
      if d == Address then Some(NoInterface)
      else if d == Netmask then Some(NoAddress)
      else if d == Gateway then Some(if ParseIP(ws[1]).None? then InvalidGateway else NilInterface)
      else None
  }

  // --------------------------------------------------------------- whole files

  // The reader between two lines: the interfaces so far, the position of the one
  // whose stanza is open (-1 for none), and the pending address.
  datatype Reader = Reader(ifaces: seq<Iface>, cur: int, pending: Option<IPNetwork>, error: Option<Error>) {
    predicate Valid() {
      -1 <= cur < |ifaces| && (cur == -1 ==> pending.None?)
    }

    function Flushed(): (r: seq<Iface>)
      requires Valid()
      ensures |r| == |ifaces|
    {
      if cur == -1 then ifaces else ifaces[cur := Flush(Open(ifaces[cur], pending))]
    }
  }

  function Start(ifaces: seq<Iface>): Reader { Reader(ifaces, -1, None, None) }

  function NewIface(name: string): Iface {
    Iface(name, "", false, false, [], None, None, [], map[])
  }

  // The position EnsureInterface finds the name at, or the end of the list.
  function Find(ifaces: seq<Iface>, name: string): (k: nat)
    ensures k <= |ifaces|
    ensures k < |ifaces| ==> ifaces[k].name == name
    ensures forall j :: 0 <= j < k ==> ifaces[j].name != name
  {
    if ifaces == [] || ifaces[0].name == name then 0 else 1 + Find(ifaces[1..], name)
  }

  function Ensure(ifaces: seq<Iface>, name: string): seq<Iface> {
    if Find(ifaces, name) < |ifaces| then ifaces else ifaces + [NewIface(name)]
  }

  function Reopen(iface: Iface, ws: seq<string>): Iface
    requires |ws| >= 2
  {
    iface.(isDHCP := iface.isDHCP || "dhcp" in ws[2..],
           isPPP := iface.isPPP || "ppp" in ws[2..],
           mode := Join(ws[2..]))
  }

  function HeaderLine(r: Reader, ws: seq<string>): (r': Reader)
    requires r.Valid()
    ensures r'.Valid()
  {
    if |ws| < 2 then r.(error := Some(InvalidSyntax))
    else
      var name := BaseName(ws[1]);
      var k := Find(r.Flushed(), name);
      var ifaces := Ensure(r.Flushed(), name);
      Reader(ifaces[k := Reopen(ifaces[k], ws)], k, None, r.error)
  }

  function LineStep(r: Reader, line: string): (r': Reader)
    requires r.Valid()
    ensures r'.Valid()
  {
    var ws := Tokens(line);
    if ws == [] then r
    else
      var d := DirectiveOf(ws[0]);
      if d == Global then r
      else if d == Source then r.(error := Some(if |ws| < 2 then InvalidSyntax else SourceNotModelled))
      else if d == Stanza then HeaderLine(r, ws)
      else BodyStep(r, ws)
  }

  function BodyStep(r: Reader, ws: seq<string>): (r': Reader)
    requires r.Valid() && IsBody(ws)
    ensures r'.Valid()
  {
    if r.cur == -1 then r.(error := OrphanError(ws))
    else
      var b := BodyLine(Open(r.ifaces[r.cur], r.pending), ws);
      Reader(r.ifaces[r.cur := b.open.iface], r.cur, b.open.pending, b.error)
  }

  // The reader stops at the first error.
  function ReadLines(r: Reader, lines: seq<string>): (r': Reader)
    requires r.Valid()
    ensures r'.Valid()
    decreases |lines|
  {
    if lines == [] || r.error.Some? then r else ReadLines(LineStep(r, lines[0]), lines[1..])
  }

  lemma {:induction false} ReadLinesAppend(r: Reader, a: seq<string>, b: seq<string>)
    requires r.Valid()
    ensures ReadLines(r, a + b) == ReadLines(ReadLines(r, a), b)
    decreases |a|
  {
    if a == [] {
      assert a + b == b;
    } else if r.error.None? {
      assert (a + b)[1..] == a[1..] + b;
      ReadLinesAppend(LineStep(r, a[0]), a[1..], b);
    }
  }

  // A whole file: the interfaces it yields, or the error it fails with.
  function ReadResult(lines: seq<string>): (r: Option<seq<Iface>>) {
    var r := ReadLines(Start([]), lines);
    if r.error.Some? then None else Some(r.Flushed())
  }

  class IfUpDown {
    var interfaces: seq<Iface>

    constructor ()
      ensures interfaces == []
    {
      interfaces := [];
    }

    // Either retrieves an existing interface, or makes a new one.
    method EnsureInterface(name: string) returns (k: nat)
      modifies this
      ensures interfaces == Ensure(old(interfaces), name)
      ensures k == Find(old(interfaces), name)
    {
      k := 0;
      while k < |interfaces|
        invariant k <= |interfaces| && interfaces == old(interfaces)
        invariant k + Find(interfaces[k..], name) == Find(interfaces, name)
      {
        assert interfaces[k..][0] == interfaces[k];
        if interfaces[k].name == name { return; }
        assert interfaces[k..][1..] == interfaces[k + 1..];
        k := k + 1;
      }
      interfaces := interfaces + [NewIface(name)];
    }

    // A script or key/value line inside the stanza of interfaces[cur].
    method ReadDefaultLine(cur: nat, ws: seq<string>)
      requires cur < |interfaces| && |ws| >= 2
      modifies this
      ensures interfaces == old(interfaces)[cur := DefaultLine(Open(old(interfaces)[cur], None), ws).open.iface]
    {
      var iface := interfaces[cur];
      if ws[0] == "up" && |ws| >= 4 {
        if ws[1] == "route" {
          var c := ScanRouteWords(ws, true);
          if c.verb && c.dst.Some? && c.gateway.Some? {
            var r := Route(c.dst.value, c.gateway, c.metric);
            interfaces := interfaces[cur := iface.(routes := iface.routes + [r])];
            return;
          }
        } else if ws[1] == "ip" {
          var c := ScanIpWords(ws, true, iface.name);
          if c.verb && c.isRoute && c.dst.Some? && c.gateway.Some? {
            var r := Route(c.dst.value, c.gateway, c.metric);
            interfaces := interfaces[cur := iface.(routes := iface.routes + [r])];
            return;
          } else if c.verb && c.isAddr && c.address.Some? && c.thisDev {
            interfaces := interfaces[cur := iface.(addresses := iface.addresses + [c.address.value])];
            return;
          }
        }
      }
      if ws[0] == "down" && |ws| >= 4 {
        if ws[1] == "route" {
          var c := ScanRouteWords(ws, false);
          if c.verb && c.dst.Some? {
            var added := AnyRouteContains(iface.routes, c.dst.value.ip);
            if added { return; }
          }
        } else if ws[1] == "ip" {
          var c := ScanIpWords(ws, false, iface.name);
          if c.verb && ((c.isRoute && c.dst.Some?) || (c.isAddr && c.address.Some? && c.thisDev)) {
            return;
          }
        }
      }
      interfaces := interfaces[cur := AddConfig(iface, ws[0], Join(ws[1..]))];
    }

    // A line inside the stanza of interfaces[cur].
    method ReadBodyLine(cur: nat, pending: Option<IPNetwork>, ws: seq<string>)
      returns (address: Option<IPNetwork>, error: Option<Error>)
      requires cur < |interfaces| && IsBody(ws)
      modifies this
      ensures var b := BodyLine(Open(old(interfaces)[cur], pending), ws);
              interfaces == old(interfaces)[cur := b.open.iface] && address == b.open.pending && error == b.error
    {
      address, error := pending, None;
      var iface := interfaces[cur];
      var directive := DirectiveOf(ws[0]);
      if |ws| < 2 {
        error := Some(InvalidSyntax);
      } else if directive == Address {
        if address.Some? {
          iface := iface.(addresses := iface.addresses + [address.value]);
          interfaces := interfaces[cur := iface];
        }
        address := ParseNetwork(ws[1]);
        if address.None? { error := Some(InvalidAddress); }
      } else if directive == Netmask {
        if address.None? {
          error := Some(NoAddress);
        } else if '.' in ws[1] {
          var mask := ParseIPMask(ws[1]);
          if mask.None? {
            error := Some(InvalidNetmask);
          } else {
            address := Some(address.value.(mask := mask.value));
          }
        } else {
          var prefix := Atoi(ws[1]);
          if prefix.None? {
            error := Some(InvalidNetmask);
          } else {
            address := Some(address.value.(mask := PrefixMask(prefix.value, address.value.ip)));
          }
        }
      } else if directive == Gateway {
        var gateway := ParseIP(ws[1]);
        if gateway.None? {
          error := Some(InvalidGateway);
        } else if Is4(gateway.value) {
          interfaces := interfaces[cur := iface.(gateway4 := gateway)];
        } else {
          interfaces := interfaces[cur := iface.(gateway6 := gateway)];
        }
      } else {
        ReadDefaultLine(cur, ws);
      }
    }

    // An iface line: finish the open stanza, then open the named interface's.
    method OpenStanza(cur: int, pending: Option<IPNetwork>, ws: seq<string>) returns (k: nat)
      requires Reader(interfaces, cur, pending, None).Valid() && |ws| >= 2
      modifies this
      ensures Reader(interfaces, k, None, None) == HeaderLine(Reader(old(interfaces), cur, pending, None), ws)
    {
      if pending.Some? {
        var open := interfaces[cur];
        interfaces := interfaces[cur := open.(addresses := open.addresses + [pending.value])];
      }
      assert interfaces == Reader(old(interfaces), cur, pending, None).Flushed();
      k := EnsureInterface(BaseName(ws[1]));
      var iface := interfaces[k];
      for j := 2 to |ws|
        invariant iface == interfaces[k].(isDHCP := interfaces[k].isDHCP || "dhcp" in ws[2..j],
                                          isPPP := interfaces[k].isPPP || "ppp" in ws[2..j])
      {
        assert ws[2..j + 1] == ws[2..j] + [ws[j]];
        if ws[j] == "dhcp" {
          iface := iface.(isDHCP := true);
        } else if ws[j] == "ppp" {
          iface := iface.(isPPP := true);
        }
      }
      assert ws[2..|ws|] == ws[2..];
      interfaces := interfaces[k := iface.(mode := Join(ws[2..]))];
    }

    // Parses an ifupdown interface file.
    method ReadFile(lines: seq<string>) returns (error: Option<Error>)
      modifies this
      ensures var r := ReadLines(Start(old(interfaces)), lines);
              error == r.error && interfaces == if error.Some? then r.ifaces else r.Flushed()
    {
      ghost var whole := ReadLines(Start(interfaces), lines);
      var cur, address := -1, None;
      error := None;
      assert lines[0..] == lines;
      for i := 0 to |lines|
        invariant Reader(interfaces, cur, address, None).Valid() && error.None?
        invariant ReadLines(Reader(interfaces, cur, address, None), lines[i..]) == whole
      {
        assert lines[i..][0] == lines[i] && lines[i..][1..] == lines[i + 1..];
        ghost var before := Reader(interfaces, cur, address, None);
        var ws := Tokens(lines[i]);
        if |ws| == 0 { continue; }
        var directive := DirectiveOf(ws[0]);
        if directive == Global {
          continue;
        } else if directive == Source {
          error := Some(if |ws| < 2 then InvalidSyntax else SourceNotModelled);
        } else if directive == Stanza {
          if |ws| < 2 {
            error := Some(InvalidSyntax);
          } else {
            cur := OpenStanza(cur, address, ws);
            address := None;
          }
        } else if cur == -1 {
          error := OrphanError(ws);
        } else {
          address, error := ReadBodyLine(cur, address, ws);
        }
        assert Reader(interfaces, cur, address, error) == LineStep(before, lines[i]);
        if error.Some? { return; }
      }
      if address.Some? {
        var iface := interfaces[cur];
        interfaces := interfaces[cur := iface.(addresses := iface.addresses + [address.value])];
      }
    }
  }
}
