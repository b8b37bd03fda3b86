// ifupdown.go: ifInterface.Write, and what ReadFile makes of the stanza it prints.
module IfUpDownWriter {
  import opened Text
  import opened Net
  import opened Sorting
  import opened IfUpDownReader

  // ------------------------------------------------------------- the printed text

  // A line of a stanza: its words behind a tab.
  function Indented(ws: seq<string>): string { "\t" + Join(ws) }

  function HeaderText(iface: Iface): string {
    if iface.mode != "" then "iface " + iface.name + " " + iface.mode else "iface " + iface.name
  }

  // The first address of each family, in list order.
  function Firsts(addrs: seq<IPNetwork>, first4: bool, first6: bool): seq<IPNetwork> {
    if addrs == [] then []
    else if Is4(addrs[0].ip) then
      if first4 then [addrs[0]] + Firsts(addrs[1..], false, first6) else Firsts(addrs[1..], false, first6)
    else
      if first6 then [addrs[0]] + Firsts(addrs[1..], first4, false) else Firsts(addrs[1..], first4, false)
  }

  // The addresses after the first of their family, in list order.
  function Extras(addrs: seq<IPNetwork>, first4: bool, first6: bool): seq<IPNetwork> {
    if addrs == [] then []
    else if Is4(addrs[0].ip) then
      if first4 then Extras(addrs[1..], false, first6) else [addrs[0]] + Extras(addrs[1..], false, first6)
    else
      if first6 then Extras(addrs[1..], first4, false) else [addrs[0]] + Extras(addrs[1..], first4, false)
  }

  function AddressLines(addrs: seq<IPNetwork>): seq<string> {
    if addrs == [] then []
    else [Indented(["address", NetworkString(addrs[0])])] + AddressLines(addrs[1..])
  }

  function GatewayLines(gateway: Option<IP>): seq<string> {
    match gateway case None => [] case Some(ip) => [Indented(["gateway", IPText(ip)])]
  }

  function ValueLines(key: string, values: seq<string>): seq<string> {
    if values == [] then [] else ["\t" + key + " " + values[0]] + ValueLines(key, values[1..])
  }

  function ConfigLines(keys: seq<string>, config: map<string, seq<string>>): seq<string> {
    if keys == [] then [] else ValueLines(keys[0], ConfigValues(config, keys[0])) + ConfigLines(keys[1..], config)
  }

  function IpWords(v4: bool): seq<string> { if v4 then ["ip"] else ["ip", "-6"] }

  function ExtraWords(script: string, verb: string, n: IPNetwork): seq<string> {
    [script] + IpWords(Is4(n.ip)) + ["addr", verb, NetworkString(n), "dev", "$IFACE"]
  }

  function ExtraLines(addrs: seq<IPNetwork>): seq<string> {
    if addrs == [] then []
    else [Indented(ExtraWords("up", "add", addrs[0])), Indented(ExtraWords("down", "del", addrs[0]))]
         + ExtraLines(addrs[1..])
  }

  function RouteWords(script: string, verb: string, r: Route): seq<string> {
    [script] + IpWords(Is4(r.destination.ip))
    + ["route", verb, NetworkString(r.destination), "via", GatewayText(r.gateway), "metric", Itoa(r.metric), "dev", "$IFACE"]
  }

  function RouteLines(routes: seq<Route>): seq<string> {
    if routes == [] then []
    else [Indented(RouteWords("up", "add", routes[0])), Indented(RouteWords("down", "del", routes[0]))]
         + RouteLines(routes[1..])
  }

  // The printed stanza after its header, given the order of the keys.
  function Body(iface: Iface, keys: seq<string>): seq<string> {
    AddressLines(Firsts(iface.addresses, true, true))
    + GatewayLines(iface.gateway4)
    + GatewayLines(iface.gateway6)
    + ConfigLines(keys, iface.config)
    + ExtraLines(Extras(iface.addresses, true, true))
    + RouteLines(iface.routes)
    + [""]
  }

  function Block(iface: Iface, keys: seq<string>): seq<string> { [HeaderText(iface)] + Body(iface, keys) }

  lemma Regroup(h: seq<string>, a: seq<string>, b: seq<string>, c: seq<string>, d: seq<string>, e: seq<string>,
                f: seq<string>, g: seq<string>)
    ensures h + (a + b + c + d + e + f + g) == h + a + b + c + d + e + f + g
  {
    assert h + (a + b + c + d + e + f + g) == h + (a + b + c + d + e + f) + g;
    assert h + (a + b + c + d + e + f) == h + (a + b + c + d + e) + f;
    assert h + (a + b + c + d + e) == h + (a + b + c + d) + e;
    assert h + (a + b + c + d) == h + (a + b + c) + d;
    assert h + (a + b + c) == h + (a + b) + c;
    assert h + (a + b) == h + a + b;
  }

  // How often a key other than "up" and "down" is to be printed.
  function PlainCount(keys: set<string>, k: string): nat {
    if k in keys && k != "up" && k != "down" then 1 else 0
  }

  // Each key once, in byte order, except that "up" and "down" come last.
  ghost predicate KeyOrder(config: map<string, seq<string>>, keys: seq<string>) {
    exists plain ::
      && Sorted(plain, StringLess)
      && (forall k :: multiset(plain)[k] == PlainCount(config.Keys, k))
      && keys == plain + (if "up" in config then ["up"] else []) + (if "down" in config then ["down"] else [])
  }

  lemma PlainKeys(plain: seq<string>, keys: set<string>)
    requires forall k :: multiset(plain)[k] == PlainCount(keys, k)
    ensures forall i, j :: 0 <= i < j < |plain| ==> plain[i] != plain[j]
    ensures forall k :: k in plain <==> k in keys && k != "up" && k != "down"
  {
    forall i, j | 0 <= i < j < |plain| ensures plain[i] != plain[j] {
      if plain[i] == plain[j] { CountTwo(plain, i, j); }
    }
    forall k ensures k in plain <==> k in keys && k != "up" && k != "down" {
      assert k in plain <==> k in multiset(plain);
    }
  }

  ghost predicate ListsOnce(keys: seq<string>, known: set<string>) {
    (forall i, j :: 0 <= i < j < |keys| ==> keys[i] != keys[j]) && forall k :: k in keys <==> k in known
  }

  lemma AddKey(keys: seq<string>, known: set<string>, k: string)
    requires ListsOnce(keys, known) && k !in known
    ensures ListsOnce(keys + [k], known + {k})
  {
    assert forall i :: 0 <= i < |keys| ==> keys[i] in keys;
  }

  lemma KeyOrderLists(config: map<string, seq<string>>, keys: seq<string>)
    requires KeyOrder(config, keys)
    ensures KeyList(config, keys)
  {
    hide Sorted, StringLess;
    var plain :|
      && Sorted(plain, StringLess)
      && (forall k :: multiset(plain)[k] == PlainCount(config.Keys, k))
      && keys == plain + (if "up" in config then ["up"] else []) + (if "down" in config then ["down"] else []);
    PlainKeys(plain, config.Keys);
    var known := config.Keys - {"up", "down"};
    assert ListsOnce(plain, known);
    WithScripts(config.Keys, plain, known, keys);
  }

  lemma WithScripts(all: set<string>, plain: seq<string>, known: set<string>, keys: seq<string>)
    requires known == all - {"up", "down"} && ListsOnce(plain, known)
    requires keys == plain + (if "up" in all then ["up"] else []) + (if "down" in all then ["down"] else [])
    ensures ListsOnce(keys, all)
  {
    hide ListsOnce;
    var some, have := plain, known;
    if "up" in all {
      AddKey(some, have, "up");
      some, have := some + ["up"], have + {"up"};
    }
    if "down" in all {
      AddKey(some, have, "down");
      some, have := some + ["down"], have + {"down"};
    }
    assert keys == some && have == all;
  }

  // ------------------------------------------------------------------- the writer

  // The keys besides "up" and "down", in the arbitrary order of a map's iteration.
  method CollectKeys(config: map<string, seq<string>>) returns (keys: seq<string>, hasUp: bool, hasDown: bool)
    ensures forall k :: multiset(keys)[k] == PlainCount(config.Keys, k)
    ensures hasUp == ("up" in config) && hasDown == ("down" in config)
  {
    keys, hasUp, hasDown := [], false, false;
    var left := config.Keys;
    while left != {}
      invariant left <= config.Keys
      invariant hasUp == ("up" in config.Keys - left) && hasDown == ("down" in config.Keys - left)
      invariant forall k :: multiset(keys)[k] == PlainCount(config.Keys - left, k)
      decreases left
    {
      var key :| key in left;
      left := left - {key};
      if key == "up" {
        hasUp := true;
      } else if key == "down" {
        hasDown := true;
      } else {
        keys := keys + [key];
      }
    }
    assert config.Keys - left == config.Keys;
  }

  method SortedKeys(config: map<string, seq<string>>) returns (keys: seq<string>)
    ensures KeyOrder(config, keys)
  {
    var hasUp, hasDown;
    keys, hasUp, hasDown := CollectKeys(config);
    StringLessIsOrder();
    StableSortCorrect(keys, StringLess);
    keys := StableSort(keys, StringLess);
    ghost var plain := keys;
    if hasUp { keys := keys + ["up"]; }
    if hasDown { keys := keys + ["down"]; }
    assert keys == plain + (if "up" in config then ["up"] else []) + (if "down" in config then ["down"] else []);
  }

  // Write our interface config, returning the lines that go to the file.
  method Write(iface: Iface) returns (fd: seq<string>)
    ensures exists keys :: KeyOrder(iface.config, keys) && fd == Block(iface, keys)
  {
    if iface.mode != "" {
      fd := ["iface " + iface.name + " " + iface.mode];
    } else {
      fd := ["iface " + iface.name];
    }
    fd := WriteFirsts(iface.addresses, fd);
    fd := WriteGateway(iface.gateway4, fd);
    fd := WriteGateway(iface.gateway6, fd);
    var keys := SortedKeys(iface.config);
    fd := WriteConfig(keys, iface.config, fd);
    fd := WriteExtras(iface.addresses, fd);
    fd := WriteRoutes(iface.routes, fd);
    fd := fd + [""];
    Regroup([HeaderText(iface)], AddressLines(Firsts(iface.addresses, true, true)), GatewayLines(iface.gateway4),
      GatewayLines(iface.gateway6), ConfigLines(keys, iface.config), ExtraLines(Extras(iface.addresses, true, true)),
      RouteLines(iface.routes), [""]);
  }

  method WriteGateway(gateway: Option<IP>, fd0: seq<string>) returns (fd: seq<string>)
    ensures fd == fd0 + GatewayLines(gateway)
  {
    fd := fd0;
    if gateway.Some? { fd := fd + [Indented(["gateway", IPText(gateway.value)])]; }
  }

  method WriteFirsts(addrs: seq<IPNetwork>, fd0: seq<string>) returns (fd: seq<string>)
    ensures fd == fd0 + AddressLines(Firsts(addrs, true, true))
  {
    fd := fd0;
    var first4, first6 := true, true;
    ghost var all := fd0 + AddressLines(Firsts(addrs, true, true));
    assert addrs[0..] == addrs;
    for i := 0 to |addrs|
      invariant fd + AddressLines(Firsts(addrs[i..], first4, first6)) == all
    {
      var addr := addrs[i];
      assert addrs[i..][1..] == addrs[i + 1..];
      if !Is4(addr.ip) {
        if !first6 { continue; }
        first6 := false;
      } else {
        if !first4 { continue; }
        first4 := false;
      }
      var line := Indented(["address", NetworkString(addr)]);
      assert ([addr] + Firsts(addrs[i + 1..], first4, first6))[1..] == Firsts(addrs[i + 1..], first4, first6);
      assert fd + ([line] + AddressLines(Firsts(addrs[i + 1..], first4, first6)))
          == (fd + [line]) + AddressLines(Firsts(addrs[i + 1..], first4, first6));
      fd := fd + [line];
    }
    assert Firsts(addrs[|addrs|..], first4, first6) == [];
  }

  method WriteConfig(keys: seq<string>, config: map<string, seq<string>>, fd0: seq<string>) returns (fd: seq<string>)
    ensures fd == fd0 + ConfigLines(keys, config)
  {
    hide ConfigValues;
    fd := fd0;
    assert keys[0..] == keys;
    for i := 0 to |keys|
      invariant fd + ConfigLines(keys[i..], config) == fd0 + ConfigLines(keys, config)
    {
      assert keys[i..][0] == keys[i] && keys[i..][1..] == keys[i + 1..];
      var values := ConfigValues(config, keys[i]);
      ghost var rest := ConfigLines(keys[i + 1..], config);
      assert fd + (ValueLines(keys[i], values) + rest) == (fd + ValueLines(keys[i], values)) + rest;
      fd := WriteValues(keys[i], values, fd);
    }
  }

  method WriteValues(key: string, values: seq<string>, fd0: seq<string>) returns (fd: seq<string>)
    ensures fd == fd0 + ValueLines(key, values)
  {
    fd := fd0;
    assert values[0..] == values;
    for j := 0 to |values|
      invariant fd + ValueLines(key, values[j..]) == fd0 + ValueLines(key, values)
    {
      assert values[j..][1..] == values[j + 1..];
      var line := "\t" + key + " " + values[j];
      assert fd + ([line] + ValueLines(key, values[j + 1..])) == (fd + [line]) + ValueLines(key, values[j + 1..]);
      fd := fd + [line];
    }
  }

  method WriteExtras(addrs: seq<IPNetwork>, fd0: seq<string>) returns (fd: seq<string>)
    ensures fd == fd0 + ExtraLines(Extras(addrs, true, true))
  {
    fd := fd0;
    var first4, first6 := false, false;
    ghost var all := fd0 + ExtraLines(Extras(addrs, true, true));
    assert addrs[0..] == addrs;
    for i := 0 to |addrs|
      invariant fd + ExtraLines(Extras(addrs[i..], !first4, !first6)) == all
    {
      var addr := addrs[i];
      assert addrs[i..][1..] == addrs[i + 1..];
      if !Is4(addr.ip) {
        if !first6 {
          first6 := true;
          continue;
        }
      } else {
        if !first4 {
          first4 := true;
          continue;
        }
      }
      var lines := [Indented(ExtraWords("up", "add", addr)), Indented(ExtraWords("down", "del", addr))];
      ghost var rest := Extras(addrs[i + 1..], !first4, !first6);
      assert ([addr] + rest)[1..] == rest;
      assert fd + (lines + ExtraLines(rest)) == (fd + lines) + ExtraLines(rest);
      fd := fd + lines;
    }
    assert Extras(addrs[|addrs|..], !first4, !first6) == [];
  }

  method WriteRoutes(routes: seq<Route>, fd0: seq<string>) returns (fd: seq<string>)
    ensures fd == fd0 + RouteLines(routes)
  {
    fd := fd0;
    ghost var all := fd0 + RouteLines(routes);
    assert routes[0..] == routes;
    for i := 0 to |routes|
      invariant fd + RouteLines(routes[i..]) == all
    {
      assert routes[i..][1..] == routes[i + 1..];
      var lines := [Indented(RouteWords("up", "add", routes[i])), Indented(RouteWords("down", "del", routes[i]))];
      assert fd + (lines + RouteLines(routes[i + 1..])) == (fd + lines) + RouteLines(routes[i + 1..]);
      fd := fd + lines;
    }
  }
}
