// Reading back what ifInterface.Write prints: everything returns unchanged,
// except that the pending-address register reorders the addresses.
module IfUpDownRoundTrip {
  import opened Text
  import opened Net
  import opened Sorting
  import opened IfUpDownReader
  import opened IfUpDownWriter

  // ---------------------------------------------- interfaces that Write can print

  predicate Clean(s: string) { '#' !in s && s == Join(Fields(s)) }

  predicate PrintableName(name: string) { IsWord(name) && '#' !in name && ':' !in name }

  // A value the reader stores as it is, rather than as a route or an address.
  predicate PrintableValue(iface: Iface, key: string, value: string) {
    Clean(value) && value != "" && Script([key] + Fields(value), iface.(routes := [])) == Nothing
  }

  predicate PrintableKey(key: string) { IsWord(key) && '#' !in key && DirectiveOf(key) == Default }

  predicate PrintableConfig(iface: Iface) {
    forall key :: key in iface.config ==>
      && PrintableKey(key) && iface.config[key] != []
      && forall i :: 0 <= i < |iface.config[key]| ==> PrintableValue(iface, key, iface.config[key][i])
  }

  // The part ReadFile guarantees of every interface it yields.
  predicate Printable(iface: Iface) {
    PrintableName(iface.name) && Clean(iface.mode) && PrintableConfig(iface)
  }

  // A netmask can leave an IPv6 destination with an IPv4 mask, which prints as "<nil>".
  // Masks of the right family that no prefix length describes are not modelled.
  predicate CanonicalRoute(r: Route) { (WellFormed(r.destination) ==> Canonical(r.destination)) && FitsInt(r.metric) }

  predicate CanonicalIfFits(n: IPNetwork) { WellFormed(n) ==> Canonical(n) }

  // Masks of the right family that no prefix length describes are not modelled.
  predicate ModelledNetworks(iface: Iface) {
    && (forall i :: 0 <= i < |iface.addresses| ==> CanonicalIfFits(iface.addresses[i]))
    && (forall i :: 0 <= i < |iface.routes| ==> CanonicalRoute(iface.routes[i]))
    && (iface.gateway4.Some? ==> Is4(iface.gateway4.value))
    && (iface.gateway6.Some? ==> !Is4(iface.gateway6.value))
  }

  // The first address of each family has a mask of its own family, so that it does not
  // print as "<nil>".
  predicate FirstsFit(iface: Iface) {
    var firsts := Firsts(iface.addresses, true, true);
    forall i :: 0 <= i < |firsts| ==> WellFormed(firsts[i])
  }

  predicate CanonicalNetworks(iface: Iface) { ModelledNetworks(iface) && FirstsFit(iface) }

  // ------------------------------------------------------------- the expected result

  // The addresses that print, in list order.
  function Fitting(addrs: seq<IPNetwork>): seq<IPNetwork> {
    if addrs == [] then [] else (if WellFormed(addrs[0]) then [addrs[0]] else []) + Fitting(addrs[1..])
  }

  // The order the addresses come back in. A pending address is flushed by the
  // next "address" line or at the end, after the extras were appended.
  function ReadBackOrder(addrs: seq<IPNetwork>): seq<IPNetwork> {
    var firsts, extras := Firsts(addrs, true, true), Extras(addrs, true, true);
    if firsts == [] then Fitting(extras)
    else firsts[..|firsts| - 1] + Fitting(extras) + [firsts[|firsts| - 1]]
  }

  // A printed route as the reader takes it: without a destination or a gateway it stays a
  // script line, and a metric of zero becomes the default.
  function AbsorbRoute(iface: Iface, r: Route): (after: Iface)
    ensures after == iface.(routes := after.routes, config := after.config)
  {
    if WellFormed(r.destination) && r.gateway.Some? then
      iface.(routes := iface.routes + [r.(metric := if r.metric == 0 then 256 else r.metric)])
    else
      var kept := AddConfig(iface, "up", Join(RouteWords("up", "add", r)[1..]));
      if WellFormed(r.destination) then kept else AddConfig(kept, "down", Join(RouteWords("down", "del", r)[1..]))
  }

  function AbsorbRoutes(iface: Iface, routes: seq<Route>): (after: Iface)
    ensures after == iface.(routes := after.routes, config := after.config)
    decreases |routes|
  {
    if routes == [] then iface else AbsorbRoutes(AbsorbRoute(iface, routes[0]), routes[1..])
  }

  function AddedConfig(config: map<string, seq<string>>, key: string, value: string): map<string, seq<string>> {
    config[key := ConfigValues(config, key) + [value]]
  }

  // A printed extra address without a mask that fits stays as two script lines.
  function LostExtra(config: map<string, seq<string>>, n: IPNetwork): map<string, seq<string>> {
    if WellFormed(n) then config
    else AddedConfig(AddedConfig(config, "up", Join(ExtraWords("up", "add", n)[1..])),
                     "down", Join(ExtraWords("down", "del", n)[1..]))
  }

  function LostExtras(config: map<string, seq<string>>, extras: seq<IPNetwork>): map<string, seq<string>>
    decreases |extras|
  {
    if extras == [] then config else LostExtras(LostExtra(config, extras[0]), extras[1..])
  }

  // Everything but the routes and the lost addresses.
  function Reopened(iface: Iface): Iface {
    iface.(addresses := ReadBackOrder(iface.addresses),
           isDHCP := "dhcp" in Fields(iface.mode),
           isPPP := "ppp" in Fields(iface.mode))
  }

  function ReadBack(iface: Iface): Iface {
    AbsorbRoutes(Reopened(iface).(routes := [], config := LostExtras(iface.config, Extras(iface.addresses, true, true))),
                 iface.routes)
  }

  // ------------------------------------------------------- reading inside a stanza

  function ReadBody(o: Open, lines: seq<string>): Outcome
    decreases |lines|
  {
    if lines == [] then Good(o)
    else
      var ws := Tokens(lines[0]);
      if ws == [] then ReadBody(o, lines[1..])
      else if !IsBody(ws) then Bad(o, InvalidSyntax)
      else
        var b := BodyLine(o, ws);
        if b.error.Some? then b else ReadBody(b.open, lines[1..])
  }

  function Current(r: Reader): Open
    requires r.Valid() && r.cur >= 0
  {
    Open(r.ifaces[r.cur], r.pending)
  }

  function Put(r: Reader, o: Open): (r': Reader)
    requires r.Valid() && r.cur >= 0
    ensures r'.Valid() && r'.cur == r.cur && Current(r') == o
  {
    Reader(r.ifaces[r.cur := o.iface], r.cur, o.pending, r.error)
  }

  lemma {:induction false} ReadLinesInStanza(r: Reader, lines: seq<string>)
    requires r.Valid() && r.cur >= 0 && r.error.None?
    requires ReadBody(Current(r), lines).error.None?
    ensures ReadLines(r, lines) == Put(r, ReadBody(Current(r), lines).open)
    decreases |lines|
  {
    if lines == [] {
      assert r.ifaces[r.cur := r.ifaces[r.cur]] == r.ifaces;
    } else {
      var ws := Tokens(lines[0]);
      if ws == [] {
        ReadLinesInStanza(r, lines[1..]);
      } else {
        var o := BodyLine(Current(r), ws).open;
        assert LineStep(r, lines[0]) == Put(r, o);
        ReadLinesInStanza(Put(r, o), lines[1..]);
      }
    }
  }

  lemma {:induction false} ReadBodyAppend(o: Open, a: seq<string>, b: seq<string>)
    requires ReadBody(o, a).error.None?
    ensures ReadBody(o, a + b) == ReadBody(ReadBody(o, a).open, b)
    decreases |a|
  {
    if a == [] {
      assert a + b == b;
    } else {
      assert (a + b)[0] == a[0] && (a + b)[1..] == a[1..] + b;
      var ws := Tokens(a[0]);
      if ws == [] {
        ReadBodyAppend(o, a[1..], b);
      } else {
        ReadBodyAppend(BodyLine(o, ws).open, a[1..], b);
      }
    }
  }

  predicate NoHash(ws: seq<string>) { forall i :: 0 <= i < |ws| ==> '#' !in ws[i] }

  lemma TokensIndented(ws: seq<string>)
    requires AreWords(ws) && NoHash(ws)
    ensures Tokens(Indented(ws)) == ws
  {
    JoinContains(ws, '#');
    assert '#' !in Indented(ws);
    FieldsSkipsSpace('\t', Join(ws));
    FieldsJoin(ws);
  }

  lemma BodyOne(o: Open, ws: seq<string>)
    requires AreWords(ws) && NoHash(ws) && IsBody(ws)
    ensures ReadBody(o, [Indented(ws)]) == BodyLine(o, ws)
  {
    hide BodyLine, Indented, Tokens;
    TokensIndented(ws);
    assert [Indented(ws)][1..] == [];
    var b := BodyLine(o, ws);
    assert b.error.None? ==> ReadBody(b.open, []) == Good(b.open);
  }

  lemma NetworkWord(n: IPNetwork)
    requires CanonicalNetwork(n)
    ensures ParseCIDR(NetworkString(n)) == Some(n)
    ensures '/' in NetworkString(n) && IsWord(NetworkString(n)) && '#' !in NetworkString(n)
  {
    NetworkTextRoundTrip(n);
    NetTextIsWord(NetworkText(n));
  }

  lemma IPWord(ip: IP)
    ensures ParseIP(IPText(ip)) == Some(ip) && IsWord(IPText(ip)) && '#' !in IPText(ip) && !IsKeyword(IPText(ip))
  {
    IPTextRoundTrip(ip);
    NetTextIsWord(IPText(ip));
    var i :| 0 <= i < |IPText(ip)| && IPText(ip)[i] == Separator(Is4(ip));
    NotAKeyword(IPText(ip), i);
  }

  // The words ScanIp looks for.
  predicate IsKeyword(w: string) {
    w in ["addr", "address", "route", "add", "del", "delete", "dev", "via", "metric"]
  }

  lemma NotAKeyword(w: string, i: nat)
    requires i < |w| && !('a' <= w[i] <= 'z')
    ensures !IsKeyword(w)
  {}

  lemma NilWord()
    ensures ParseIP("<nil>") == None && ParseCIDR("<nil>") == None
    ensures IsWord("<nil>") && '#' !in "<nil>" && !IsKeyword("<nil>")
  {
    NilIsNoIP();
    NotAKeyword("<nil>", 0);
  }

  lemma DestinationWord(n: IPNetwork)
    requires WellFormed(n) ==> Canonical(n)
    ensures ParseCIDR(NetworkString(n)) == if WellFormed(n) then Some(n) else None
    ensures IsWord(NetworkString(n)) && '#' !in NetworkString(n)
  {
    NilWord();
    if WellFormed(n) { NetworkWord(n); }
  }

  lemma GatewayWord(gateway: Option<IP>)
    ensures ParseIP(GatewayText(gateway)) == gateway
    ensures IsWord(GatewayText(gateway)) && '#' !in GatewayText(gateway) && !IsKeyword(GatewayText(gateway))
  {
    NilWord();
    if gateway.Some? { IPWord(gateway.value); }
  }

  lemma MetricWord(m: int)
    requires FitsInt(m)
    ensures Atoi(Itoa(m)) == Some(m) && IsWord(Itoa(m)) && '#' !in Itoa(m) && !IsKeyword(Itoa(m))
  {
    AtoiItoa(m);
    var s := Itoa(m);
    assert forall i :: 0 <= i < |s| ==> DigitValue(s[i]).Some? || s[i] == '-';
    assert forall i :: 0 <= i < |s| ==> !IsSpace(s[i]) && s[i] != '#';
    NotAKeyword(s, 0);
  }

  // ------------------------------------------------------------ the chunks, one by one

  lemma ReadAddress(o: Open, n: IPNetwork)
    requires CanonicalNetwork(n)
    ensures ReadBody(o, [Indented(["address", NetworkString(n)])]) == Good(Open(Flush(o), Some(n)))
  {
    hide ReadBody, NetworkString, Indented, ParseCIDR, CanonicalNetwork, DefaultLine, NetmaskLine, GatewayLine;
    var ws := ["address", NetworkString(n)];
    NetworkWord(n);
    BodyOne(o, ws);
  }

  lemma {:induction false} ReadAddresses(o: Open, addrs: seq<IPNetwork>)
    requires forall i :: 0 <= i < |addrs| ==> CanonicalNetwork(addrs[i])
    ensures ReadBody(o, AddressLines(addrs)) == Good(
      if addrs == [] then o
      else Open(Flush(o).(addresses := Flush(o).addresses + addrs[..|addrs| - 1]), Some(addrs[|addrs| - 1])))
    decreases |addrs|
  {
    hide BodyLine, NetworkString, Indented, Tokens, IsBody, CanonicalNetwork;
    if addrs != [] {
      var line := Indented(["address", NetworkString(addrs[0])]);
      var o' := Open(Flush(o), Some(addrs[0]));
      ReadAddress(o, addrs[0]);
      ReadBodyAppend(o, [line], AddressLines(addrs[1..]));
      ReadAddresses(o', addrs[1..]);
      if |addrs| > 1 {
        assert [addrs[0]] + addrs[1..][..|addrs| - 2] == addrs[..|addrs| - 1];
        assert Flush(o).addresses + [addrs[0]] + addrs[1..][..|addrs| - 2] == Flush(o).addresses + addrs[..|addrs| - 1];
      } else {
        assert Flush(o).addresses + addrs[..0] == Flush(o).addresses;
      }
    }
  }

  lemma ReadGateway(o: Open, gateway: Option<IP>)
    ensures ReadBody(o, GatewayLines(gateway)) == Good(
      if gateway.None? then o
      else if Is4(gateway.value) then o.(iface := o.iface.(gateway4 := gateway))
      else o.(iface := o.iface.(gateway6 := gateway)))
  {
    if gateway.Some? {
      var ws := ["gateway", IPText(gateway.value)];
      IPWord(gateway.value);
      assert PlainWord("gateway") && DirectiveOf("gateway") == Gateway;
      hide IPText, ParseIP, Indented, ReadBody, DefaultLine, AddressLine, NetmaskLine, IsWord, DirectiveOf;
      assert AreWords(ws) && NoHash(ws);
      BodyOne(o, ws);
    }
  }

  // The config map after the values of a key were read.
  function WithValues(config: map<string, seq<string>>, key: string, values: seq<string>): map<string, seq<string>> {
    config[key := ConfigValues(config, key) + values]
  }

  lemma ScriptIgnoresTheRest(ws: seq<string>, a: Iface, b: Iface)
    requires ws != [] && a.name == b.name && a.routes == b.routes
    ensures Script(ws, a) == Script(ws, b)
  {}

  lemma ReadValue(o: Open, source: Iface, key: string, value: string)
    requires PrintableKey(key) && o.iface.name == source.name && o.iface.routes == []
    requires PrintableValue(source, key, value)
    ensures ReadBody(o, ["\t" + key + " " + value]) == Good(o.(iface := AddConfig(o.iface, key, value)))
  {
    hide ReadBody, Tokens, Script, Fields;
    var ws := [key] + Fields(value);
    FieldsNoHash(value);
    assert Fields(value) != [];
    assert ws[1..] == Fields(value);
    assert "\t" + key + " " + value == Indented(ws);
    ScriptIgnoresTheRest(ws, o.iface, source.(routes := []));
    BodyOne(o, ws);
  }

  lemma {:induction false} ReadValues(o: Open, source: Iface, key: string, values: seq<string>)
    requires PrintableKey(key) && o.iface.name == source.name && o.iface.routes == []
    requires values != [] && forall i :: 0 <= i < |values| ==> PrintableValue(source, key, values[i])
    ensures ReadBody(o, ValueLines(key, values))
         == Good(o.(iface := o.iface.(config := WithValues(o.iface.config, key, values))))
    decreases |values|
  {
    hide BodyLine, Tokens, IsBody, PrintableValue, PrintableKey;
    var o' := o.(iface := AddConfig(o.iface, key, values[0]));
    ReadValue(o, source, key, values[0]);
    ReadBodyAppend(o, ["\t" + key + " " + values[0]], ValueLines(key, values[1..]));
    if |values| > 1 {
      ReadValues(o', source, key, values[1..]);
      assert ConfigValues(o.iface.config, key) + [values[0]] + values[1..] == ConfigValues(o.iface.config, key) + values;
    } else {
      assert values == [values[0]];
      assert ValueLines(key, values[1..]) == [];
    }
  }

  lemma {:induction false} FieldsNoHash(s: string)
    requires '#' !in s
    ensures NoHash(Fields(s))
    decreases |s|
  {
    if s != [] {
      if IsSpace(s[0]) {
        FieldsNoHash(s[1..]);
      } else {
        FieldsNoHash(s[|LeadingWord(s)|..]);
      }
    }
  }

  function Gather(into: map<string, seq<string>>, keys: seq<string>, config: map<string, seq<string>>): map<string,
                  seq<string>>
    decreases |keys|
  {
    if keys == [] then into else Gather(WithValues(into, keys[0], ConfigValues(config, keys[0])), keys[1..], config)
  }

  lemma {:induction false} ReadConfig(o: Open, source: Iface, keys: seq<string>)
    requires PrintableConfig(source) && o.iface.name == source.name && o.iface.routes == []
    requires forall k :: k in keys ==> k in source.config
    ensures ReadBody(o, ConfigLines(keys, source.config))
         == Good(o.(iface := o.iface.(config := Gather(o.iface.config, keys, source.config))))
    decreases |keys|
  {
    if keys != [] {
      hide BodyLine, Tokens, IsBody, PrintableValue, PrintableKey;
      var values := ConfigValues(source.config, keys[0]);
      assert keys[0] in keys;
      ReadValues(o, source, keys[0], values);
      var o' := o.(iface := o.iface.(config := WithValues(o.iface.config, keys[0], values)));
      ReadBodyAppend(o, ValueLines(keys[0], values), ConfigLines(keys[1..], source.config));
      ReadConfig(o', source, keys[1..]);
    }
  }

  lemma {:induction false} GatherDisjoint(into: map<string, seq<string>>, keys: seq<string>, config: map<string,
                                        seq<string>>)
    requires forall i, j :: 0 <= i < j < |keys| ==> keys[i] != keys[j]
    requires forall k :: k in keys ==> k in config && k !in into
    ensures forall x :: x in Gather(into, keys, config) <==> x in into || x in keys
    ensures forall x :: x in keys ==> Gather(into, keys, config)[x] == config[x]
    ensures forall x :: x in into ==> Gather(into, keys, config)[x] == into[x]
    decreases |keys|
  {
    if keys != [] {
      var k0, rest := keys[0], keys[1..];
      var into' := WithValues(into, k0, config[k0]);
      assert into' == into[k0 := config[k0]] by { assert [] + config[k0] == config[k0]; }
      assert forall x :: x in rest ==> x in keys && x != k0;
      assert forall x :: x in keys <==> x == k0 || x in rest;
      GatherDisjoint(into', rest, config);
    }
  }

  lemma GatherAll(keys: seq<string>, config: map<string, seq<string>>)
    requires KeyList(config, keys)
    ensures Gather(map[], keys, config) == config
  {
    GatherDisjoint(map[], keys, config);
  }

  // "addr <verb> <network> dev $IFACE" from word f on.
  predicate AddrShape(ws: seq<string>, f: nat, verb: string, n: IPNetwork) {
    && |ws| == f + 5 && ws[f] == "addr" && ws[f + 1] == verb && ws[f + 2] == NetworkString(n)
    && ws[f + 3] == "dev" && ws[f + 4] == "$IFACE"
  }

  lemma ScanAddr(ws: seq<string>, f: nat, up: bool, verb: string, name: string, n: IPNetwork)
    requires AddrShape(ws, f, verb, n) && CanonicalIfFits(n) && verb == if up then "add" else "del"
    ensures ScanIp(ws, f, up, name, NO_IP_COMMAND) == NO_IP_COMMAND.(isAddr := true, verb := true, thisDev := true,
              address := if WellFormed(n) then Some(n) else None)
  {
    DestinationWord(n);
    hide NetworkString, ParseCIDR, Canonical, WellFormed;
    var c1 := NO_IP_COMMAND.(isAddr := true);
    assert ScanIp(ws, f, up, name, NO_IP_COMMAND) == ScanIp(ws, f + 1, up, name, c1);
    var c2 := c1.(verb := true, address := if WellFormed(n) then Some(n) else None);
    assert ScanIp(ws, f + 1, up, name, c1) == ScanIp(ws, f + 3, up, name, c2);
    ScanDevice(ws, f + 3, up, name, c2);
  }

  lemma ScanSkips(ws: seq<string>, f: nat, up: bool, name: string, c: IpCommand)
    requires f + 1 < |ws| && ws[f] == "-6"
    ensures ScanIp(ws, f, up, name, c) == ScanIp(ws, f + 1, up, name, c)
  {
    NotAKeyword(ws[f], 0);
  }

  predicate ScriptVerb(script: string, verb: string) {
    (script == "up" && verb == "add") || (script == "down" && verb == "del")
  }

  predicate PlainWord(w: string) { IsWord(w) && '#' !in w }

  predicate IsScriptLine(ws: seq<string>) {
    AreWords(ws) && NoHash(ws) && |ws| >= 4 && IsBody(ws) && DirectiveOf(ws[0]) == Default
  }

  // A script line for the ip command, as far as its first f words go.
  predicate IpShape(ws: seq<string>, script: string, f: nat) {
    IsScriptLine(ws) && ws[0] == script && ws[1] == "ip" && (f == 2 || (f == 3 && ws[2] == "-6"))
  }

  lemma IpScript(ws: seq<string>, script: string, verb: string, f: nat, tail: seq<string>)
    requires ScriptVerb(script, verb) && (f == 2 || f == 3) && ws == [script] + IpWords(f == 2) + tail && |tail| >= 2
    requires forall i :: 0 <= i < |tail| ==> PlainWord(tail[i])
    ensures IpShape(ws, script, f) && ws[f..] == tail
  {
    var head := [script] + IpWords(f == 2);
    assert forall i :: 0 <= i < |head| ==> PlainWord(head[i]);
    assert forall i :: |head| <= i < |ws| ==> ws[i] == tail[i - |head|];
    assert forall i :: 0 <= i < |head| ==> ws[i] == head[i];
    assert forall i :: 0 <= i < |ws| ==> PlainWord(ws[i]);
  }

  function ExtraTail(verb: string, n: IPNetwork): seq<string> { ["addr", verb, NetworkString(n), "dev", "$IFACE"] }

  lemma ExtraWordsShape(script: string, verb: string, n: IPNetwork, f: nat)
    requires CanonicalIfFits(n) && ScriptVerb(script, verb) && f == if Is4(n.ip) then 2 else 3
    ensures IpShape(ExtraWords(script, verb, n), script, f) && AddrShape(ExtraWords(script, verb, n), f, verb, n)
  {
    DestinationWord(n);
    PlainWords();
    hide CanonicalIfFits, NetworkString, IpWords, IpShape;
    PlainExtra(verb, n);
    hide PlainWord;
    assert ExtraWords(script, verb, n) == [script] + IpWords(f == 2) + ExtraTail(verb, n);
    hide ExtraWords, ExtraTail, AddrShape;
    TailLength(verb, n);
    IpScript(ExtraWords(script, verb, n), script, verb, f, ExtraTail(verb, n));
    AddrTail(ExtraWords(script, verb, n), f, verb, n);
  }

  lemma TailLength(verb: string, n: IPNetwork)
    ensures |ExtraTail(verb, n)| == 5
  {
    hide NetworkString;
  }

  lemma AddrTail(ws: seq<string>, f: nat, verb: string, n: IPNetwork)
    requires f <= |ws| && ws[f..] == ExtraTail(verb, n)
    ensures AddrShape(ws, f, verb, n)
  {
    hide NetworkString;
    var tail := ExtraTail(verb, n);
    SuffixAt(ws, f, tail);
    assert ws[f + 0] == tail[0] && ws[f + 1] == tail[1] && ws[f + 2] == tail[2] && ws[f + 3] == tail[3]
           && ws[f + 4] == tail[4];
  }

  lemma PlainExtra(verb: string, n: IPNetwork)
    requires PlainWord("addr") && PlainWord(verb) && PlainWord(NetworkString(n)) && PlainWord("dev")
             && PlainWord("$IFACE")
    ensures var tail := ExtraTail(verb, n); forall i :: 0 <= i < |tail| ==> PlainWord(tail[i])
  {
    hide PlainWord, NetworkString;
  }

  lemma ExtraScript(script: string, verb: string, n: IPNetwork, iface: Iface)
    requires CanonicalIfFits(n) && ScriptVerb(script, verb)
    ensures IsScriptLine(ExtraWords(script, verb, n))
    ensures Script(ExtraWords(script, verb, n), iface) ==
            if !WellFormed(n) then Nothing else if script == "up" then AnAddress(n) else Skipped
  {
    var f := if Is4(n.ip) then 2 else 3;
    hide ExtraWords, NetworkString, CanonicalIfFits, WellFormed, ScanRoute, ScanIp, IsBody, AreWords, NoHash, AddrShape;
    var ws := ExtraWords(script, verb, n);
    ExtraWordsShape(script, verb, n, f);
    ScanAddr(ws, f, script == "up", verb, iface.name, n);
    if f == 3 { ScanSkips(ws, 2, script == "up", iface.name, NO_IP_COMMAND); }
  }

  // The literal words of the printed script lines.
  lemma PlainWords()
    ensures PlainWord("addr") && PlainWord("route") && PlainWord("add") && PlainWord("del") && PlainWord("dev")
    ensures PlainWord("$IFACE") && PlainWord("via") && PlainWord("metric")
  {}

  // An extra address after its two lines were read.
  function WithExtra(iface: Iface, n: IPNetwork): Iface {
    iface.(addresses := iface.addresses + Fitting([n]), config := LostExtra(iface.config, n))
  }

  lemma ReadExtra(o: Open, n: IPNetwork)
    requires CanonicalIfFits(n)
    ensures var up := ReadBody(o, [Indented(ExtraWords("up", "add", n))]);
            && up.error.None?
            && ReadBody(up.open, [Indented(ExtraWords("down", "del", n))]) == Good(o.(iface := WithExtra(o.iface, n)))
  {
    OneFitting(n);
    hide CanonicalIfFits, Indented, ExtraWords, Script, ReadBody, AddressLine, NetmaskLine, GatewayLine, Join, WellFormed,
         Fitting;
    var up, down := ExtraWords("up", "add", n), ExtraWords("down", "del", n);
    ExtraIsScript(n);
    ExtraScript("up", "add", n, o.iface);
    BodyOne(o, up);
    var o' := BodyLine(o, up).open;
    ExtraScript("down", "del", n, o'.iface);
    BodyOne(o', down);
    assert o.iface.addresses + [] == o.iface.addresses;
  }

  lemma ExtraIsScript(n: IPNetwork)
    ensures var up, down := ExtraWords("up", "add", n), ExtraWords("down", "del", n);
            up != [] && up[0] == "up" && down != [] && down[0] == "down"
  {
    hide NetworkString;
  }

  lemma OneFitting(n: IPNetwork)
    ensures Fitting([n]) == if WellFormed(n) then [n] else []
  {
    assert [n][1..] == [];
  }

  function WithExtras(iface: Iface, addrs: seq<IPNetwork>): Iface
    decreases |addrs|
  {
    if addrs == [] then iface else WithExtras(WithExtra(iface, addrs[0]), addrs[1..])
  }

  lemma {:induction false} WithExtrasIs(iface: Iface, addrs: seq<IPNetwork>)
    ensures WithExtras(iface, addrs) ==
            iface.(addresses := iface.addresses + Fitting(addrs), config := LostExtras(iface.config, addrs))
    decreases |addrs|
  {
    hide LostExtra, WellFormed, Fitting;
    FittingStep(iface.addresses, addrs);
    if addrs != [] { WithExtrasIs(WithExtra(iface, addrs[0]), addrs[1..]); }
  }

  lemma FittingStep(before: seq<IPNetwork>, addrs: seq<IPNetwork>)
    ensures before + Fitting(addrs) ==
            if addrs == [] then before else before + Fitting([addrs[0]]) + Fitting(addrs[1..])
  {
    hide WellFormed;
    if addrs != [] { OneFitting(addrs[0]); }
  }

  lemma {:induction false} ReadExtras(o: Open, addrs: seq<IPNetwork>)
    requires forall i :: 0 <= i < |addrs| ==> CanonicalIfFits(addrs[i])
    ensures ReadBody(o, ExtraLines(addrs)) == Good(o.(iface := WithExtras(o.iface, addrs)))
    decreases |addrs|
  {
    hide BodyLine, Tokens, IsBody, CanonicalIfFits, Indented, ExtraWords, Script, WithExtra;
    if addrs != [] {
      var n := addrs[0];
      ReadExtra(o, n);
      ReadTwo(o, ExtraWords("up", "add", n), ExtraWords("down", "del", n), ExtraLines(addrs[1..]));
      ReadExtras(o.(iface := WithExtra(o.iface, n)), addrs[1..]);
    }
  }

  // An "up" line followed by its "down" line.
  lemma ReadTwo(o: Open, up: seq<string>, down: seq<string>, rest: seq<string>)
    requires ReadBody(o, [Indented(up)]).error.None?
    requires ReadBody(ReadBody(o, [Indented(up)]).open, [Indented(down)]).error.None?
    ensures ReadBody(o, [Indented(up), Indented(down)] + rest)
         == ReadBody(ReadBody(ReadBody(o, [Indented(up)]).open, [Indented(down)]).open, rest)
  {
    hide ReadBody, Indented;
    var o' := ReadBody(o, [Indented(up)]).open;
    assert [Indented(up), Indented(down)] + rest == [Indented(up)] + ([Indented(down)] + rest);
    ReadBodyAppend(o, [Indented(up)], [Indented(down)] + rest);
    ReadBodyAppend(o', [Indented(down)], rest);
  }

  // "route <verb> <network> via <gateway> metric <n> dev $IFACE" from word f on.
  predicate RouteShape(ws: seq<string>, f: nat, verb: string, r: Route) {
    && |ws| == f + 9 && ws[f] == "route" && ws[f + 1] == verb && ws[f + 2] == NetworkString(r.destination)
    && ws[f + 3] == "via" && ws[f + 4] == GatewayText(r.gateway) && ws[f + 5] == "metric"
    && ws[f + 6] == Itoa(r.metric) && ws[f + 7] == "dev" && ws[f + 8] == "$IFACE"
  }

  // The words of the command, whatever they stand for.
  predicate RouteMeans(ws: seq<string>, f: nat, dst: Option<IPNetwork>, gateway: Option<IP>, metric: int)
  {
    && |ws| == f + 9
    && Widen(ParseCIDR(ws[f + 2])) == dst && ParseIP(ws[f + 4]) == gateway && Atoi(ws[f + 6]) == Some(metric)
    && !IsKeyword(ws[f + 4]) && !IsKeyword(ws[f + 6])
  }

  lemma RouteShapeMeans(ws: seq<string>, f: nat, verb: string, r: Route)
    requires RouteShape(ws, f, verb, r) && CanonicalRoute(r)
    ensures RouteMeans(ws, f, if WellFormed(r.destination) then Some(r.destination) else None, r.gateway, r.metric)
  {
    DestinationWord(r.destination);
    GatewayWord(r.gateway);
    MetricWord(r.metric);
    hide NetworkString, ParseCIDR, Canonical, ParseIP, GatewayText, Atoi, Itoa, IsKeyword;
  }

  lemma ScanUpRoute(ws: seq<string>, f: nat, name: string, r: Route, dst: Option<IPNetwork>)
    requires RouteShape(ws, f, "add", r) && RouteMeans(ws, f, dst, r.gateway, r.metric)
    ensures var c := ScanIp(ws, f, true, name, NO_IP_COMMAND);
            && c.isRoute && !c.isAddr && c.verb && c.dst == dst && c.gateway == r.gateway
            && c.metric == if r.metric == 0 then 256 else r.metric
  {
    hide NetworkString, ParseCIDR, ParseIP, GatewayText, Atoi, Itoa;
    var c1 := NO_IP_COMMAND.(isRoute := true);
    assert ScanIp(ws, f, true, name, NO_IP_COMMAND) == ScanIp(ws, f + 1, true, name, c1);
    var c2 := c1.(verb := true, dst := dst);
    assert ScanIp(ws, f + 1, true, name, c1) == ScanIp(ws, f + 3, true, name, c2);
    var c3 := c2.(gateway := r.gateway);
    assert ScanIp(ws, f + 3, true, name, c2) == ScanIp(ws, f + 5, true, name, c3);
    var c4 := c3.(metric := IpMetric(Some(r.metric)));
    assert ScanIp(ws, f + 5, true, name, c3) == ScanIp(ws, f + 7, true, name, c4);
    ScanDevice(ws, f + 7, true, name, c4);
  }

  lemma ScanDownRoute(ws: seq<string>, f: nat, name: string, r: Route, dst: Option<IPNetwork>)
    requires RouteShape(ws, f, "del", r) && RouteMeans(ws, f, dst, r.gateway, r.metric)
    ensures var c := ScanIp(ws, f, false, name, NO_IP_COMMAND);
            c.isRoute && !c.isAddr && c.verb && c.dst == dst
  {
    hide NetworkString, ParseCIDR, ParseIP, GatewayText, Atoi, Itoa;
    var c1 := NO_IP_COMMAND.(isRoute := true);
    assert ScanIp(ws, f, false, name, NO_IP_COMMAND) == ScanIp(ws, f + 1, false, name, c1);
    var c2 := c1.(verb := true, dst := dst);
    assert ScanIp(ws, f + 1, false, name, c1) == ScanIp(ws, f + 3, false, name, c2);
    assert ScanIp(ws, f + 3, false, name, c2) == ScanIp(ws, f + 4, false, name, c2);
    assert ScanIp(ws, f + 4, false, name, c2) == ScanIp(ws, f + 5, false, name, c2);
    assert ScanIp(ws, f + 5, false, name, c2) == ScanIp(ws, f + 6, false, name, c2);
    assert ScanIp(ws, f + 6, false, name, c2) == ScanIp(ws, f + 7, false, name, c2);
    ScanDevice(ws, f + 7, false, name, c2);
  }

  lemma ScanRouteCommand(ws: seq<string>, f: nat, up: bool, verb: string, name: string, r: Route)
    requires RouteShape(ws, f, verb, r) && CanonicalRoute(r) && verb == if up then "add" else "del"
    ensures var c := ScanIp(ws, f, up, name, NO_IP_COMMAND);
            && c.isRoute && !c.isAddr && c.verb && c.dst == (if WellFormed(r.destination) then Some(r.destination) else None)
            && (up ==> c.gateway == r.gateway && c.metric == if r.metric == 0 then 256 else r.metric)
  {
    hide RouteShape, RouteMeans, ScanIp, WellFormed, CanonicalRoute;
    var dst: Option<IPNetwork> := if WellFormed(r.destination) then Some(r.destination) else None;
    RouteShapeMeans(ws, f, verb, r);
    if up { ScanUpRoute(ws, f, name, r, dst); } else { ScanDownRoute(ws, f, name, r, dst); }
  }

  lemma ScanDevice(ws: seq<string>, f: nat, up: bool, name: string, c: IpCommand)
    requires |ws| == f + 2 && ws[f] == "dev" && ws[f + 1] == "$IFACE"
    ensures ScanIp(ws, f, up, name, c) == c.(thisDev := true)
  {
    assert ScanIp(ws, f, up, name, c) == ScanIp(ws, f + 2, up, name, c.(thisDev := true));
  }

  function RouteTail(verb: string, r: Route): seq<string> {
    ["route", verb, NetworkString(r.destination), "via", GatewayText(r.gateway), "metric", Itoa(r.metric), "dev", "$IFACE"]
  }

  lemma RouteTailIsPlain(verb: string, r: Route)
    requires CanonicalRoute(r) && (verb == "add" || verb == "del")
    ensures |RouteTail(verb, r)| == 9 && forall i :: 0 <= i < 9 ==> PlainWord(RouteTail(verb, r)[i])
  {
    DestinationWord(r.destination);
    GatewayWord(r.gateway);
    MetricWord(r.metric);
    PlainWords();
    var n, g, m := NetworkString(r.destination), GatewayText(r.gateway), Itoa(r.metric);
    assert PlainWord(n) && PlainWord(g) && PlainWord(m) && PlainWord(verb);
    assert PlainWord("route") && PlainWord("via") && PlainWord("metric") && PlainWord("dev") && PlainWord("$IFACE");
    hide NetworkString, GatewayText, Itoa, PlainWord;
    PlainTail(verb, n, g, m);
  }

  lemma PlainTail(verb: string, n: string, g: string, m: string)
    requires PlainWord(verb) && PlainWord(n) && PlainWord(g) && PlainWord(m)
    requires PlainWord("route") && PlainWord("via") && PlainWord("metric") && PlainWord("dev") && PlainWord("$IFACE")
    ensures var ws := ["route", verb, n, "via", g, "metric", m, "dev", "$IFACE"];
            forall i :: 0 <= i < 9 ==> PlainWord(ws[i])
  {
    hide PlainWord;
  }

  lemma RouteTailShape(ws: seq<string>, f: nat, verb: string, r: Route)
    requires f <= |ws| && ws[f..] == RouteTail(verb, r)
    ensures RouteShape(ws, f, verb, r)
  {
    hide NetworkString, GatewayText, Itoa;
    SuffixAt(ws, f, RouteTail(verb, r));
    var t := RouteTail(verb, r);
    assert ws[f] == t[0] && ws[f + 1] == t[1] && ws[f + 2] == t[2] && ws[f + 3] == t[3] && ws[f + 4] == t[4];
    assert ws[f + 5] == t[5] && ws[f + 6] == t[6] && ws[f + 7] == t[7] && ws[f + 8] == t[8];
  }

  lemma RouteWordsTail(script: string, verb: string, r: Route)
    ensures RouteWords(script, verb, r) == [script] + IpWords(Is4(r.destination.ip)) + RouteTail(verb, r)
  {
    hide NetworkString, IpWords, GatewayText, Itoa;
  }

  lemma RouteWordsShape(script: string, verb: string, r: Route, f: nat)
    requires CanonicalRoute(r) && ScriptVerb(script, verb) && f == if Is4(r.destination.ip) then 2 else 3
    ensures IpShape(RouteWords(script, verb, r), script, f) && RouteShape(RouteWords(script, verb, r), f, verb, r)
  {
    hide CanonicalRoute, RouteTail, RouteWords, RouteShape, IpShape, PlainWord, IpWords;
    RouteTailIsPlain(verb, r);
    RouteWordsTail(script, verb, r);
    IpScript(RouteWords(script, verb, r), script, verb, f, RouteTail(verb, r));
    RouteTailShape(RouteWords(script, verb, r), f, verb, r);
  }

  lemma SuffixAt(ws: seq<string>, f: nat, tail: seq<string>)
    requires f <= |ws| && ws[f..] == tail
    ensures |ws| == f + |tail|
    ensures forall i {:trigger tail[i]} :: 0 <= i < |tail| ==> ws[f + i] == tail[i]
  {
    assert forall i {:trigger tail[i]} :: 0 <= i < |tail| ==> ws[f..][i] == ws[f + i];
  }

  lemma RouteScript(script: string, verb: string, r: Route, iface: Iface)
    requires CanonicalRoute(r) && ScriptVerb(script, verb)
    ensures IsScriptLine(RouteWords(script, verb, r))
    ensures Script(RouteWords(script, verb, r), iface) ==
            if !WellFormed(r.destination) || (script == "up" && r.gateway.None?) then Nothing
            else if script == "up" then ARoute(r.(metric := if r.metric == 0 then 256 else r.metric))
            else Skipped
  {
    var f := if Is4(r.destination.ip) then 2 else 3;
    hide RouteWords, NetworkString, CanonicalRoute, GatewayText, Itoa, ScanRoute, ScanIp, IsBody, AreWords, NoHash,
         RouteShape, WellFormed;
    var ws := RouteWords(script, verb, r);
    RouteWordsShape(script, verb, r, f);
    ScanRouteCommand(ws, f, script == "up", verb, iface.name, r);
    if f == 3 { ScanSkips(ws, 2, script == "up", iface.name, NO_IP_COMMAND); }
  }

  lemma ReadRoute(o: Open, r: Route)
    requires CanonicalRoute(r)
    ensures var up := ReadBody(o, [Indented(RouteWords("up", "add", r))]);
            && up.error.None?
            && ReadBody(up.open, [Indented(RouteWords("down", "del", r))]) == Good(o.(iface := AbsorbRoute(o.iface, r)))
  {
    hide CanonicalRoute, Indented, RouteWords, Script, ReadBody, AddressLine, NetmaskLine, GatewayLine, Join, AddConfig;
    var up, down := RouteWords("up", "add", r), RouteWords("down", "del", r);
    RouteScript("up", "add", r, o.iface);
    BodyOne(o, up);
    var o' := BodyLine(o, up).open;
    RouteScript("down", "del", r, o'.iface);
    BodyOne(o', down);
    assert up[0] == "up" && down[0] == "down" by { ScriptIsFirst(r); }
  }

  lemma ScriptIsFirst(r: Route)
    ensures RouteWords("up", "add", r)[0] == "up" && RouteWords("down", "del", r)[0] == "down"
  {
    hide NetworkString, GatewayText, Itoa;
  }

  lemma {:induction false} ReadRoutes(o: Open, routes: seq<Route>)
    requires forall i :: 0 <= i < |routes| ==> CanonicalRoute(routes[i])
    ensures ReadBody(o, RouteLines(routes)) == Good(o.(iface := AbsorbRoutes(o.iface, routes)))
    decreases |routes|
  {
    hide BodyLine, Tokens, IsBody, CanonicalRoute, Indented, RouteWords, Script, AbsorbRoute;
    if routes != [] {
      var r := routes[0];
      var up, down := RouteWords("up", "add", r), RouteWords("down", "del", r);
      ReadRoute(o, r);
      ReadTwo(o, up, down, RouteLines(routes[1..]));
      ReadRoutes(o.(iface := AbsorbRoute(o.iface, r)), routes[1..]);
    }
  }

  // ------------------------------------------------- which routes come back as they were

  predicate Returns(r: Route) { WellFormed(r.destination) && r.gateway.Some? && r.metric != 0 }

  lemma {:induction false} AbsorbedRoutes(iface: Iface, routes: seq<Route>)
    ensures |AbsorbRoutes(iface, routes).routes| <= |iface.routes| + |routes|
    ensures (forall i :: 0 <= i < |routes| ==> Returns(routes[i])) ==>
              AbsorbRoutes(iface, routes) == iface.(routes := iface.routes + routes)
    ensures AbsorbRoutes(iface, routes).routes == iface.routes + routes ==>
              forall i :: 0 <= i < |routes| ==> Returns(routes[i])
    decreases |routes|
  {
    hide RouteWords, Join, WellFormed;
    if routes == [] {
      assert iface.routes + routes == iface.routes;
    } else {
      var r, after := routes[0], AbsorbRoute(iface, routes[0]);
      AbsorbedRoutes(after, routes[1..]);
      AbsorbGrows(after, routes[1..]);
      var end := AbsorbRoutes(iface, routes).routes;
      assert iface.routes + routes == iface.routes + [r] + routes[1..];
      if Returns(r) {
        assert after.routes == iface.routes + [r];
      } else if |after.routes| == |iface.routes| + 1 {
        assert end[|iface.routes|] == after.routes[|iface.routes|] != r;
        assert (iface.routes + routes)[|iface.routes|] == r;
      }
    }
  }

  lemma {:induction false} AbsorbGrows(iface: Iface, routes: seq<Route>)
    ensures iface.routes <= AbsorbRoutes(iface, routes).routes
    decreases |routes|
  {
    hide RouteWords, Join, WellFormed;
    if routes != [] { AbsorbGrows(AbsorbRoute(iface, routes[0]), routes[1..]); }
  }

  // ------------------------------------------------------------------- the whole block

  lemma WordsLine(ws: seq<string>)
    requires AreWords(ws) && NoHash(ws)
    ensures Tokens(Join(ws)) == ws
  {
    JoinContains(ws, '#');
    FieldsJoin(ws);
  }

  lemma ReadMore(r: Reader, line: string, rest: seq<string>)
    requires r.Valid() && r.error.None?
    ensures ReadLines(r, [line] + rest) == ReadLines(LineStep(r, line), rest)
  {
    hide LineStep;
    assert ([line] + rest)[1..] == rest;
  }

  lemma HeaderTokens(iface: Iface)
    requires Printable(iface)
    ensures Tokens(HeaderText(iface)) == ["iface", iface.name] + Fields(iface.mode)
  {
    hide Fields, LeadingWord;
    var ws := ["iface", iface.name] + Fields(iface.mode);
    FieldsNoHash(iface.mode);
    assert Join([iface.name]) == iface.name;
    assert ["iface", iface.name][1..] == [iface.name];
    assert Join(["iface", iface.name]) == "iface " + iface.name;
    if iface.mode == "" {
      assert ws == ["iface", iface.name];
    } else {
      JoinAppend(["iface", iface.name], Fields(iface.mode));
    }
    assert HeaderText(iface) == Join(ws);
    JoinContains(ws, '#');
    FieldsJoin(ws);
  }

  lemma {:induction false} FirstsExtras(addrs: seq<IPNetwork>, first4: bool, first6: bool)
    ensures var f, e := Firsts(addrs, first4, first6), Extras(addrs, first4, first6);
            && multiset(f) + multiset(e) == multiset(addrs)
            && |f| <= (if first4 then 1 else 0) + (if first6 then 1 else 0)
  {
    if addrs != [] {
      var a, rest := addrs[0], addrs[1..];
      assert multiset(addrs) == multiset{a} + multiset(rest) by { assert addrs == [a] + rest; }
      var v4 := Is4(a.ip);
      var g4, g6 := first4 && !v4, first6 && v4;
      FirstsExtras(rest, g4, g6);
      var f, e := Firsts(rest, g4, g6), Extras(rest, g4, g6);
      if (if v4 then first4 else first6) {
        assert Firsts(addrs, first4, first6) == [a] + f && Extras(addrs, first4, first6) == e;
      } else {
        assert Firsts(addrs, first4, first6) == f && Extras(addrs, first4, first6) == [a] + e;
      }
    }
  }

  lemma FirstsExtrasCanonical(addrs: seq<IPNetwork>)
    requires forall i :: 0 <= i < |addrs| ==> CanonicalIfFits(addrs[i])
    ensures forall i :: 0 <= i < |Firsts(addrs, true, true)| ==> CanonicalIfFits(Firsts(addrs, true, true)[i])
    ensures forall i :: 0 <= i < |Extras(addrs, true, true)| ==> CanonicalIfFits(Extras(addrs, true, true)[i])
  {
    hide CanonicalIfFits, Firsts, Extras;
    var f, e := Firsts(addrs, true, true), Extras(addrs, true, true);
    FirstsExtras(addrs, true, true);
    forall n | n in multiset(f) + multiset(e) ensures CanonicalIfFits(n) {
      assert n in multiset(addrs);
      assert n in addrs;
    }
    assert forall i :: 0 <= i < |f| ==> f[i] in multiset(f);
    assert forall i :: 0 <= i < |e| ==> e[i] in multiset(e);
  }

  lemma FirstsCanonical(iface: Iface)
    requires CanonicalNetworks(iface)
    ensures forall i :: 0 <= i < |Firsts(iface.addresses, true, true)| ==>
              CanonicalNetwork(Firsts(iface.addresses, true, true)[i])
  {
    FirstsExtrasCanonical(iface.addresses);
    hide Firsts, WellFormed, Canonical;
  }

  lemma ReadBlank(o: Open)
    ensures ReadBody(o, [""]) == Good(o)
  {
    assert [""][1..] == [];
  }

  // The interface after the addresses, gateways and key/value lines were read.
  function AfterConfig(o: Open, iface: Iface): Open {
    var firsts := Firsts(iface.addresses, true, true);
    var plain := o.iface.(gateway4 := iface.gateway4, gateway6 := iface.gateway6, config := iface.config);
    if firsts == [] then Open(plain, None)
    else Open(plain.(addresses := firsts[..|firsts| - 1]), Some(firsts[|firsts| - 1]))
  }

  predicate Fresh(o: Open, iface: Iface) {
    o == Open(NewIface(iface.name).(mode := o.iface.mode, isDHCP := o.iface.isDHCP, isPPP := o.iface.isPPP), None)
  }

  lemma ReadFirstHalf(o: Open, iface: Iface, keys: seq<string>)
    requires Printable(iface) && CanonicalNetworks(iface) && KeyList(iface.config, keys) && Fresh(o, iface)
    ensures ReadBody(o, AddressLines(Firsts(iface.addresses, true, true)) + GatewayLines(iface.gateway4)
                        + GatewayLines(iface.gateway6) + ConfigLines(keys, iface.config))
         == Good(AfterConfig(o, iface))
  {
    hide ReadBody, AddressLines, GatewayLines, ConfigLines, Gather, CanonicalNetwork, CanonicalRoute, PrintableConfig;
    var firsts := Firsts(iface.addresses, true, true);
    FirstsExtrasCanonical(iface.addresses);
    if firsts != [] { assert [] + firsts[..|firsts| - 1] == firsts[..|firsts| - 1]; }
    FirstsCanonical(iface);
    ReadAddresses(o, firsts);
    var o1 := ReadBody(o, AddressLines(firsts)).open;
    ReadGateway(o1, iface.gateway4);
    var o2 := ReadBody(o1, GatewayLines(iface.gateway4)).open;
    ReadGateway(o2, iface.gateway6);
    var o3 := ReadBody(o2, GatewayLines(iface.gateway6)).open;
    ReadConfig(o3, iface, keys);
    GatherAll(keys, iface.config);
    ReadBodyAppend(o, AddressLines(firsts), GatewayLines(iface.gateway4));
    ReadBodyAppend(o, AddressLines(firsts) + GatewayLines(iface.gateway4), GatewayLines(iface.gateway6));
    ReadBodyAppend(o, AddressLines(firsts) + GatewayLines(iface.gateway4) + GatewayLines(iface.gateway6),
      ConfigLines(keys, iface.config));
  }

  lemma ReadSecondHalf(o: Open, iface: Iface, first: seq<string>)
    requires CanonicalNetworks(iface) && Fresh(o, iface) && ReadBody(o, first) == Good(AfterConfig(o, iface))
    ensures var b := ReadBody(o, first + ExtraLines(Extras(iface.addresses, true, true)) + RouteLines(iface.routes) + [""]);
            && b.error.None?
            && Flush(b.open) == ReadBack(iface).(mode := o.iface.mode, isDHCP := o.iface.isDHCP, isPPP := o.iface.isPPP)
  {
    hide ReadBody, ExtraLines, RouteLines, CanonicalIfFits, CanonicalRoute, Fresh, AfterConfig, Firsts, Extras, ReadBack, FirstsFit;
    var extras := Extras(iface.addresses, true, true);
    FirstsExtrasCanonical(iface.addresses);
    var o1 := AfterConfig(o, iface);
    ReadExtras(o1, extras);
    var o2 := o1.(iface := WithExtras(o1.iface, extras));
    ReadRoutes(o2, iface.routes);
    FlushRoutes(o2, iface.routes);
    SecondHalfIs(o, iface);
    var o3 := ReadBody(o2, RouteLines(iface.routes)).open;
    ReadBlank(o3);
    ReadBodyAppend(o, first, ExtraLines(extras));
    ReadBodyAppend(o, first + ExtraLines(extras), RouteLines(iface.routes));
    ReadBodyAppend(o, first + ExtraLines(extras) + RouteLines(iface.routes), [""]);
  }

  // The extra addresses come between the first ones, the last of which is pending.
  lemma SecondHalfIs(o: Open, iface: Iface)
    requires Fresh(o, iface)
    ensures var o1, extras := AfterConfig(o, iface), Extras(iface.addresses, true, true);
            AbsorbRoutes(Flush(o1.(iface := WithExtras(o1.iface, extras))), iface.routes)
            == ReadBack(iface).(mode := o.iface.mode, isDHCP := o.iface.isDHCP, isPPP := o.iface.isPPP)
  {
    var o1, extras := AfterConfig(o, iface), Extras(iface.addresses, true, true);
    WithExtrasIs(o1.iface, extras);
    hide Firsts, Extras, LostExtras, Fitting, AbsorbRoutes, Fields, WithExtras;
    assert [] + Fitting(extras) == Fitting(extras);
    var base := Reopened(iface).(routes := [], config := LostExtras(iface.config, extras));
    ModeRoutes(base, o.iface.mode, o.iface.isDHCP, o.iface.isPPP, iface.routes);
    assert Flush(o1.(iface := WithExtras(o1.iface, extras)))
        == base.(mode := o.iface.mode, isDHCP := o.iface.isDHCP, isPPP := o.iface.isPPP);
  }

  // Routes are absorbed alike with an address pending and without, and whatever the
  // mode and the flags.
  lemma {:induction false} FlushRoutes(o: Open, routes: seq<Route>)
    ensures Flush(o.(iface := AbsorbRoutes(o.iface, routes))) == AbsorbRoutes(Flush(o), routes)
    decreases |routes|
  {
    hide RouteWords, Join, WellFormed;
    if routes != [] { FlushRoutes(o.(iface := AbsorbRoute(o.iface, routes[0])), routes[1..]); }
  }

  lemma {:induction false} ModeRoutes(iface: Iface, mode: string, isDHCP: bool, isPPP: bool, routes: seq<Route>)
    ensures AbsorbRoutes(iface.(mode := mode, isDHCP := isDHCP, isPPP := isPPP), routes)
         == AbsorbRoutes(iface, routes).(mode := mode, isDHCP := isDHCP, isPPP := isPPP)
    decreases |routes|
  {
    hide RouteWords, Join, WellFormed;
    if routes != [] { ModeRoutes(AbsorbRoute(iface, routes[0]), mode, isDHCP, isPPP, routes[1..]); }
  }

  // The body of the printed stanza, read into a freshly opened interface.
  lemma ReadStanza(o: Open, iface: Iface, keys: seq<string>)
    requires Printable(iface) && CanonicalNetworks(iface) && KeyList(iface.config, keys) && Fresh(o, iface)
    ensures var b := ReadBody(o, Body(iface, keys));
            && b.error.None?
            && Flush(b.open) == ReadBack(iface).(mode := o.iface.mode, isDHCP := o.iface.isDHCP, isPPP := o.iface.isPPP)
  {
    hide ReadBody, AddressLines, GatewayLines, ConfigLines, ExtraLines, RouteLines, Printable, CanonicalNetworks,
         KeyList,
      Firsts, Extras, ReadBack, AfterConfig, Fresh;
    ReadFirstHalf(o, iface, keys);
    ReadSecondHalf(o, iface, AddressLines(Firsts(iface.addresses, true, true)) + GatewayLines(iface.gateway4)
      + GatewayLines(iface.gateway6) + ConfigLines(keys, iface.config));
  }

  // Reading the block in any state where its interface is not known yet appends
  // exactly the read-back interface, whatever the surrounding stanzas are.
  lemma ReadBlock(r: Reader, iface: Iface, keys: seq<string>)
    requires r.Valid() && r.error.None? && Find(r.ifaces, iface.name) == |r.ifaces|
    requires Printable(iface) && CanonicalNetworks(iface) && KeyList(iface.config, keys)
    ensures var r' := ReadLines(r, Block(iface, keys));
            && r'.error.None? && r'.cur == |r.ifaces| && |r'.ifaces| == |r.ifaces| + 1
            && r'.ifaces[..r'.cur] == r.Flushed()
            && r'.ifaces[r'.cur].name == iface.name
            && Flush(Current(r')) == ReadBack(iface)
  {
    hide Fields, Tokens, HeaderText, Body, ReadBody, Printable, CanonicalNetworks, KeyList, Find, LineStep,
         ReadBackOrder;
    var r1 := ReadHeader(r, iface);
    ReadStanza(Current(r1), iface, keys);
    ReadLinesInStanza(r1, Body(iface, keys));
    var block := Block(iface, keys);
    assert block[0] == HeaderText(iface) && block[1..] == Body(iface, keys);
    assert Flush(Current(ReadLines(r1, Body(iface, keys)))).name == iface.name;
  }

  lemma ReadHeader(r: Reader, iface: Iface) returns (r1: Reader)
    requires r.Valid() && r.error.None? && Find(r.ifaces, iface.name) == |r.ifaces| && Printable(iface)
    ensures r1 == LineStep(r, HeaderText(iface)) && r1.error.None?
    ensures r1.cur == |r.ifaces| && |r1.ifaces| == |r.ifaces| + 1 && r1.ifaces[..r1.cur] == r.Flushed()
    ensures Current(r1) == Open(NewIface(iface.name).(mode := iface.mode, isDHCP := ReadBack(iface).isDHCP,
                                                      isPPP := ReadBack(iface).isPPP), None)
  {
    assert BaseName(iface.name) == iface.name;
    assert Join(Fields(iface.mode)) == iface.mode;
    HeaderTokens(iface);
    FindFlushed(r, iface.name);
    var ws := Tokens(HeaderText(iface));
    hide Fields, Tokens, HeaderText, Printable, Before, Join, Find, AbsorbRoutes, ReadBackOrder, BodyStep;
    assert ws[2..] == Fields(iface.mode);
    r1 := LineStep(r, HeaderText(iface));
    assert r1 == HeaderLine(r, ws);
    hide LineStep;
    assert r1.ifaces == r.Flushed() + [Reopen(NewIface(iface.name), ws)];
  }

  lemma FindFlushed(r: Reader, name: string)
    requires r.Valid()
    ensures Find(r.Flushed(), name) == Find(r.ifaces, name)
  {
    var k, j := Find(r.Flushed(), name), Find(r.ifaces, name);
    assert forall i :: 0 <= i < |r.ifaces| ==> r.Flushed()[i].name == r.ifaces[i].name;
  }

  // The stanza on its own reads back as the interface it was printed from, with the
  // addresses permuted. Mode, gateways, routes and keys are as they were if and only if
  // every route has a destination of one family, a gateway and a metric.
  lemma StanzaRoundTrip(iface: Iface, keys: seq<string>)
    requires Printable(iface) && CanonicalNetworks(iface) && KeyOrder(iface.config, keys)
    ensures ReadResult(Block(iface, keys)) == Some([ReadBack(iface)])
    ensures multiset(ReadBack(iface).addresses) == multiset(Fitting(iface.addresses))
    ensures ReadBack(iface) == Reopened(iface) && |ReadBack(iface).addresses| == |iface.addresses| <==>
              && (forall i :: 0 <= i < |iface.routes| ==> Returns(iface.routes[i]))
              && forall i :: 0 <= i < |iface.addresses| ==> WellFormed(iface.addresses[i])
  {
    StanzaReads(iface, keys);
    AddressesPermuted(iface);
    AllReturnIff(iface);
    hide *;
  }

  lemma StanzaReads(iface: Iface, keys: seq<string>)
    requires Printable(iface) && CanonicalNetworks(iface) && KeyOrder(iface.config, keys)
    ensures ReadResult(Block(iface, keys)) == Some([ReadBack(iface)])
  {
    KeyOrderLists(iface.config, keys);
    hide Block, ReadLines, Printable, CanonicalNetworks, KeyOrder, KeyList, ReadBack, Find;
    ReadBlock(Start([]), iface, keys);
    var r := ReadLines(Start([]), Block(iface, keys));
    assert r.Flushed() == [ReadBack(iface)];
  }

  lemma AllReturnIff(iface: Iface)
    requires FirstsFit(iface)
    ensures ReadBack(iface) == Reopened(iface) && |ReadBack(iface).addresses| == |iface.addresses| <==>
              && (forall i :: 0 <= i < |iface.routes| ==> Returns(iface.routes[i]))
              && forall i :: 0 <= i < |iface.addresses| ==> WellFormed(iface.addresses[i])
  {
    AddressesPermuted(iface);
    RoutesReturnIff(iface);
    FittingAll(iface.addresses);
    assert |multiset(ReadBack(iface).addresses)| == |ReadBack(iface).addresses|;
    assert |multiset(Fitting(iface.addresses))| == |Fitting(iface.addresses)|;
    if forall i :: 0 <= i < |iface.addresses| ==> WellFormed(iface.addresses[i]) { NothingLost(iface); }
    hide ReadBack, Reopened, Returns, Fitting, WellFormed, LostExtras, Extras;
  }

  lemma {:induction false} FittingAll(addrs: seq<IPNetwork>)
    ensures |Fitting(addrs)| <= |addrs|
    ensures |Fitting(addrs)| == |addrs| <==> forall i :: 0 <= i < |addrs| ==> WellFormed(addrs[i])
    ensures |Fitting(addrs)| == |addrs| ==> Fitting(addrs) == addrs
  {
    hide WellFormed;
    if addrs != [] {
      FittingAll(addrs[1..]);
      assert addrs == [addrs[0]] + addrs[1..];
    }
  }

  lemma {:induction false} FittingCounts(addrs: seq<IPNetwork>, n: IPNetwork)
    ensures multiset(Fitting(addrs))[n] == if WellFormed(n) then multiset(addrs)[n] else 0
  {
    hide WellFormed;
    if addrs != [] {
      FittingCounts(addrs[1..], n);
      assert addrs == [addrs[0]] + addrs[1..];
    }
  }

  lemma AddressesPermuted(iface: Iface)
    requires FirstsFit(iface)
    ensures multiset(ReadBack(iface).addresses) == multiset(Fitting(iface.addresses))
  {
    hide Firsts, Extras, Fields, Fitting, WellFormed, LostExtras;
    var firsts, extras := Firsts(iface.addresses, true, true), Extras(iface.addresses, true, true);
    FirstsExtras(iface.addresses, true, true);
    FittingAll(firsts);
    forall n ensures multiset(Fitting(iface.addresses))[n] == multiset(firsts)[n] + multiset(Fitting(extras))[n] {
      FittingCounts(iface.addresses, n);
      FittingCounts(firsts, n);
      FittingCounts(extras, n);
      assert multiset(iface.addresses)[n] == multiset(firsts)[n] + multiset(extras)[n];
    }
    assert multiset(Fitting(iface.addresses)) == multiset(firsts) + multiset(Fitting(extras));
    if firsts != [] {
      assert firsts == firsts[..|firsts| - 1] + [firsts[|firsts| - 1]];
    }
  }

  // Where every extra address fits, none becomes a script line.
  lemma NothingLost(iface: Iface)
    requires forall i :: 0 <= i < |iface.addresses| ==> WellFormed(iface.addresses[i])
    ensures LostExtras(iface.config, Extras(iface.addresses, true, true)) == iface.config
  {
    hide WellFormed, Firsts, Extras;
    var extras := Extras(iface.addresses, true, true);
    FirstsExtras(iface.addresses, true, true);
    forall i | 0 <= i < |extras| ensures WellFormed(extras[i]) {
      assert extras[i] in multiset(extras) && extras[i] in multiset(iface.addresses);
    }
    NoneLost(iface.config, extras);
  }

  lemma {:induction false} NoneLost(config: map<string, seq<string>>, extras: seq<IPNetwork>)
    requires forall i :: 0 <= i < |extras| ==> WellFormed(extras[i])
    ensures LostExtras(config, extras) == config
    decreases |extras|
  {
    hide WellFormed, ExtraWords, Join;
    if extras != [] { NoneLost(config, extras[1..]); }
  }

  lemma RoutesReturnIff(iface: Iface)
    ensures LostExtras(iface.config, Extras(iface.addresses, true, true)) == iface.config ==>
              (ReadBack(iface) == Reopened(iface) <==> forall i :: 0 <= i < |iface.routes| ==> Returns(iface.routes[i]))
    ensures ReadBack(iface) == Reopened(iface) ==> forall i :: 0 <= i < |iface.routes| ==> Returns(iface.routes[i])
  {
    hide ReadBackOrder, Fields, Returns, LostExtras;
    AbsorbedRoutes(Reopened(iface).(routes := [], config := LostExtras(iface.config, Extras(iface.addresses, true, true))),
                   iface.routes);
    assert [] + iface.routes == iface.routes;
  }

  // ---------------------------------------------- a block that is not read at all

  lemma AddressFails(r: Reader, n: IPNetwork)
    requires r.Valid() && r.error.None? && r.cur >= 0 && !WellFormed(n)
    ensures LineStep(r, Indented(["address", NetworkString(n)])).error.Some?
  {
    NilWord();
    NilAddress(Open(r.ifaces[r.cur], r.pending));
    assert NetworkString(n) == "<nil>";
    hide LineStep, Indented, BodyLine, ParseIP, ParseCIDR, IsWord, WellFormed, NetworkString;
    BodyWords(r, "address", "<nil>");
  }

  lemma NilAddress(o: Open)
    ensures BodyLine(o, ["address", "<nil>"]).error.Some?
  {
    NilWord();
    assert '/' !in "<nil>";
    hide ParseIP, ParseCIDR, IsWord, DefaultLine, NetmaskLine, GatewayLine;
  }

  lemma TwoWords(a: string, b: string)
    requires IsWord(a) && IsWord(b) && '#' !in a && '#' !in b
    ensures AreWords([a, b]) && NoHash([a, b])
  {
    hide IsWord;
  }

  lemma BodyStepOf(r: Reader, line: string, ws: seq<string>)
    requires r.Valid() && Tokens(line) == ws && IsBody(ws)
    ensures LineStep(r, line) == BodyStep(r, ws)
  {
    hide Tokens, BodyStep, HeaderLine;
  }

  // An address or a netmask line in an open stanza.
  lemma BodyWords(r: Reader, key: string, word: string)
    requires r.Valid() && r.error.None? && r.cur >= 0 && key in {"address", "netmask"} && IsWord(word) && '#' !in word
    ensures var b := BodyLine(Open(r.ifaces[r.cur], r.pending), [key, word]);
            LineStep(r, Indented([key, word])) == Reader(r.ifaces[r.cur := b.open.iface], r.cur, b.open.pending, b.error)
  {
    assert IsWord(key) && '#' !in key && IsBody([key, word]);
    TwoWords(key, word);
    hide AreWords, NoHash, IsWord, Tokens, Indented, BodyLine, LineStep, IsBody;
    TokensIndented([key, word]);
    BodyStepOf(r, Indented([key, word]), [key, word]);
  }

  lemma AddressPasses(r: Reader, n: IPNetwork)
    requires r.Valid() && r.error.None? && r.cur >= 0 && CanonicalNetwork(n)
    ensures var r' := LineStep(r, Indented(["address", NetworkString(n)])); r'.error.None? && r'.cur == r.cur
  {
    var line := Indented(["address", NetworkString(n)]);
    hide Indented, NetworkString, CanonicalNetwork, ReadLines, ReadBody, LineStep;
    ReadAddress(Current(r), n);
    ReadLinesInStanza(r, [line]);
    assert [line] == [line] + [];
    ReadMore(r, line, []);
    ReadNone(LineStep(r, line));
  }

  lemma ReadNone(r: Reader)
    requires r.Valid()
    ensures ReadLines(r, []) == r
  {}

  lemma {:induction false} AddressesFail(r: Reader, addrs: seq<IPNetwork>, rest: seq<string>)
    requires r.Valid() && r.error.None? && r.cur >= 0
    requires (forall i :: 0 <= i < |addrs| ==> CanonicalIfFits(addrs[i])) && exists i :: 0 <= i < |addrs| && !WellFormed(addrs[i])
    ensures ReadLines(r, AddressLines(addrs) + rest).error.Some?
    decreases |addrs|
  {
    hide LineStep, Indented, NetworkString, WellFormed, Canonical;
    var line, more := Indented(["address", NetworkString(addrs[0])]), AddressLines(addrs[1..]) + rest;
    assert AddressLines(addrs) + rest == [line] + more;
    ReadMore(r, line, more);
    if WellFormed(addrs[0]) {
      AddressPasses(r, addrs[0]);
      AddressesFail(LineStep(r, line), addrs[1..], rest);
    } else {
      AddressFails(r, addrs[0]);
      assert ReadLines(LineStep(r, line), more) == LineStep(r, line);
    }
  }

  // A printed stanza reads without an error if and only if the first address of each
  // family has a mask that fits it. Otherwise the whole file is rejected.
  lemma BlockReadsIff(iface: Iface, keys: seq<string>)
    requires Printable(iface) && ModelledNetworks(iface) && KeyOrder(iface.config, keys)
    ensures ReadResult(Block(iface, keys)).Some? <==> FirstsFit(iface)
  {
    if FirstsFit(iface) {
      StanzaRoundTrip(iface, keys);
    } else {
      FirstsExtrasCanonical(iface.addresses);
      hide Fields, Block, Body, ReadLines, Printable, KeyOrder, Firsts, Extras, AddressLines, WellFormed, CanonicalIfFits;
      var r1 := ReadHeader(Start([]), iface);
      var rest := BodyRest(iface, keys);
      BlockParts(iface, keys);
      ReadMore(Start([]), HeaderText(iface), AddressLines(Firsts(iface.addresses, true, true)) + rest);
      AddressesFail(r1, Firsts(iface.addresses, true, true), rest);
    }
  }

  // The printed stanza after its address lines.
  function BodyRest(iface: Iface, keys: seq<string>): seq<string> {
    GatewayLines(iface.gateway4) + GatewayLines(iface.gateway6) + ConfigLines(keys, iface.config)
    + ExtraLines(Extras(iface.addresses, true, true)) + RouteLines(iface.routes) + [""]
  }

  lemma BlockParts(iface: Iface, keys: seq<string>)
    ensures Block(iface, keys) ==
            [HeaderText(iface)] + (AddressLines(Firsts(iface.addresses, true, true)) + BodyRest(iface, keys))
  {
    hide HeaderText, AddressLines, GatewayLines, ConfigLines, ExtraLines, RouteLines, Firsts, Extras;
    var a := AddressLines(Firsts(iface.addresses, true, true));
    Regroup(a, GatewayLines(iface.gateway4), GatewayLines(iface.gateway6), ConfigLines(keys, iface.config),
            ExtraLines(Extras(iface.addresses, true, true)), RouteLines(iface.routes), [""], []);
  }

  // An interface whose only route does not return: without a gateway or with a mask of the
  // other family it comes back as script lines, and with a metric of zero with another.
  lemma RouteComesBackChanged(name: string, r: Route)
    requires PrintableName(name) && CanonicalRoute(r) && !Returns(r)
    ensures var iface := NewIface(name).(routes := [r]); var back := ReadBack(iface);
            && ReadResult(Block(iface, [])) == Some([back]) && back.routes != [r]
            && (!WellFormed(r.destination) || r.gateway.None? ==> back.routes == [] && "up" in back.config)
            && (WellFormed(r.destination) && r.gateway.Some? ==> back.routes == [r.(metric := 256)])
  {
    var iface := NewIface(name).(routes := [r]);
    NoKeys();
    assert iface.config == map[] && Fields("") == [] && Join([]) == "";
    assert Printable(iface) && CanonicalNetworks(iface) by { assert iface.routes[0] == r; }
    OneAbsorbed(Reopened(iface).(routes := []), r);
    hide Printable, CanonicalNetworks, KeyOrder, Block, ReadResult, AbsorbRoute, Reopened, WellFormed, PrintableName;
    StanzaRoundTrip(iface, []);
  }

  lemma NoKeys()
    ensures KeyOrder(map[], [])
  {
    var plain: seq<string> := [];
    assert Sorted(plain, StringLess) && plain + [] + [] == [];
  }

  lemma OneAbsorbed(iface: Iface, r: Route)
    requires iface.routes == []
    ensures AbsorbRoutes(iface, [r]) == AbsorbRoute(iface, r)
    ensures !WellFormed(r.destination) || r.gateway.None? ==>
              AbsorbRoute(iface, r).routes == [] && "up" in AbsorbRoute(iface, r).config
    ensures WellFormed(r.destination) && r.gateway.Some? ==>
              AbsorbRoute(iface, r).routes == [r.(metric := if r.metric == 0 then 256 else r.metric)]
  {
    hide RouteWords, Join, WellFormed;
    assert [r][1..] == [];
    assert AbsorbRoutes(AbsorbRoute(iface, r), []) == AbsorbRoute(iface, r);
  }

  // ----------------------------------------- what ReadFile yields can be printed

  // The name is empty only for a stanza such as "iface :1".
  predicate PrintableIfNamed(iface: Iface) { iface.name != "" ==> Printable(iface) }

  ghost predicate AllPrintable(ifaces: seq<Iface>) { forall i :: 0 <= i < |ifaces| ==> PrintableIfNamed(ifaces[i]) }

  lemma TokensNoHash(line: string)
    ensures NoHash(Tokens(line))
  {
    FieldsNoHash(Before(line, '#'));
  }

  lemma JoinIsClean(ws: seq<string>)
    requires AreWords(ws) && NoHash(ws)
    ensures Clean(Join(ws)) && Fields(Join(ws)) == ws
    ensures ws != [] ==> Join(ws) != ""
  {
    FieldsJoin(ws);
    JoinContains(ws, '#');
  }

  // Fields the printed config does not depend on.
  lemma PrintableFrame(a: Iface, b: Iface)
    requires Printable(a) && b.name == a.name && b.mode == a.mode && b.config == a.config
    ensures Printable(b)
  {
    hide Fields, Script, Clean, PrintableKey;
    forall key, i | key in b.config && 0 <= i < |b.config[key]| ensures PrintableValue(b, key, b.config[key][i]) {
      assert PrintableValue(a, key, a.config[key][i]);
      ScriptIgnoresTheRest([key] + Fields(a.config[key][i]), a.(routes := []), b.(routes := []));
    }
  }

  lemma StoredValue(iface: Iface, ws: seq<string>)
    requires Printable(iface) && AreWords(ws) && NoHash(ws) && |ws| >= 2 && DirectiveOf(ws[0]) == Default
    requires Script(ws, iface) == Nothing
    ensures Printable(AddConfig(iface, ws[0], Join(ws[1..])))
  {
    var value := Join(ws[1..]);
    JoinIsClean(ws[1..]);
    assert [ws[0]] + Fields(value) == ws;
    assert Script(ws, iface.(routes := [])) == Nothing;
    hide Fields, Script, Clean, Join;
    var b := AddConfig(iface, ws[0], value);
    forall key, i | key in b.config && 0 <= i < |b.config[key]| ensures PrintableValue(b, key, b.config[key][i]) {
      if key == ws[0] && i == |b.config[key]| - 1 {
        ScriptIgnoresTheRest(ws, iface.(routes := []), b.(routes := []));
      } else {
        assert PrintableValue(iface, key, iface.config[key][i]);
        ScriptIgnoresTheRest([key] + Fields(iface.config[key][i]), iface.(routes := []), b.(routes := []));
      }
    }
  }

  lemma BodyLinePrintable(o: Open, ws: seq<string>)
    requires PrintableIfNamed(o.iface) && AreWords(ws) && NoHash(ws) && IsBody(ws)
    ensures PrintableIfNamed(BodyLine(o, ws).open.iface) && PrintableIfNamed(Flush(o))
  {
    hide Script, ParseNetwork, ParseIP, Atoi, PrintableName, Clean, PrintableConfig;
    if o.iface.name != "" {
      PrintableFrame(o.iface, Flush(o));
      var b := BodyLine(o, ws).open.iface;
      if b.config == o.iface.config {
        PrintableFrame(o.iface, b);
      } else {
        StoredValue(o.iface, ws);
      }
    }
  }

  lemma HeaderLinePrintable(r: Reader, ws: seq<string>)
    requires r.Valid() && AllPrintable(r.ifaces) && AreWords(ws) && NoHash(ws)
    ensures AllPrintable(HeaderLine(r, ws).ifaces)
  {
    hide Script, Clean, PrintableConfig, IsWord;
    FlushPrintable(r);
    if |ws| >= 2 {
      var name := BaseName(ws[1]);
      assert name != "" ==> PrintableName(name) by {
        assert IsWord(ws[1]);
        BaseNameIsWord(ws[1]);
      }
      JoinIsClean(ws[2..]);
      NewIsPrintable(name);
      var k := Find(r.Flushed(), name);
      var before := Ensure(r.Flushed(), name)[k];
      if name != "" { ReopenPrintable(before, ws); }
    }
  }

  lemma NewIsPrintable(name: string)
    requires name != "" ==> PrintableName(name)
    ensures PrintableIfNamed(NewIface(name))
  {}

  lemma ReopenPrintable(iface: Iface, ws: seq<string>)
    requires Printable(iface) && |ws| >= 2 && Clean(Join(ws[2..]))
    ensures Printable(Reopen(iface, ws))
  {
    hide Clean;
    PrintableFrame(iface, iface.(isDHCP := false));
    var b := Reopen(iface, ws);
    PrintableFrame(iface.(mode := b.mode), b) by {
      assert PrintableConfig(iface.(mode := b.mode)) by { ModeFrame(iface, b.mode); }
    }
  }

  lemma ModeFrame(iface: Iface, mode: string)
    requires PrintableConfig(iface)
    ensures PrintableConfig(iface.(mode := mode))
  {
    hide Fields, Script, Clean, PrintableKey;
    var b := iface.(mode := mode);
    forall key, i | key in b.config && 0 <= i < |b.config[key]| ensures PrintableValue(b, key, b.config[key][i]) {
      assert PrintableValue(iface, key, iface.config[key][i]);
      ScriptIgnoresTheRest([key] + Fields(iface.config[key][i]), iface.(routes := []), b.(routes := []));
    }
  }

  lemma BaseNameIsWord(w: string)
    requires IsWord(w)
    ensures BaseName(w) != "" ==> IsWord(BaseName(w))
  {
    var b := BaseName(w);
    assert forall i :: 0 <= i < |b| ==> b[i] == w[i] && !IsSpace(w[i]);
  }

  lemma FlushPrintable(r: Reader)
    requires r.Valid() && AllPrintable(r.ifaces)
    ensures AllPrintable(r.Flushed())
  {
    hide Printable;
    if r.cur >= 0 {
      var iface := r.ifaces[r.cur];
      var flushed := Flush(Open(iface, r.pending));
      if iface.name != "" { PrintableFrame(iface, flushed); }
    }
  }

  lemma {:induction false} ReadLinesPrintable(r: Reader, lines: seq<string>)
    requires r.Valid() && AllPrintable(r.ifaces)
    ensures AllPrintable(ReadLines(r, lines).ifaces)
    decreases |lines|
  {
    hide Tokens, HeaderLine, BodyLine, PrintableIfNamed;
    if lines != [] && r.error.None? {
      var ws := Tokens(lines[0]);
      TokensNoHash(lines[0]);
      if ws != [] {
        HeaderLinePrintable(r, ws);
        if IsBody(ws) && r.cur >= 0 { BodyLinePrintable(Open(r.ifaces[r.cur], r.pending), ws); }
      }
      ReadLinesPrintable(LineStep(r, lines[0]), lines[1..]);
    }
  }

  // Whatever the file, every named interface read from it can be printed: its
  // keys are no directives and its stored script lines stay key/value pairs.
  lemma ReadFilePrintable(lines: seq<string>)
    ensures ReadResult(lines).Some? ==> AllPrintable(ReadResult(lines).value)
  {
    ReadLinesPrintable(Start([]), lines);
    FlushPrintable(ReadLines(Start([]), lines));
  }
}
