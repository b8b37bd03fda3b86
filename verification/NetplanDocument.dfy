// netplan.go: the decoded document of one file, and what the SetIface methods do to it.
module NetplanDocument {
  import opened Text
  import opened Net
  import opened Mergo
  import opened NetplanLoader

  // npNetwork: the five kinds of interfaces. A missing section reads as an empty one.
  datatype Network = Network(ethernets: Section, wifis: Section, bridges: Section, bonds: Section, vlans: Section)

  const KINDS: seq<string> := ["ethernets", "wifis", "bridges", "bonds", "vlans"]

  function OfKind(n: Network, t: string): Section
    requires t in KINDS
  {
    if t == "ethernets" then n.ethernets
    else if t == "wifis" then n.wifis
    else if t == "bridges" then n.bridges
    else if t == "bonds" then n.bonds
    else n.vlans
  }

  function Decode(f: Option<Sections>): Network {
    Network(Sec(f, "ethernets"), Sec(f, "wifis"), Sec(f, "bridges"), Sec(f, "bonds"), Sec(f, "vlans"))
  }

  // A table of routes does not decode: the structure wants a list there.
  predicate DecodableTable(f: Option<Sections>) { f.None? || "routes" !in f.value }

  function WithSection(m: Sections, t: string, s: Section): Sections { if s == map[] then m else m[t := s] }

  // Empty sections are not written.
  function WrittenSections(types: seq<string>, sections: seq<Section>): Sections
    requires |types| == |sections|
  {
    if types == [] then map[]
    else
      var n := |types| - 1;
      WithSection(WrittenSections(types[..n], sections[..n]), types[n], sections[n])
  }

  function Encode(n: Network): Sections {
    WrittenSections(KINDS, [n.ethernets, n.wifis, n.bridges, n.bonds, n.vlans])
  }

  lemma DecodeEncode(n: Network)
    ensures Decode(Some(Encode(n))) == n && "routes" !in Encode(n)
  {
    var sections := [n.ethernets, n.wifis, n.bridges, n.bonds, n.vlans];
    KindsDiffer();
    SectionsFound(KINDS, sections);
    hide WrittenSections, Sec;
    assert Sec(Some(Encode(n)), KINDS[0]) == sections[0] && Sec(Some(Encode(n)), KINDS[1]) == sections[1]
        && Sec(Some(Encode(n)), KINDS[2]) == sections[2] && Sec(Some(Encode(n)), KINDS[3]) == sections[3]
        && Sec(Some(Encode(n)), KINDS[4]) == sections[4];
  }

  lemma KindsDiffer()
    ensures (forall i, j | 0 <= i < j < |KINDS| :: KINDS[i] != KINDS[j]) && "routes" !in KINDS
  {
    assert "wifis"[0] == 'w' && "vlans"[0] == 'v' && "bonds"[0] == 'b';
  }

  // Each section written is found under its own name, and nothing else is.
  lemma {:induction false} SectionsFound(types: seq<string>, sections: seq<Section>)
    requires |types| == |sections| && forall i, j | 0 <= i < j < |types| :: types[i] != types[j]
    ensures var m := WrittenSections(types, sections);
            && (forall i: nat | i < |types| :: Sec(Some(m), types[i]) == sections[i])
            && forall u :: u !in types ==> u !in m
  {
    if types != [] {
      var n := |types| - 1;
      SectionsFound(types[..n], sections[..n]);
      assert forall i: nat | i < n :: types[..n][i] == types[i] && sections[..n][i] == sections[i];
      assert types[n] !in types[..n];
    }
  }

  lemma DecodeKinds(f: Option<Sections>, t: string)
    requires t in KINDS
    ensures OfKind(Decode(f), t) == Sec(f, t)
  {}

  predicate NoneLeft(n: Network) { forall t | t in KINDS :: OfKind(n, t) == map[] }

  // ------------------------------------------------------------------ one interface

  datatype Change =
    | SetAddresses(addrs: seq<IPNet>, gateway4: Option<IP>, gateway6: Option<IP>)
    | SetDHCP(dhcp4: bool, dhcp6: bool)
    | SetRoutes(routes: seq<Route>)
    | SetDNS(servers: seq<IP>, search: seq<string>)

  function Str(s: string): Value { Plain(s, s == "") }

  function Strs(s: seq<string>): Value { Items(seq(|s|, i requires 0 <= i < |s| => Str(s[i]))) }

  function Bool(b: bool): Value { if b then Plain("true", false) else Plain("false", true) }

  // A field that is left out when it is empty.
  function With(d: Doc, field: string, v: Value): Doc { if Empty(v) then d - {field} else d[field := v] }

  function GatewayValue(gateway: Option<IP>): Value { Str(match gateway case Some(ip) => IPText(ip) case None => "") }

  function AddressTexts(addrs: seq<IPNet>): seq<string> {
    seq(|addrs|, i requires 0 <= i < |addrs| => NetworkText(addrs[i]))
  }

  function RouteValue(r: Route): Value {
    Table(map["to" := Str(NetworkString(r.destination)),
              "via" := Str(GatewayText(r.gateway)),
              "metric" := Plain(Itoa(r.metric), r.metric == 0)])
  }

  // One family of setDHCP: a client that was never mentioned is not written as off.
  function WithDHCP(d: Doc, field: string, overrides: string, on: bool): Doc {
    var e := if on || field in d then d[field := Bool(on)] else d;
    if on then e else e - {overrides}
  }

  function Apply(d: Doc, change: Change): Doc {
    match change
    case SetAddresses(addrs, gateway4, gateway6) =>
      With(With(With(d, "addresses", Strs(AddressTexts(addrs))), "gateway4", GatewayValue(gateway4)),
           "gateway6", GatewayValue(gateway6))
    case SetDHCP(dhcp4, dhcp6) =>
      WithDHCP(WithDHCP(d, "dhcp4", "dhcp4-overrides", dhcp4), "dhcp6", "dhcp6-overrides", dhcp6)
    case SetRoutes(routes) => With(d, "routes", Items(seq(|routes|, i requires 0 <= i < |routes| => RouteValue(routes[i]))))
    case SetDNS(servers, search) =>
      var addresses := Strs(seq(|servers|, i requires 0 <= i < |servers| => IPText(servers[i])));
      With(d, "nameservers", Table(With(With(map[], "search", Strs(search)), "addresses", addresses)))
  }

  const FIELDS: seq<set<string>> :=
    [{"addresses", "gateway4", "gateway6"}, {"dhcp4", "dhcp6", "dhcp4-overrides", "dhcp6-overrides"}, {"routes"},
     {"nameservers"}]

  function Aspect(change: Change): nat {
    match change case SetAddresses(_, _, _) => 0 case SetDHCP(_, _) => 1 case SetRoutes(_) => 2 case SetDNS(_, _) => 3
  }

  // The client state as netplan reads it: absent means off.
  function DHCPState(d: Doc): (bool, bool) {
    ("dhcp4" in d && d["dhcp4"] == Bool(true), "dhcp6" in d && d["dhcp6"] == Bool(true))
  }

  // The documents agree outside the fields.
  ghost predicate AgreeOff(d: Doc, e: Doc, fields: set<string>) {
    forall f | f !in fields :: (f in d <==> f in e) && (f in d ==> d[f] == e[f])
  }

  // A change touches the fields of its aspect only.
  lemma OtherFieldsStay(d: Doc, change: Change)
    ensures AgreeOff(Apply(d, change), d, FIELDS[Aspect(change)])
  {
    hide Strs, AddressTexts, GatewayValue, RouteValue, Empty;
  }

  lemma WithAgrees(d: Doc, e: Doc, field: string, v: Value, fields: set<string>)
    requires AgreeOff(d, e, fields + {field})
    ensures AgreeOff(With(d, field, v), With(e, field, v), fields)
  {
    hide Empty;
  }

  lemma AgreeIsEqual(d: Doc, e: Doc)
    requires AgreeOff(d, e, {})
    ensures d == e
  {
    assert forall f :: f in d <==> f in e;
  }

  // The last change of an aspect other than DHCP decides its fields.
  lemma LastChangeWins(d: Doc, first: Change, second: Change)
    requires Aspect(first) == Aspect(second) && !first.SetDHCP?
    ensures Apply(Apply(d, first), second) == Apply(d, second)
  {
    OtherFieldsStay(d, first);
    var e := Apply(d, first);
    if second.SetAddresses? {
      AddressesWin(e, d, second);
    } else {
      hide AgreeOff, With, Strs, RouteValue;
      if second.SetRoutes? {
        assert {} + {"routes"} == FIELDS[2];
        WithAgrees(e, d, "routes",
          Items(seq(|second.routes|, i requires 0 <= i < |second.routes| => RouteValue(second.routes[i]))), {});
      } else {
        assert {} + {"nameservers"} == FIELDS[3];
        var addresses := Strs(seq(|second.servers|, i requires 0 <= i < |second.servers| => IPText(second.servers[i])));
        WithAgrees(e, d, "nameservers", Table(With(With(map[], "search", Strs(second.search)), "addresses", addresses)), {});
      }
      AgreeIsEqual(Apply(e, second), Apply(d, second));
    }
  }

  lemma AddressesWin(e: Doc, d: Doc, change: Change)
    requires change.SetAddresses? && AgreeOff(e, d, FIELDS[0])
    ensures Apply(e, change) == Apply(d, change)
  {
    hide AgreeOff, With, Strs, AddressTexts, GatewayValue;
    var a, g4, g6 := Strs(AddressTexts(change.addrs)), GatewayValue(change.gateway4), GatewayValue(change.gateway6);
    var e1, d1 := With(e, "addresses", a), With(d, "addresses", a);
    assert {"gateway4", "gateway6"} + {"addresses"} == FIELDS[0];
    WithAgrees(e, d, "addresses", a, {"gateway4", "gateway6"});
    assert {"gateway6"} + {"gateway4"} == {"gateway4", "gateway6"} && {} + {"gateway6"} == {"gateway6"};
    WithAgrees(e1, d1, "gateway4", g4, {"gateway6"});
    WithAgrees(With(e1, "gateway4", g4), With(d1, "gateway4", g4), "gateway6", g6, {});
    AgreeIsEqual(Apply(e, change), Apply(d, change));
  }

  // The clients read back as they were set. The overrides of a client stay only through
  // calls that keep it on.
  lemma DHCPReadsBack(d: Doc, first: Change, second: Change)
    requires first.SetDHCP? && second.SetDHCP?
    ensures DHCPState(Apply(d, first)) == (first.dhcp4, first.dhcp6)
    ensures DHCPState(Apply(Apply(d, first), second)) == DHCPState(Apply(d, second))
    ensures var e := Apply(Apply(d, first), second);
            && ("dhcp4-overrides" in e <==> "dhcp4-overrides" in d && first.dhcp4 && second.dhcp4)
            && ("dhcp6-overrides" in e <==> "dhcp6-overrides" in d && first.dhcp6 && second.dhcp6)
  {}

  // ----------------------------------------------------------------- one document

  // The name an interface ends up with: its set-name if there is one.
  function IfName(name: string, d: Doc): string {
    if "set-name" in d && d["set-name"].Plain? && d["set-name"].text != "" then d["set-name"].text else name
  }

  function ChangedNamed(s: Section, iface: string, change: Change): Section {
    map k | k in s :: if IfName(k, s[k]) == iface then Apply(s[k], change) else s[k]
  }

  function ChangedKey(s: Section, iface: string, change: Change): Section {
    if iface in s then s[iface := Apply(s[iface], change)] else s
  }

  predicate NamedIn(s: Section, iface: string) { exists k | k in s :: IfName(k, s[k]) == iface }

  predicate Concerns(n: Network, iface: string) {
    NamedIn(n.ethernets, iface) || NamedIn(n.wifis, iface) || iface in n.bridges || iface in n.bonds || iface in n.vlans
  }

  function Changed(n: Network, iface: string, change: Change): Network {
    Network(ChangedNamed(n.ethernets, iface, change), ChangedNamed(n.wifis, iface, change),
            ChangedKey(n.bridges, iface, change), ChangedKey(n.bonds, iface, change), ChangedKey(n.vlans, iface, change))
  }

  lemma UnconcernedIsUnchanged(n: Network, iface: string, change: Change)
    ensures !Concerns(n, iface) ==> Changed(n, iface, change) == n
    ensures forall t | t in KINDS :: OfKind(Changed(n, iface, change), t).Keys == OfKind(n, t).Keys
  {
    hide Apply;
    if !Concerns(n, iface) {
      assert ChangedNamed(n.ethernets, iface, change) == n.ethernets;
      assert ChangedNamed(n.wifis, iface, change) == n.wifis;
    }
  }

  method UpdateNamed(s0: Section, iface: string, change: Change) returns (s: Section, dirty: bool)
    ensures s == ChangedNamed(s0, iface, change) && (dirty <==> NamedIn(s0, iface))
  {
    hide Apply, IfName;
    s, dirty := s0, false;
    var left := s0.Keys;
    while left != {}
      invariant left <= s0.Keys && s.Keys == s0.Keys
      invariant forall k | k in s :: s[k] == if k !in left && IfName(k, s0[k]) == iface then Apply(s0[k], change) else s0[k]
      invariant dirty <==> exists k | k in s0 && k !in left :: IfName(k, s0[k]) == iface
      decreases left
    {
      var name :| name in left;
      left := left - {name};
      if IfName(name, s[name]) != iface { continue; }
      dirty := true;
      s := s[name := Apply(s[name], change)];
    }
  }

  method UpdateNetwork(n: Network, iface: string, change: Change) returns (after: Network, dirty: bool)
    ensures after == Changed(n, iface, change) && (dirty <==> Concerns(n, iface))
  {
    hide Apply;
    after := n;
    var ethernets, a := UpdateNamed(n.ethernets, iface, change);
    var wifis, b := UpdateNamed(n.wifis, iface, change);
    after := after.(ethernets := ethernets, wifis := wifis);
    dirty := a || b;
    if iface in n.bridges {
      dirty := true;
      after := after.(bridges := n.bridges[iface := Apply(n.bridges[iface], change)]);
    }
    if iface in n.bonds {
      dirty := true;
      after := after.(bonds := n.bonds[iface := Apply(n.bonds[iface], change)]);
    }
    if iface in n.vlans {
      dirty := true;
      after := after.(vlans := n.vlans[iface := Apply(n.vlans[iface], change)]);
    }
  }
}
