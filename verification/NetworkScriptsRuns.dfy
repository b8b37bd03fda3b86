// networkScripts.go: what reading an ifcfg map back gives after any run of the
// setters, and that it survives the trip through the file.
module NetworkScriptsRuns {
  import opened Text
  import opened Net
  import opened KeyValueFile
  import opened KeyValueRoundTrip
  import opened NetworkScripts

  ghost predicate AllCanonical(addrs: seq<IPNet>) { forall i :: 0 <= i < |addrs| ==> Canonical(addrs[i]) }

  // Two maps that agree at a key.
  predicate Same(a: Config, b: Config, k: string) { (k in a <==> k in b) && (k in a ==> a[k] == b[k]) }

  // -------------------------------------------------------- lookups after the setter

  const WRITTEN: set<string> := {"IPADDR", "PREFIX", "NETMASK", "BROADCAST"}

  function FieldText(p: string, n: IPNet): string {
    if p == "IPADDR" then IPText(n.ip)
    else if p == "PREFIX" then Numeral(Prefix(n), 10)
    else if p == "NETMASK" then IPText(n.mask)
    else IPText(Broadcast(n))
  }

  lemma WithAddressAt(config: Config, i: nat, n: IPNet, p: string, j: nat)
    requires p in PREFIXES
    ensures var c, k := WithAddress(config, i, n), Indexed(p, j);
            if j == i && p in WRITTEN then k in c && c[k] == FieldText(p, n) else Same(c, config, k)
  {
    PrefixesNoDigit();
    assert {"IPADDR", "PREFIX", "NETMASK", "BROADCAST"} <= PREFIXES;
    DigitSuffix(p, j, "IPADDR", i);
    DigitSuffix(p, j, "PREFIX", i);
    DigitSuffix(p, j, "NETMASK", i);
    DigitSuffix(p, j, "BROADCAST", i);
    hide Indexed, IPText, Numeral, Broadcast;
  }

  lemma WithAddressElsewhere(config: Config, i: nat, n: IPNet, k: string)
    requires !EndsInDigit(k)
    ensures Same(WithAddress(config, i, n), config, k)
  {
    PrefixesNoDigit();
    assert {"IPADDR", "PREFIX", "NETMASK", "BROADCAST"} <= PREFIXES;
    DigitSuffix("IPADDR", i, "", 0);
    DigitSuffix("PREFIX", i, "", 0);
    DigitSuffix("NETMASK", i, "", 0);
    DigitSuffix("BROADCAST", i, "", 0);
    hide Indexed, IPText, Numeral, Broadcast;
  }

  lemma {:induction false} WithAddressesAt(config: Config, i: nat, addrs4: seq<IPNet>, p: string, j: nat)
    requires p in PREFIXES
    ensures var c, k := WithAddresses(config, i, addrs4), Indexed(p, j);
            if i <= j < i + |addrs4| && p in WRITTEN then k in c && c[k] == FieldText(p, addrs4[j - i])
            else Same(c, config, k)
    decreases |addrs4|
  {
    hide WithAddress, FieldText, Indexed;
    if addrs4 != [] {
      WithAddressAt(config, i, addrs4[0], p, j);
      WithAddressesAt(WithAddress(config, i, addrs4[0]), i + 1, addrs4[1..], p, j);
    }
  }

  lemma {:induction false} WithAddressesElsewhere(config: Config, i: nat, addrs4: seq<IPNet>, k: string)
    requires !EndsInDigit(k)
    ensures Same(WithAddresses(config, i, addrs4), config, k)
    decreases |addrs4|
  {
    hide WithAddress;
    if addrs4 != [] {
      WithAddressElsewhere(config, i, addrs4[0], k);
      WithAddressesElsewhere(WithAddress(config, i, addrs4[0]), i + 1, addrs4[1..], k);
    }
  }

  // The keys that are neither indexed nor numbered.
  lemma TailKeys(config: Config, texts: seq<string>, gateway4: Option<IP>, gateway6: Option<IP>, k: string)
    requires EndsInDigit(k) || k in PREFIXES
    ensures Same(WithGateway(WithGateway(WithV6(config, texts), "GATEWAY", gateway4), "IPV6_DEFAULTGW", gateway6), config, k)
  {
    hide IPText, Join;
  }

  // Whatever was there before: the four keys of each address, and no other indexed key below 256.
  lemma IndexedAfterSet(config: Config, addrs: seq<IPNet>, gateway4: Option<IP>, gateway6: Option<IP>, p: string,
                        j: nat)
    requires p in PREFIXES
    ensures var c, k := SetAddresses(config, addrs, gateway4, gateway6), Indexed(p, j);
            && (j < |V4(addrs)| && p in WRITTEN ==> k in c && c[k] == FieldText(p, V4(addrs)[j]))
            && (j < 256 && (j >= |V4(addrs)| || p !in WRITTEN) ==> k !in c)
  {
    DigitSuffix0(p, j);
    WithAddressesAt(config - AddressKeys(), 0, V4(addrs), p, j);
    var c0 := WithAddresses(config - AddressKeys(), 0, V4(addrs));
    TailKeys(c0, Texts(V6(addrs)), gateway4, gateway6, Indexed(p, j));
    assert j < 256 ==> Indexed(p, j) in IndexedKeys(256);
    hide Indexed, FieldText, WithAddresses, V4, WithV6, WithGateway, IndexedKeys;
  }

  lemma DigitSuffix0(p: string, j: nat)
    requires p in PREFIXES
    ensures EndsInDigit(Indexed(p, j))
  {
    PrefixesNoDigit();
    DigitSuffix(p, j, p, j);
  }

  lemma TailAfterSet(config: Config, addrs: seq<IPNet>, gateway4: Option<IP>, gateway6: Option<IP>)
    ensures var c, texts := SetAddresses(config, addrs, gateway4, gateway6), Texts(V6(addrs));
            && "IPADDR" !in c
            && (if texts == [] then "IPV6ADDR" !in c else "IPV6ADDR" in c && c["IPV6ADDR"] == texts[0])
            && (if |texts| <= 1 then "IPV6ADDR_SECONDARIES" !in c
                else "IPV6ADDR_SECONDARIES" in c && c["IPV6ADDR_SECONDARIES"] == Join(texts[1..]))
            && (match gateway4 case None => "GATEWAY" !in c
                case Some(ip) => "GATEWAY" in c && c["GATEWAY"] == IPText(ip))
            && (match gateway6 case None => "IPV6_DEFAULTGW" !in c
                case Some(ip) => "IPV6_DEFAULTGW" in c && c["IPV6_DEFAULTGW"] == IPText(ip))
  {
    hide IPText, Join, WithAddresses, V4, V6, Texts;
    PrefixesNoDigit();
    var c0 := config - AddressKeys();
    assert "IPADDR" in PREFIXES;
    assert forall k :: k in FIXED + PREFIXES ==> k !in c0;
    WithAddressesElsewhere(c0, 0, V4(addrs), "IPADDR");
    WithAddressesElsewhere(c0, 0, V4(addrs), "IPV6ADDR");
    WithAddressesElsewhere(c0, 0, V4(addrs), "IPV6ADDR_SECONDARIES");
    WithAddressesElsewhere(c0, 0, V4(addrs), "GATEWAY");
    WithAddressesElsewhere(c0, 0, V4(addrs), "IPV6_DEFAULTGW");
    hide AddressKeys;
  }

  // ------------------------------------------------------------------ reading back

  lemma {:induction false} ReadIndexedAll(config: Config, addrs4: seq<IPNet>, idx: nat)
    requires forall j :: 0 <= j < 256 ==>
      ParseIPAt(config, Numeral(j, 10)) == if j < |addrs4| then Some(addrs4[j]) else None
    requires idx <= 256
    ensures ReadIndexed(config, idx)
         == if idx < |addrs4| then addrs4[idx..MinNat(256, |addrs4|)] else []
    decreases 256 - idx
  {
    hide ParseIPAt, Numeral;
    if idx < 256 {
      ReadIndexedAll(config, addrs4, idx + 1);
      var m := MinNat(256, |addrs4|);
      if idx < |addrs4| {
        assert addrs4[idx..m] == [addrs4[idx]] + addrs4[idx + 1..m];
        assert idx + 1 == |addrs4| ==> addrs4[idx + 1..m] == [];
      }
    }
  }

  lemma ParseWritten(config: Config, j: nat, n: IPNet)
    requires Canonical(n)
    requires Get(config, Indexed("IPADDR", j)) == IPText(n.ip)
             && Get(config, Indexed("PREFIX", j)) == Numeral(Prefix(n), 10)
    ensures ParseIPAt(config, Numeral(j, 10)) == Some(n)
  {
    IPTextRoundTrip(n.ip);
    NetworkTextRoundTrip(n);
    hide IPText, Numeral, ParseCIDR;
  }

  lemma {:induction false} FamiliesCanonical(addrs: seq<IPNet>)
    requires AllCanonical(addrs)
    ensures AllCanonical(V4(addrs)) && AllCanonical(V6(addrs))
  {
    hide Canonical;
    if addrs != [] { FamiliesCanonical(addrs[1..]); }
  }

  lemma {:induction false} ParseTexts(addrs: seq<IPNet>)
    requires AllCanonical(addrs)
    ensures ParseAll(Texts(addrs)) == addrs && AreWords(Texts(addrs)) && |Texts(addrs)| == |addrs|
  {
    hide Canonical, ParseCIDR, NetworkText;
    if addrs != [] {
      NetworkTextRoundTrip(addrs[0]);
      NetTextIsWord(NetworkText(addrs[0]));
      ParseTexts(addrs[1..]);
      assert Texts(addrs)[1..] == Texts(addrs[1..]);
      assert addrs == [addrs[0]] + addrs[1..];
    }
  }

  // Reading after SetIfaceAddresses, whatever stale keys were present: the IPv4
  // addresses in order, up to the 256 the reader looks for, then the IPv6 ones,
  // and the gateways.
  lemma ReadBack(config: Config, addrs: seq<IPNet>, gateway4: Option<IP>, gateway6: Option<IP>)
    requires AllCanonical(addrs)
    ensures var c := SetAddresses(config, addrs, gateway4, gateway6);
            && ReadAddresses(c) == V4(addrs)[..MinNat(256, |V4(addrs)|)] + V6(addrs)
            && ReadGateway(c, "GATEWAY") == gateway4 && ReadGateway(c, "IPV6_DEFAULTGW") == gateway6
  {
    var c, a4, a6 := SetAddresses(config, addrs, gateway4, gateway6), V4(addrs), V6(addrs);
    hide SetAddresses, V4, V6;
    FamiliesCanonical(addrs);
    TailAfterSet(config, addrs, gateway4, gateway6);
    ReadV4(config, addrs, gateway4, gateway6);
    ReadV6(c, a6);
    ReadGateways(c, gateway4, gateway6);
    assert ParseIPAt(c, "") == None by { assert "IPADDR" + "" == "IPADDR"; }
    hide ParseIPAt, ReadIndexed, ParseAll, ParseCIDR;
    assert a4[0..MinNat(256, |a4|)] == a4[..MinNat(256, |a4|)];
    if a4 == [] { assert a4[..0] == []; }
    ReadPieces(c, a4[..MinNat(256, |a4|)], a6);
  }

  lemma ReadPieces(c: Config, a4: seq<IPNet>, a6: seq<IPNet>)
    requires ParseIPAt(c, "") == None && ReadIndexed(c, 0) == a4
    requires (if Get(c, "IPV6ADDR") == "" then [] else OneOrNone(ParseCIDR(c["IPV6ADDR"])))
             + ParseAll(Fields(Get(c, "IPV6ADDR_SECONDARIES"))) == a6
    ensures ReadAddresses(c) == a4 + a6
  {
    hide ParseIPAt, ReadIndexed, ParseAll, ParseCIDR, Fields;
    assert [] + a4 == a4;
  }

  lemma ReadV4(config: Config, addrs: seq<IPNet>, gateway4: Option<IP>, gateway6: Option<IP>)
    requires AllCanonical(V4(addrs))
    ensures ReadIndexed(SetAddresses(config, addrs, gateway4, gateway6), 0)
         == if |V4(addrs)| > 0 then V4(addrs)[0..MinNat(256, |V4(addrs)|)] else []
  {
    var c, a4 := SetAddresses(config, addrs, gateway4, gateway6), V4(addrs);
    forall j | 0 <= j < 256 ensures ParseIPAt(c, Numeral(j, 10)) == if j < |a4| then Some(a4[j]) else None {
      IndexedAfterSet(config, addrs, gateway4, gateway6, "IPADDR", j);
      IndexedAfterSet(config, addrs, gateway4, gateway6, "PREFIX", j);
      hide SetAddresses, V4, Numeral, IPText, ParseCIDR;
      if j < |a4| { 
        IPTextRoundTrip(a4[j].ip);
        ParseWritten(c, j, a4[j]);
      } 
    }
    hide SetAddresses, V4;
    ReadIndexedAll(c, a4, 0);
  }

  lemma ReadV6(c: Config, a6: seq<IPNet>)
    requires AllCanonical(a6)
    requires var texts := Texts(a6);
             && (if texts == [] then "IPV6ADDR" !in c else "IPV6ADDR" in c && c["IPV6ADDR"] == texts[0])
             && (if |texts| <= 1 then "IPV6ADDR_SECONDARIES" !in c
                 else "IPV6ADDR_SECONDARIES" in c && c["IPV6ADDR_SECONDARIES"] == Join(texts[1..]))
    ensures (if Get(c, "IPV6ADDR") == "" then [] else OneOrNone(ParseCIDR(c["IPV6ADDR"])))
            + ParseAll(Fields(Get(c, "IPV6ADDR_SECONDARIES"))) == a6
  {
    var texts := Texts(a6);
    ParseTexts(a6);
    if a6 == [] {
      assert Fields("") == [] && ParseAll([]) == [];
    } else {
      hide ParseCIDR, NetworkText, Canonical, Fields;
      NetworkTextRoundTrip(a6[0]);
      assert Texts(a6)[1..] == Texts(a6[1..]) && a6 == [a6[0]] + a6[1..];
      ParseTexts(a6[1..]);
      NoFields();
      if |texts| > 1 { FieldsJoin(texts[1..]); }
    }
  }

  lemma NoFields()
    ensures Fields("") == []
  {}

  lemma ReadGateways(c: Config, gateway4: Option<IP>, gateway6: Option<IP>)
    requires match gateway4 case None => "GATEWAY" !in c case Some(ip) => "GATEWAY" in c && c["GATEWAY"] == IPText(ip)
    requires match gateway6 case None => "IPV6_DEFAULTGW" !in c
             case Some(ip) => "IPV6_DEFAULTGW" in c && c["IPV6_DEFAULTGW"] == IPText(ip)
    ensures ReadGateway(c, "GATEWAY") == gateway4 && ReadGateway(c, "IPV6_DEFAULTGW") == gateway6
  {
    hide IPText, ParseIP;
    if gateway4.Some? { IPTextRoundTrip(gateway4.value); }
    if gateway6.Some? { IPTextRoundTrip(gateway6.value); }
  }

  // Each BROADCASTn is the greatest address of its network.
  lemma BroadcastWritten(config: Config, addrs: seq<IPNet>, gateway4: Option<IP>, gateway6: Option<IP>, j: nat, x: IP)
    requires j < |V4(addrs)|
    ensures var c, n := SetAddresses(config, addrs, gateway4, gateway6), V4(addrs)[j];
            && Indexed("BROADCAST", j) in c && ParseIP(c[Indexed("BROADCAST", j)]) == Some(Broadcast(n))
            && Contains(n, Broadcast(n)) && (Contains(n, x) ==> AtMost(x, Broadcast(n)))
  {
    IndexedAfterSet(config, addrs, gateway4, gateway6, "BROADCAST", j);
    hide SetAddresses, V4, IPText, ParseIP, Contains, Broadcast, AtMost, Indexed;
    IPTextRoundTrip(Broadcast(V4(addrs)[j]));
    BroadcastIsGreatest(V4(addrs)[j], x);
  }

  // ------------------------------------------------------------------- DNS and DHCP

  lemma {:induction false} WithServersAt(config: Config, i: nat, servers: seq<IP>, k: string)
    ensures var c := WithServers(config, i, servers);
            && (!HasPrefix(k, "DNS") ==> Same(c, config, k))
            && (forall j :: i <= j < i + |servers| ==> DNSKey(j) in c && c[DNSKey(j)] == IPText(servers[j - i]))
            && (forall j :: 0 <= j < i || j >= i + |servers| ==> Same(c, config, DNSKey(j)))
    decreases |servers|
  {
    hide IPText, DNSKey;
    if servers != [] {
      DNSKeyPrefix(i);
      var c1 := config[DNSKey(i) := IPText(servers[0])];
      WithServersAt(c1, i + 1, servers[1..], k);
      forall j: nat ensures DNSKey(i) == DNSKey(j) ==> i == j { DNSKeyInjective(i, j); }
    }
  }

  lemma DNSKeyPrefix(i: nat)
    ensures HasPrefix(DNSKey(i), "DNS") && DNSKey(i) != "DOMAIN" && DNSKey(i) != "PEERDNS"
  {
    assert DNSKey(i)[..3] == "DNS";
  }

  lemma {:induction false} ReadServersAll(config: Config, servers: seq<IP>, idx: nat)
    requires 1 <= idx <= |servers| + 1 && forall j :: 1 <= j < idx ==> DNSKey(j) in config
    requires forall j :: 1 <= j <= |servers| ==> DNSKey(j) in config && config[DNSKey(j)] == IPText(servers[j - 1])
    requires DNSKey(|servers| + 1) !in config
    ensures ReadServers(config, idx) == servers[idx - 1..]
    decreases |servers| + 1 - idx
  {
    hide IPText, DNSKey, ParseIP;
    if idx <= |servers| {
      IPTextRoundTrip(servers[idx - 1]);
      ReadServersAll(config, servers, idx + 1);
      assert servers[idx - 1..] == [servers[idx - 1]] + servers[idx..];
    }
  }

  lemma NumberedKeyAfterSet(config: Config, servers: seq<Option<IP>>, domains: seq<string>, j: nat)
    ensures var c, ss := SetDNS(config, servers, domains), NonNil(servers);
            if 1 <= j <= |ss| then DNSKey(j) in c && c[DNSKey(j)] == IPText(ss[j - 1]) else DNSKey(j) !in c
  {
    DNSKeyPrefix(j);
    WithServersAt(WithoutDNS(config), 1, NonNil(servers), "DOMAIN");
    hide DNSKey, WithServers, IPText, NonNil, Join;
  }

  // Reading after SetIfaceDNS: exactly the servers given, and the domains' words.
  lemma ReadBackDNS(config: Config, servers: seq<Option<IP>>, domains: seq<string>)
    ensures var c := SetDNS(config, servers, domains);
            ReadServers(c, 1) == NonNil(servers) && ReadDomains(c) == Fields(Join(domains))
    ensures AreWords(domains) ==> ReadDomains(SetDNS(config, servers, domains)) == domains
  {
    var c, ss := SetDNS(config, servers, domains), NonNil(servers);
    if AreWords(domains) { FieldsJoin(domains); }
    ReadBackDomains(config, servers, domains);
    forall j | 1 <= j <= |ss| ensures DNSKey(j) in c && c[DNSKey(j)] == IPText(ss[j - 1]) {
      NumberedKeyAfterSet(config, servers, domains, j);
    }
    NumberedKeyAfterSet(config, servers, domains, |ss| + 1);
    hide DNSKey, SetDNS, IPText, NonNil, Fields, Join;
    ReadServersAll(c, ss, 1);
    assert ss[0..] == ss;
  }

  lemma NotNumbered()
    ensures !HasPrefix("DOMAIN", "DNS") && !HasPrefix("PEERDNS", "DNS")
    ensures forall k :: k in DHCP_KEYS ==> !IsDNSKey(k) && !EndsInDigit(k)
  {
    assert "DOMAIN"[..3][1] == 'O' && "PEERDNS"[..3][0] == 'P' && "BOOTPROTO"[..3][0] == 'B'
           && "PERSISTENT_DHCLIENT"[..3][0] == 'P';
    assert "IPV6INIT"[..3][0] == 'I' && "DHCPV6C"[..3][1] == 'H';
  }

  lemma ReadBackDomains(config: Config, servers: seq<Option<IP>>, domains: seq<string>)
    ensures ReadDomains(SetDNS(config, servers, domains)) == Fields(Join(domains))
  {
    NotNumbered();
    WithServersAt(WithoutDNS(config), 1, NonNil(servers), "DOMAIN");
    NoFields();
    EmptyJoin();
    hide DNSKey, WithServers, IPText, NonNil, Fields, Join;
  }

  lemma EmptyJoin()
    ensures Join([]) == ""
  {}

  // Reading after SetIfaceDHCP.
  lemma ReadBackDHCP(config: Config, dhcp4: bool, dhcp6: bool)
    ensures ReadDHCP(SetDHCP(config, dhcp4, dhcp6)) == (dhcp4, dhcp6)
  {
    assert Lower("dhcp") == "dhcp" && Lower("none") == "none" && Lower("yes") == "yes" && Lower("") == "";
    hide Lower;
  }

  // ----------------------------------------------------------------- runs of setters

  datatype Call =
    | CallAddresses(addrs: seq<IPNet>, gateway4: Option<IP>, gateway6: Option<IP>)
    | CallDNS(servers: seq<Option<IP>>, domains: seq<string>)
    | CallDHCP(dhcp4: bool, dhcp6: bool)

  function Apply(config: Config, call: Call): Config {
    match call
    case CallAddresses(a, g4, g6) => SetAddresses(config, a, g4, g6)
    case CallDNS(s, d) => SetDNS(config, s, d)
    case CallDHCP(d4, d6) => SetDHCP(config, d4, d6)
  }

  // Every call merges the interface's files, which after the first call is one file.
  function Run(config: Config, calls: seq<Call>): Config
    decreases |calls|
  {
    if calls == [] then config else Run(Apply(MergeAll(map[], [config]), calls[0]), calls[1..])
  }

  // What each kind of call is read back by.
  datatype Addressing = Addressing(addrs: seq<IPNet>, gateway4: Option<IP>, gateway6: Option<IP>)

  function AddressView(c: Config): Addressing {
    Addressing(ReadAddresses(c), ReadGateway(c, "GATEWAY"), ReadGateway(c, "IPV6_DEFAULTGW"))
  }

  datatype Resolving = Resolving(servers: seq<IP>, domains: seq<string>)

  function DNSView(c: Config): Resolving { Resolving(ReadServers(c, 1), ReadDomains(c)) }

  // Keys the calls of each kind may touch.
  ghost predicate AddressKey(k: string) {
    k in FIXED || k in PREFIXES || exists p, j: nat :: p in PREFIXES && k == Indexed(p, j)
  }

  ghost predicate Managed(call: Call, k: string) {
    match call
    case CallAddresses(_, _, _) => AddressKey(k)
    case CallDNS(_, _) => IsDNSKey(k)
    case CallDHCP(_, _) => k in DHCP_KEYS
  }

  lemma {:induction false} WithAddressesFrame(config: Config, i: nat, addrs4: seq<IPNet>, k: string)
    requires !AddressKey(k)
    ensures Same(WithAddresses(config, i, addrs4), config, k)
    decreases |addrs4|
  {
    if addrs4 != [] {
      WithAddressesFrame(WithAddress(config, i, addrs4[0]), i + 1, addrs4[1..], k);
      assert {"IPADDR", "PREFIX", "NETMASK", "BROADCAST"} <= PREFIXES;
      assert k != Indexed("IPADDR", i) && k != Indexed("PREFIX", i) && k != Indexed("NETMASK", i)
             && k != Indexed("BROADCAST", i);
      hide Indexed, IPText, Broadcast, WithAddresses;
    }
  }

  // A call changes nothing but the keys of its own kind.
  lemma Frame(config: Config, call: Call, k: string)
    requires !Managed(call, k)
    ensures Same(Apply(config, call), config, k)
  {
    match call
    case CallAddresses(addrs, g4, g6) =>
      WithAddressesFrame(config - AddressKeys(), 0, V4(addrs), k);
      hide Indexed, IPText, V4, V6, Texts, WithAddresses, Join;
    case CallDNS(servers, domains) =>
      WithServersAt(WithoutDNS(config), 1, NonNil(servers), k);
      hide IPText, WithServers, NonNil, Join, DNSKey, HasPrefix;
    case CallDHCP(_, _) =>
  }

  predicate NotOther(k: string) { k != [] && k[0] != 'D' && k !in DHCP_KEYS && k != "PEERDNS" }

  lemma FixedShape()
    ensures forall k :: k in FIXED ==> NotOther(k)
  {}

  lemma PrefixShape()
    ensures forall k :: k in PREFIXES ==> NotOther(k)
    ensures forall k :: NotOther(k) <==> k != [] && k[0] != 'D' && k !in DHCP_KEYS && k != "PEERDNS"
  {}

  lemma IndexedShape(p: string, j: nat)
    requires p in PREFIXES
    ensures NotOther(Indexed(p, j))
  {
    var k := Indexed(p, j);
    PrefixesNoDigit();
    PrefixShape();
    NotNumbered();
    DigitSuffix(p, j, p, j);
    assert k[0] == p[0] && p[0] != 'D';
    assert !EndsInDigit("PEERDNS");
    hide Indexed;
  }

  lemma AddressKeyShape(k: string)
    requires AddressKey(k)
    ensures NotOther(k)
  {
    hide NotOther, Indexed;
    FixedShape();
    PrefixShape();
    if k !in FIXED && k !in PREFIXES {
      var p, j: nat :| p in PREFIXES && k == Indexed(p, j);
      IndexedShape(p, j);
    }
  }

  lemma DNSShape(k: string)
    ensures HasPrefix(k, "DNS") ==> k[0] == 'D'
  {
    if HasPrefix(k, "DNS") { assert k[..3][0] == 'D'; }
  }

  lemma KindsAreDisjoint(k: string)
    ensures !(AddressKey(k) && IsDNSKey(k)) && !(AddressKey(k) && k in DHCP_KEYS) && !(IsDNSKey(k) && k in DHCP_KEYS)
  {
    hide AddressKey, HasPrefix;
    NotNumbered();
    DNSShape(k);
    if AddressKey(k) { AddressKeyShape(k); }
  }

  // Two maps that agree on the keys of a kind read the same for that kind.
  lemma {:induction false} ReadIndexedFrame(a: Config, b: Config, idx: nat)
    requires forall p, j: nat :: p in PREFIXES ==> Same(a, b, Indexed(p, j))
    requires idx <= 256
    ensures ReadIndexed(a, idx) == ReadIndexed(b, idx)
    decreases 256 - idx
  {
    if idx < 256 {
      assert ParseIPAt(a, Numeral(idx, 10)) == ParseIPAt(b, Numeral(idx, 10)) by {
        assert {"IPADDR", "PREFIX", "NETMASK"} <= PREFIXES;
        assert Same(a, b, Indexed("IPADDR", idx)) && Same(a, b, Indexed("PREFIX", idx))
               && Same(a, b, Indexed("NETMASK", idx));
        hide Numeral, ParseCIDR, MaskPrefix;
      }
      hide ParseIPAt, Indexed, Numeral;
      ReadIndexedFrame(a, b, idx + 1);
    }
  }

  lemma AddressViewFrame(a: Config, b: Config)
    requires forall k :: AddressKey(k) ==> Same(a, b, k)
    ensures AddressView(a) == AddressView(b)
  {
    forall p, j: nat | p in PREFIXES ensures Same(a, b, Indexed(p, j)) {
      assert AddressKey(Indexed(p, j));
    }
    ReadIndexedFrame(a, b, 0);
    assert {"IPADDR", "PREFIX", "NETMASK"} <= PREFIXES;
    assert AddressKey("IPADDR") && AddressKey("PREFIX") && AddressKey("NETMASK");
    assert "IPADDR" + "" == "IPADDR" && "PREFIX" + "" == "PREFIX" && "NETMASK" + "" == "NETMASK";
    assert AddressKey("IPV6ADDR") && AddressKey("IPV6ADDR_SECONDARIES") && AddressKey("GATEWAY")
           && AddressKey("IPV6_DEFAULTGW");
    assert ParseIPAt(a, "") == ParseIPAt(b, "") by { hide ParseCIDR, MaskPrefix, AddressKey; }
    hide ReadIndexed, ParseIPAt, ParseAll, ParseCIDR, ParseIP, Fields, AddressKey, Indexed;
  }

  lemma {:induction false} ReadServersFrame(a: Config, b: Config, idx: nat, bound: nat)
    requires forall j: nat :: Same(a, b, DNSKey(j))
    requires 1 <= idx <= bound + 1 && bound == |a|
    requires forall j :: 1 <= j < idx ==> DNSKey(j) in a && DNSKey(j) in b
    ensures ReadServers(a, idx) == ReadServers(b, idx)
    decreases bound + 1 - idx
  {
    hide DNSKey, ParseIP;
    assert Same(a, b, DNSKey(idx));
    if DNSKey(idx) in a {
      DNSKeysBounded(a, idx);
      ReadServersFrame(a, b, idx + 1, bound);
    }
  }

  lemma DNSViewFrame(a: Config, b: Config)
    requires forall k :: IsDNSKey(k) ==> Same(a, b, k)
    ensures DNSView(a) == DNSView(b)
  {
    forall j: nat ensures Same(a, b, DNSKey(j)) { DNSKeyPrefix(j); }
    assert IsDNSKey("DOMAIN");
    hide DNSKey, Fields, IsDNSKey;
    ReadServersFrame(a, b, 1, |a|);
  }

  // The last call of a kind in a run, if there is one.
  function LastAddresses(calls: seq<Call>): (r: Option<Call>)
    ensures r.Some? ==> r.value.CallAddresses? && r.value in calls
  {
    if calls == [] then None
    else if calls[|calls| - 1].CallAddresses? then Some(calls[|calls| - 1])
    else LastAddresses(calls[..|calls| - 1])
  }

  function LastDNS(calls: seq<Call>): (r: Option<Call>)
    ensures r.Some? ==> r.value.CallDNS? && r.value in calls
  {
    if calls == [] then None
    else if calls[|calls| - 1].CallDNS? then Some(calls[|calls| - 1])
    else LastDNS(calls[..|calls| - 1])
  }

  function LastDHCP(calls: seq<Call>): (r: Option<Call>)
    ensures r.Some? ==> r.value.CallDHCP? && r.value in calls
  {
    if calls == [] then None
    else if calls[|calls| - 1].CallDHCP? then Some(calls[|calls| - 1])
    else LastDHCP(calls[..|calls| - 1])
  }

  lemma {:induction false} RunSnoc(config: Config, calls: seq<Call>)
    requires calls != []
    ensures Run(config, calls) == Apply(Run(config, calls[..|calls| - 1]), calls[|calls| - 1])
    decreases |calls|
  {
    hide Apply, MergeAll;
    MergeOne(config);
    if |calls| > 1 {
      RunSnoc(Apply(config, calls[0]), calls[1..]);
      assert calls[1..][..|calls| - 2] == calls[..|calls| - 1][1..];
    } else {
      assert calls[1..] == [] && calls[..0] == [];
    }
  }

  // The values a call stands for, independent of the map it is applied to.
  function AddressesOf(call: Call): Addressing
    requires call.CallAddresses?
  {
    Addressing(V4(call.addrs)[..MinNat(256, |V4(call.addrs)|)] + V6(call.addrs), call.gateway4, call.gateway6)
  }

  function ServersOf(call: Call): Resolving
    requires call.CallDNS?
  {
    Resolving(NonNil(call.servers), Fields(Join(call.domains)))
  }

  predicate CanonicalCalls(calls: seq<Call>) {
    forall i, j :: 0 <= i < |calls| && calls[i].CallAddresses? && 0 <= j < |calls[i].addrs| ==> Canonical(calls[i].addrs[j])
  }

  // Last writer per aspect: after any run of calls, the addresses and gateways
  // read back are those of the last SetIfaceAddresses, the resolvers those of the
  // last SetIfaceDNS and the DHCP flags those of the last SetIfaceDHCP; where no
  // such call was made they are unchanged. All other keys stay as they were.
  lemma {:induction false} LastWriterPerAspect(config: Config, calls: seq<Call>)
    requires CanonicalCalls(calls)
    ensures var c := Run(config, calls);
            && AddressView(c) == (match LastAddresses(calls) case Some(a) => AddressesOf(a) case None => AddressView(config))
            && DNSView(c) == (match LastDNS(calls) case Some(d) => ServersOf(d) case None => DNSView(config))
            && ReadDHCP(c) == (match LastDHCP(calls) case Some(d) => (d.dhcp4, d.dhcp6) case None => ReadDHCP(config))
            && forall k :: !AddressKey(k) && !IsDNSKey(k) && k !in DHCP_KEYS ==> Same(c, config, k)
    decreases |calls|
  {
    if calls != [] {
      var front, last := calls[..|calls| - 1], calls[|calls| - 1];
      hide *;
      RunSnoc(config, calls);
      LastSnoc(calls);
      LastWriterPerAspect(config, front);
      var c0 := Run(config, front);
      LastCall(c0, last);
      forall k | !AddressKey(k) && !IsDNSKey(k) && k !in DHCP_KEYS ensures Same(Apply(c0, last), config, k) {
        UnmanagedFrame(config, c0, last, k);
      }
    }
  }

  lemma LastSnoc(calls: seq<Call>)
    requires calls != [] && CanonicalCalls(calls)
    ensures var front, last := calls[..|calls| - 1], calls[|calls| - 1];
            && CanonicalCalls(front) && CanonicalCalls([last])
            && LastAddresses(calls) == (if last.CallAddresses? then Some(last) else LastAddresses(front))
            && LastDNS(calls) == (if last.CallDNS? then Some(last) else LastDNS(front))
            && LastDHCP(calls) == (if last.CallDHCP? then Some(last) else LastDHCP(front))
  {
    hide Canonical;
  }

  lemma UnmanagedFrame(config: Config, c0: Config, call: Call, k: string)
    requires !AddressKey(k) && !IsDNSKey(k) && k !in DHCP_KEYS && Same(c0, config, k)
    ensures Same(Apply(c0, call), config, k)
  {
    hide Apply;
    Frame(c0, call, k);
  }

  lemma LastCall(c0: Config, call: Call)
    requires CanonicalCalls([call])
    ensures AddressView(Apply(c0, call)) == if call.CallAddresses? then AddressesOf(call) else AddressView(c0)
    ensures DNSView(Apply(c0, call)) == if call.CallDNS? then ServersOf(call) else DNSView(c0)
    ensures ReadDHCP(Apply(c0, call)) == if call.CallDHCP? then (call.dhcp4, call.dhcp6) else ReadDHCP(c0)
  {
    hide AddressView, DNSView, ReadDHCP, AddressesOf, ServersOf, Apply;
    match call
    case CallAddresses(_, _, _) => LastCallAddresses(c0, call);
    case CallDNS(_, _) => LastCallDNS(c0, call);
    case CallDHCP(_, _) => LastCallDHCP(c0, call);
  }

  // A call leaves the keys of the other two kinds alone.
  lemma OtherKinds(c0: Config, call: Call)
    ensures !call.CallAddresses? ==> forall k :: AddressKey(k) ==> Same(Apply(c0, call), c0, k)
    ensures !call.CallDNS? ==> forall k :: IsDNSKey(k) ==> Same(Apply(c0, call), c0, k)
    ensures !call.CallDHCP? ==> forall k :: k in DHCP_KEYS ==> Same(Apply(c0, call), c0, k)
  {
    hide Apply, AddressKey, IsDNSKey;
    forall k ensures !Managed(call, k) ==> Same(Apply(c0, call), c0, k) {
      if !Managed(call, k) { Frame(c0, call, k); }
    }
    forall k ensures !(AddressKey(k) && IsDNSKey(k)) && !(AddressKey(k) && k in DHCP_KEYS) && !(IsDNSKey(k) && k in DHCP_KEYS) {
      KindsAreDisjoint(k);
    }
  }

  lemma DHCPFrame(a: Config, b: Config)
    requires forall k :: k in DHCP_KEYS ==> Same(a, b, k)
    ensures ReadDHCP(a) == ReadDHCP(b)
  {
    assert Same(a, b, "BOOTPROTO") && Same(a, b, "DHCPV6C");
    hide Lower;
  }

  lemma LastCallAddresses(c0: Config, call: Call)
    requires call.CallAddresses? && CanonicalCalls([call])
    ensures AddressView(Apply(c0, call)) == AddressesOf(call) && DNSView(Apply(c0, call)) == DNSView(c0)
    ensures ReadDHCP(Apply(c0, call)) == ReadDHCP(c0)
  {
    assert AllCanonical(call.addrs) by {
      assert forall j :: 0 <= j < |call.addrs| ==> Canonical([call][0].addrs[j]);
    }
    OtherKinds(c0, call);
    hide SetAddresses, ReadAddresses, ReadGateway, DNSView, ReadDHCP, V4, V6, IsDNSKey;
    ReadBack(c0, call.addrs, call.gateway4, call.gateway6);
    DNSViewFrame(Apply(c0, call), c0);
    DHCPFrame(Apply(c0, call), c0);
  }

  lemma LastCallDNS(c0: Config, call: Call)
    requires call.CallDNS?
    ensures AddressView(Apply(c0, call)) == AddressView(c0) && DNSView(Apply(c0, call)) == ServersOf(call)
    ensures ReadDHCP(Apply(c0, call)) == ReadDHCP(c0)
  {
    OtherKinds(c0, call);
    hide SetDNS, AddressView, ReadServers, ReadDomains, ReadDHCP, NonNil, Fields, Join, AddressKey;
    ReadBackDNS(c0, call.servers, call.domains);
    AddressViewFrame(Apply(c0, call), c0);
    DHCPFrame(Apply(c0, call), c0);
  }

  lemma LastCallDHCP(c0: Config, call: Call)
    requires call.CallDHCP?
    ensures AddressView(Apply(c0, call)) == AddressView(c0) && DNSView(Apply(c0, call)) == DNSView(c0)
    ensures ReadDHCP(Apply(c0, call)) == (call.dhcp4, call.dhcp6)
  {
    OtherKinds(c0, call);
    hide SetDHCP, AddressView, DNSView, ReadDHCP, AddressKey, IsDNSKey;
    ReadBackDHCP(c0, call.dhcp4, call.dhcp6);
    AddressViewFrame(Apply(c0, call), c0);
    DNSViewFrame(Apply(c0, call), c0);
  }

  // ------------------------------------------------------------ through the file

  lemma NetTextIsPlain(s: string)
    requires NetText(s)
    ensures PlainText(s) && !HasSpace(s) && NoFinalBackslash(s) && Free(s, '\n')
  {
    assert forall i :: 0 <= i < |s| ==> NetChar(s[i]) && s[i] != '"' && s[i] != '\'' && s[i] != '=' && !IsSpace(s[i]) && s[i] != '\\';
  }

  // Keys and values that a setter adds to a well-formed map.
  ghost predicate Extends(a: Config, b: Config) {
    forall k :: k in b ==> (k in a && b[k] == a[k]) || WellFormedEntry(k, b[k])
  }

  lemma ExtendsKeepsForm(a: Config, b: Config)
    requires WellFormedMap(a) && Extends(a, b)
    ensures WellFormedMap(b)
  {
    hide WellFormedEntry;
  }

  lemma IndexedIsPlain(p: string, i: nat)
    requires PlainText(p) && p != "" && p[0] != '#'
    ensures WellFormedKey(Indexed(p, i))
  {
    var k, d := Indexed(p, i), Numeral(i, 10);
    assert forall x :: 0 <= x < |p| ==> k[x] == p[x];
    assert forall x :: |p| <= x < |k| ==> k[x] == d[x - |p|] && IsDigit(d[x - |p|]);
  }

  lemma AddressEntry(p: string, i: nat, n: IPNet)
    requires p in WRITTEN
    ensures WellFormedEntry(Indexed(p, i), FieldText(p, n))
  {
    assert PlainText(p) && p != "" && p[0] != '#';
    IndexedIsPlain(p, i);
    IPTextRoundTrip(n.ip);
    IPTextRoundTrip(n.mask);
    IPTextRoundTrip(Broadcast(n));
    assert NetText(Numeral(Prefix(n), 10));
    NetTextIsPlain(FieldText(p, n));
  }

  lemma {:induction false} WithAddressesForm(a: Config, config: Config, i: nat, addrs4: seq<IPNet>)
    requires Extends(a, config)
    ensures Extends(a, WithAddresses(config, i, addrs4))
    decreases |addrs4|
  {
    hide WellFormedEntry, FieldText, Indexed;
    if addrs4 != [] {
      forall p | p in WRITTEN ensures WellFormedEntry(Indexed(p, i), FieldText(p, addrs4[0])) {
        AddressEntry(p, i, addrs4[0]);
      }
      FieldTexts(addrs4[0]);
      assert Extends(a, WithAddress(config, i, addrs4[0]));
      WithAddressesForm(a, WithAddress(config, i, addrs4[0]), i + 1, addrs4[1..]);
    }
  }

  lemma FieldTexts(n: IPNet)
    ensures FieldText("IPADDR", n) == IPText(n.ip) && FieldText("PREFIX", n) == Numeral(Prefix(n), 10)
    ensures FieldText("NETMASK", n) == IPText(n.mask) && FieldText("BROADCAST", n) == IPText(Broadcast(n))
  {}

  lemma {:induction false} TextsForm(addrs: seq<IPNet>)
    ensures forall i :: 0 <= i < |Texts(addrs)| ==> NetText(Texts(addrs)[i])
  {
    hide NetText, NetworkText;
    if addrs != [] {
      NetworkTextRoundTrip(addrs[0]);
      TextsForm(addrs[1..]);
    }
  }

  lemma {:induction false} JoinForm(ws: seq<string>)
    requires forall i :: 0 <= i < |ws| ==> NetText(ws[i])
    ensures forall x :: 0 <= x < |Join(ws)| ==> NetChar(Join(ws)[x]) || Join(ws)[x] == ' '
    ensures |ws| > 1 ==> HasSpace(Join(ws))
    ensures |ws| > 0 && ws[|ws| - 1] != "" ==> Join(ws) != "" && NetChar(Join(ws)[|Join(ws)| - 1])
  {
    if |ws| > 1 {
      JoinForm(ws[1..]);
      var s := Join(ws);
      assert s == ws[0] + [' '] + Join(ws[1..]);
      assert s[|ws[0]|] == ' ';
    }
  }

  lemma JoinedForm(key: string, ws: seq<string>)
    requires WellFormedKey(key) && ws != [] && forall i :: 0 <= i < |ws| ==> NetText(ws[i]) && ws[i] != ""
    ensures WellFormedEntry(key, Join(ws))
  {
    JoinForm(ws);
    var v := Join(ws);
    if |ws| == 1 { NetTextIsPlain(ws[0]); }
    else { assert forall x :: 0 <= x < |v| ==> v[x] != '"' && v[x] != '\n'; }
  }

  lemma {:induction false} TextsNonEmpty(addrs: seq<IPNet>)
    ensures forall i :: 0 <= i < |Texts(addrs)| ==> Texts(addrs)[i] != ""
  {
    if addrs != [] {
      NetworkTextRoundTrip(addrs[0]);
      hide NetworkText;
      TextsNonEmpty(addrs[1..]);
    }
  }

  lemma SetAddressesForm(config: Config, addrs: seq<IPNet>, gateway4: Option<IP>, gateway6: Option<IP>)
    ensures Extends(config, SetAddresses(config, addrs, gateway4, gateway6))
  {
    var c0 := config - AddressKeys();
    assert Extends(config, c0) by { hide AddressKeys, WellFormedEntry; }
    WithAddressesForm(config, c0, 0, V4(addrs));
    var c1 := WithAddresses(c0, 0, V4(addrs));
    hide WithAddresses, V4, V6, AddressKeys;
    TailForm(config, c1, Texts(V6(addrs)), V6(addrs), gateway4, gateway6);
  }

  // SetIfaceAddresses keeps a map well formed, so that what Save prints is read
  // back from the file exactly, addresses and gateways included.
  lemma SetAddressesSurvivesTheFile(config: Config, addrs: seq<IPNet>, gateway4: Option<IP>, gateway6: Option<IP>,
                                    keys: seq<string>)
    requires WellFormedMap(config) && KeyList(SetAddresses(config, addrs, gateway4, gateway6), keys)
    ensures ParseLines(PrintedLines(SetAddresses(config, addrs, gateway4, gateway6), keys))
         == Some(SetAddresses(config, addrs, gateway4, gateway6))
  {
    SetAddressesForm(config, addrs, gateway4, gateway6);
    hide SetAddresses;
    ExtendsKeepsForm(config, SetAddresses(config, addrs, gateway4, gateway6));
    RoundTripIff(SetAddresses(config, addrs, gateway4, gateway6), keys);
  }

  lemma ExtendsPut(a: Config, b: Config, key: string, value: string)
    requires Extends(a, b) && WellFormedEntry(key, value)
    ensures Extends(a, b[key := value])
  {
    hide WellFormedEntry;
  }

  lemma TailForm(a: Config, config: Config, texts: seq<string>, addrs6: seq<IPNet>, gateway4: Option<IP>,
                 gateway6: Option<IP>)
    requires Extends(a, config) && texts == Texts(addrs6)
    ensures Extends(a, WithGateway(WithGateway(WithV6(config, texts), "GATEWAY", gateway4), "IPV6_DEFAULTGW", gateway6))
  {
    TailKeysForm();
    V6Form(a, config, texts, addrs6);
    hide Extends, WithV6, WellFormedKey, IPText;
    var c := WithV6(config, texts);
    if gateway4.Some? {
      GatewayForm("GATEWAY", gateway4);
      ExtendsPut(a, c, "GATEWAY", IPText(gateway4.value));
    }
    if gateway6.Some? {
      GatewayForm("IPV6_DEFAULTGW", gateway6);
      ExtendsPut(a, WithGateway(c, "GATEWAY", gateway4), "IPV6_DEFAULTGW", IPText(gateway6.value));
    }
  }

  lemma TailKeysForm()
    ensures WellFormedKey("IPV6ADDR") && WellFormedKey("IPV6ADDR_SECONDARIES") && WellFormedKey("GATEWAY")
            && WellFormedKey("IPV6_DEFAULTGW")
  {}

  lemma V6Form(a: Config, config: Config, texts: seq<string>, addrs6: seq<IPNet>)
    requires Extends(a, config) && texts == Texts(addrs6)
    ensures Extends(a, WithV6(config, texts))
  {
    TailKeysForm();
    TextsForm(addrs6);
    TextsNonEmpty(addrs6);
    hide Extends, WellFormedKey, Texts, NetText;
    if texts != [] {
      JoinedForm("IPV6ADDR", [texts[0]]);
      assert Join([texts[0]]) == texts[0];
      ExtendsPut(a, config, "IPV6ADDR", texts[0]);
      if |texts| > 1 {
        JoinedForm("IPV6ADDR_SECONDARIES", texts[1..]);
        ExtendsPut(a, config["IPV6ADDR" := texts[0]], "IPV6ADDR_SECONDARIES", Join(texts[1..]));
      }
    }
  }

  lemma GatewayForm(key: string, gateway: Option<IP>)
    requires WellFormedKey(key)
    ensures gateway.Some? ==> WellFormedEntry(key, IPText(gateway.value))
  {
    if gateway.Some? {
      IPTextRoundTrip(gateway.value);
      NetTextIsPlain(IPText(gateway.value));
    }
  }
}
