// networkScripts.go: the setters of one interface's ifcfg map and the part of
// GetInterfaces that reads the map back.
module NetworkScripts {
  import opened Text
  import opened Net
  import opened Sorting
  import opened KeyValueFile
  import opened KeyValueRoundTrip

  type Config = map<string, string>

  // A missing key reads as the empty string, as in Go.
  function Get(config: Config, key: string): string { if key in config then config[key] else "" }

  // mergo.Merge on two string maps: the first non-empty value wins.
  function Merge(dst: Config, src: Config): Config {
    map k | k in dst.Keys + src.Keys :: if k !in src || (k in dst && dst[k] != "") then dst[k] else src[k]
  }

  function MergeAll(dst: Config, files: seq<Config>): Config
    decreases |files|
  {
    if files == [] then dst else MergeAll(Merge(dst, files[0]), files[1..])
  }

  lemma MergeOne(config: Config)
    ensures MergeAll(map[], [config]) == config
  {
    assert [config][1..] == [];
    assert Merge(map[], config) == config;
  }

  // ------------------------------------------------------------------ managed keys

  const FIXED: set<string> := {"IPADDR6", "IPV6ADDR", "IPV6ADDR_SECONDARIES", "IPV6_DEFAULTGW", "GATEWAY"}

  const PREFIXES: set<string> := {"IPADDR", "PREFIX", "NETMASK", "BROADCAST", "ARPCHECK", "ARPUPDATE"}

  function Indexed(prefix: string, i: nat): string { prefix + Numeral(i, 10) }

  // The keys at an index, and those at the indices below n with the ones without.
  function KeysAt(i: nat): set<string> { set p | p in PREFIXES :: Indexed(p, i) }

  function IndexedKeys(n: nat): set<string> { PREFIXES + set p, i | p in PREFIXES && 0 <= i < n :: Indexed(p, i) }

  lemma IndexedKeysStep(n: nat)
    ensures IndexedKeys(n + 1) == IndexedKeys(n) + KeysAt(n)
    ensures KeysAt(n) == {Indexed("IPADDR", n), Indexed("PREFIX", n), Indexed("NETMASK", n), Indexed("BROADCAST", n),
                          Indexed("ARPCHECK", n), Indexed("ARPUPDATE", n)}
  {
    hide Indexed;
  }

  function AddressKeys(): set<string> { FIXED + IndexedKeys(256) }

  predicate IsDNSKey(k: string) { HasPrefix(k, "DNS") || k == "DOMAIN" || k == "PEERDNS" }

  const DHCP_KEYS: set<string> := {"BOOTPROTO", "PERSISTENT_DHCLIENT", "IPV6INIT", "DHCPV6C"}

  predicate NoDigit(s: string) { forall i :: 0 <= i < |s| ==> !IsDigit(s[i]) }

  predicate EndsInDigit(s: string) { s != [] && IsDigit(s[|s| - 1]) }

  lemma {:induction false} DigitSuffix(p: string, i: nat, q: string, j: nat)
    requires NoDigit(p) && NoDigit(q)
    ensures EndsInDigit(Indexed(p, i))
    ensures Indexed(p, i) == Indexed(q, j) ==> p == q && i == j
  {
    var a, b, d, e := Indexed(p, i), Indexed(q, j), Numeral(i, 10), Numeral(j, 10);
    hide Numeral;
    assert a[|a| - 1] == d[|d| - 1];
    assert a[|p|] == d[0] && b[|q|] == e[0];
    assert (forall x :: 0 <= x < |p| ==> a[x] == p[x]) && (forall x :: 0 <= x < |q| ==> b[x] == q[x]);
    if a == b {
      assert |p| == |q|;
      assert p == a[..|p|] && q == b[..|q|] && d == a[|p|..] && e == b[|q|..];
      NumeralInjective(i, j);
    }
  }

  lemma PrefixesNoDigit()
    ensures forall p :: p in PREFIXES ==> NoDigit(p) && !EndsInDigit(p)
    ensures forall k :: k in FIXED && EndsInDigit(k) ==> k == "IPADDR6"
  {}

  // --------------------------------------------------------------- SetIfaceAddresses

  function V4(addrs: seq<IPNet>): seq<IPNet> {
    if addrs == [] then [] else (if Is4(addrs[0].ip) then [addrs[0]] else []) + V4(addrs[1..])
  }

  function V6(addrs: seq<IPNet>): seq<IPNet> {
    if addrs == [] then [] else (if Is4(addrs[0].ip) then [] else [addrs[0]]) + V6(addrs[1..])
  }

  function Texts(addrs: seq<IPNet>): seq<string> {
    if addrs == [] then [] else [NetworkText(addrs[0])] + Texts(addrs[1..])
  }

  // The four keys of one IPv4 address.
  function WithAddress(config: Config, i: nat, n: IPNet): Config {
    config[Indexed("IPADDR", i) := IPText(n.ip)]
          [Indexed("PREFIX", i) := Numeral(Prefix(n), 10)]
          [Indexed("NETMASK", i) := IPText(n.mask)]
          [Indexed("BROADCAST", i) := IPText(Broadcast(n))]
  }

  function WithAddresses(config: Config, i: nat, addrs4: seq<IPNet>): Config
    decreases |addrs4|
  {
    if addrs4 == [] then config else WithAddresses(WithAddress(config, i, addrs4[0]), i + 1, addrs4[1..])
  }

  function WithV6(config: Config, texts: seq<string>): Config {
    if texts == [] then config
    else if |texts| == 1 then config["IPV6ADDR" := texts[0]]
    else config["IPV6ADDR" := texts[0]]["IPV6ADDR_SECONDARIES" := Join(texts[1..])]
  }

  function WithGateway(config: Config, key: string, gateway: Option<IP>): Config {
    match gateway case None => config case Some(ip) => config[key := IPText(ip)]
  }

  function SetAddresses(config: Config, addrs: seq<IPNet>, gateway4: Option<IP>, gateway6: Option<IP>): Config {
    WithGateway(WithGateway(
      WithV6(WithAddresses(config - AddressKeys(), 0, V4(addrs)), Texts(V6(addrs))),
      "GATEWAY", gateway4), "IPV6_DEFAULTGW", gateway6)
  }

  // --------------------------------------------------------------------- SetIfaceDNS

  function NonNil(servers: seq<Option<IP>>): seq<IP> {
    if servers == [] then []
    else (match servers[0] case None => [] case Some(ip) => [ip]) + NonNil(servers[1..])
  }

  function DNSKey(i: nat): string { "DNS" + Numeral(i, 10) }

  function WithServers(config: Config, i: nat, servers: seq<IP>): Config
    decreases |servers|
  {
    if servers == [] then config else WithServers(config[DNSKey(i) := IPText(servers[0])], i + 1, servers[1..])
  }

  function WithoutDNS(config: Config): Config { map k | k in config && !IsDNSKey(k) :: config[k] }

  function SetDNS(config: Config, servers: seq<Option<IP>>, domains: seq<string>): Config {
    var c := WithServers(WithoutDNS(config), 1, NonNil(servers));
    var c := if NonNil(servers) == [] then c else c["PEERDNS" := "no"];
    if domains == [] then c else c["DOMAIN" := Join(domains)]
  }

  // -------------------------------------------------------------------- SetIfaceDHCP

  function SetDHCP(config: Config, dhcp4: bool, dhcp6: bool): Config {
    var c := if dhcp4 then config["BOOTPROTO" := "dhcp"] else config["BOOTPROTO" := "none"] - {"PERSISTENT_DHCLIENT"};
    if dhcp6 then c["IPV6INIT" := "yes"]["DHCPV6C" := "yes"] else c - {"DHCPV6C"}
  }

  // ------------------------------------------------------------------------- reading

  function MaskPrefix(netmask: string): string {
    match ParseIP(netmask)
    case Some(m) => if Is4(m) then Numeral(match MaskSize(m) case Some(k) => k case None => 0, 10) else "16"
    case None => "16"
  }

  // The address at an index, from IPADDR with PREFIX or NETMASK.
  function ParseIPAt(config: Config, idx: string): Option<IPNet> {
    var addr := Get(config, "IPADDR" + idx);
    if addr == "" then None
    else
      var prefix := Get(config, "PREFIX" + idx);
      ParseCIDR(addr + "/" + if prefix == "" then MaskPrefix(Get(config, "NETMASK" + idx)) else prefix)
  }

  // The indexed loop from idx on, with its early exit.
  function ReadIndexed(config: Config, idx: nat): seq<IPNet>
    decreases 256 - idx
  {
    if idx > 255 then []
    else
      match ParseIPAt(config, Numeral(idx, 10))
      case Some(n) => [n] + ReadIndexed(config, idx + 1)
      case None => if idx >= 2 then [] else ReadIndexed(config, idx + 1)
  }

  function OneOrNone(n: Option<IPNet>): seq<IPNet> { match n case None => [] case Some(v) => [v] }

  function ParseAll(texts: seq<string>): seq<IPNet> {
    if texts == [] then [] else OneOrNone(ParseCIDR(texts[0])) + ParseAll(texts[1..])
  }

  function ReadAddresses(config: Config): seq<IPNet> {
    OneOrNone(ParseIPAt(config, "")) + ReadIndexed(config, 0)
    + (if Get(config, "IPV6ADDR") == "" then [] else OneOrNone(ParseCIDR(config["IPV6ADDR"])))
    + ParseAll(Fields(Get(config, "IPV6ADDR_SECONDARIES")))
  }

  function ReadGateway(config: Config, key: string): Option<IP> {
    if Get(config, key) == "" then None else ParseIP(config[key])
  }

  // The keys DNS1 .. DNSn are distinct, which is why the loop over them ends.
  lemma {:induction false} DNSKeysBounded(config: Config, n: nat)
    requires forall j :: 1 <= j <= n ==> DNSKey(j) in config
    ensures n <= |config|
    decreases n
  {
    hide DNSKey;
    if n > 0 {
      var rest := config - {DNSKey(n)};
      forall j | 1 <= j < n ensures DNSKey(j) in rest {
        DNSKeyInjective(j, n);
      }
      DNSKeysBounded(rest, n - 1);
      assert config.Keys == rest.Keys + {DNSKey(n)};
    }
  }

  lemma DNSKeyInjective(i: nat, j: nat)
    ensures DNSKey(i) == DNSKey(j) ==> i == j
  {
    assert DNSKey(i)[3..] == Numeral(i, 10) && DNSKey(j)[3..] == Numeral(j, 10);
    NumeralInjective(i, j);
  }

  function ReadServers(config: Config, idx: nat): seq<IP>
    requires 1 <= idx && forall j :: 1 <= j < idx ==> DNSKey(j) in config
    decreases |config| + 1 - idx
  {
    if DNSKey(idx) !in config then []
    else
      DNSKeysBounded(config, idx);
      (match ParseIP(config[DNSKey(idx)]) case None => [] case Some(ip) => [ip]) + ReadServers(config, idx + 1)
  }

  function ReadDomains(config: Config): seq<string> { Fields(Get(config, "DOMAIN")) }

  function ReadDHCP(config: Config): (bool, bool) {
    (Lower(Get(config, "BOOTPROTO")) in {"dhcp", "bootp"}, Lower(Get(config, "DHCPV6C")) in {"yes", "true", "1"})
  }

  // ----------------------------------------------------------------- the interface

  // nsInterface: the parsed ifcfg files of one interface.
  class NsInterface {
    var ifFiles: seq<Config>

    constructor (files: seq<Config>)
      ensures ifFiles == files
    {
      ifFiles := files;
    }

    method MergedConfig() returns (config: Config)
      ensures config == MergeAll(map[], ifFiles)
    {
      config := map[];
      assert ifFiles[0..] == ifFiles;
      for i := 0 to |ifFiles|
        invariant MergeAll(config, ifFiles[i..]) == MergeAll(map[], ifFiles)
      {
        assert ifFiles[i..][0] == ifFiles[i] && ifFiles[i..][1..] == ifFiles[i + 1..];
        config := Merge(config, ifFiles[i]);
      }
    }

    // Save: the sorted lines of the new file, which becomes the only one.
    method Save(config: Config) returns (fd: seq<string>)
      modifies this
      ensures ifFiles == [config]
      ensures exists keys :: KeyList(config, keys) && Sorted(keys, StringLess) && fd == PrintedLines(config, keys)
    {
      hide StringLess, Sorted, EntryLines;
      var keys := SortedKeyList(config);
      fd := [];
      assert keys[0..] == keys;
      for i := 0 to |keys|
        invariant fd + PrintedLines(config, keys[i..]) == PrintedLines(config, keys)
      {
        assert keys[i..][0] == keys[i] && keys[i..][1..] == keys[i + 1..];
        var lines := EntryLines(keys[i], config[keys[i]]);
        assert fd + (lines + PrintedLines(config, keys[i + 1..])) == (fd + lines) + PrintedLines(config, keys[i + 1..]);
        fd := fd + lines;
      }
      ifFiles := [config];
    }

    method SetIfaceAddresses(addrs: seq<IPNet>, gateway4: Option<IP>, gateway6: Option<IP>) returns (fd: seq<string>)
      modifies this
      ensures ifFiles == [SetAddresses(MergeAll(map[], old(ifFiles)), addrs, gateway4, gateway6)]
      ensures exists keys :: KeyList(ifFiles[0], keys) && Sorted(keys, StringLess) && fd == PrintedLines(ifFiles[0], keys)
    {
      var addrs4, texts6 := SeparateFamilies(addrs);
      var config := MergedConfig();
      config := DeleteAddresses(config);
      config := AddAddresses(config, addrs4);
      if |texts6| != 0 {
        config := config["IPV6ADDR" := texts6[0]];
        texts6 := texts6[1..];
        if |texts6| != 0 { config := config["IPV6ADDR_SECONDARIES" := Join(texts6)]; }
      }
      if gateway4.Some? { config := config["GATEWAY" := IPText(gateway4.value)]; }
      if gateway6.Some? { config := config["IPV6_DEFAULTGW" := IPText(gateway6.value)]; }
      fd := Save(config);
    }

    method SetIfaceDHCP(dhcp4: bool, dhcp6: bool) returns (fd: seq<string>)
      modifies this
      ensures ifFiles == [SetDHCP(MergeAll(map[], old(ifFiles)), dhcp4, dhcp6)]
      ensures exists keys :: KeyList(ifFiles[0], keys) && Sorted(keys, StringLess) && fd == PrintedLines(ifFiles[0], keys)
    {
      var config := MergedConfig();
      if dhcp4 {
        config := config["BOOTPROTO" := "dhcp"];
      } else {
        config := config["BOOTPROTO" := "none"];
        config := config - {"PERSISTENT_DHCLIENT"};
      }
      if dhcp6 {
        config := config["IPV6INIT" := "yes"];
        config := config["DHCPV6C" := "yes"];
      } else {
        config := config - {"DHCPV6C"};
      }
      fd := Save(config);
    }

    method SetIfaceDNS(servers: seq<Option<IP>>, searchDomains: seq<string>) returns (fd: seq<string>)
      modifies this
      ensures ifFiles == [SetDNS(MergeAll(map[], old(ifFiles)), servers, searchDomains)]
      ensures exists keys :: KeyList(ifFiles[0], keys) && Sorted(keys, StringLess) && fd == PrintedLines(ifFiles[0], keys)
    {
      hide WithServers, WithoutDNS, NonNil, StringLess, Sorted, PrintedLines, Join, Merge;
      var config := MergedConfig();
      config := DeleteDNS(config);
      var some;
      config, some := AddServers(config, servers);
      if some { config := config["PEERDNS" := "no"]; }
      if |searchDomains| != 0 { config := config["DOMAIN" := Join(searchDomains)]; }
      fd := Save(config);
    }
  }

  // DNS1, DNS2, ... for the servers that are not nil.
  method AddServers(config0: Config, servers: seq<Option<IP>>) returns (config: Config, some: bool)
    ensures config == WithServers(config0, 1, NonNil(servers)) && (some <==> NonNil(servers) != [])
  {
    hide IPText, DNSKey;
    config := config0;
    var idx := 1;
    assert servers[0..] == servers;
    for i := 0 to |servers|
      invariant idx >= 1 && WithServers(config, idx, NonNil(servers[i..])) == WithServers(config0, 1, NonNil(servers))
      invariant if idx == 1 then NonNil(servers) == NonNil(servers[i..]) else NonNil(servers) != []
    {
      NonNilStep(servers, i);
      if servers[i].None? { continue; }
      config := config[DNSKey(idx) := IPText(servers[i].value)];
      idx := idx + 1;
    }
    assert NonNil(servers[|servers|..]) == [];
    some := idx > 1;
  }

  lemma NonNilStep(servers: seq<Option<IP>>, i: nat)
    requires i < |servers|
    ensures var rest := NonNil(servers[i + 1..]);
            NonNil(servers[i..]) == if servers[i].Some? then [servers[i].value] + rest else rest
    ensures servers[i].Some? ==> NonNil(servers[i..])[1..] == NonNil(servers[i + 1..])
  {
    assert servers[i..][0] == servers[i] && servers[i..][1..] == servers[i + 1..];
    assert [] + NonNil(servers[i + 1..]) == NonNil(servers[i + 1..]);
  }

  method SortedKeyList(config: Config) returns (keys: seq<string>)
    ensures KeyList(config, keys) && Sorted(keys, StringLess)
  {
    keys := [];
    var left := config.Keys;
    while left != {}
      invariant left <= config.Keys
      invariant forall k :: multiset(keys)[k] == if k in config.Keys - left then 1 else 0
      decreases left
    {
      var key :| key in left;
      left := left - {key};
      keys := keys + [key];
    }
    StringLessIsOrder();
    StableSortCorrect(keys, StringLess);
    keys := StableSort(keys, StringLess);
    CountedKeys(config, keys);
  }

  lemma CountedKeys(config: Config, keys: seq<string>)
    requires forall k :: multiset(keys)[k] == if k in config.Keys then 1 else 0
    ensures KeyList(config, keys)
  {
    forall i, j | 0 <= i < j < |keys| ensures keys[i] != keys[j] {
      if keys[i] == keys[j] { CountTwo(keys, i, j); }
    }
    forall k ensures k in keys <==> k in config {
      assert k in keys <==> k in multiset(keys);
    }
  }

  method SeparateFamilies(addrs: seq<IPNet>) returns (addrs4: seq<IPNet>, texts6: seq<string>)
    ensures addrs4 == V4(addrs) && texts6 == Texts(V6(addrs))
  {
    hide NetworkText;
    addrs4, texts6 := [], [];
    assert addrs[0..] == addrs;
    for i := 0 to |addrs|
      invariant addrs4 + V4(addrs[i..]) == V4(addrs)
      invariant texts6 + Texts(V6(addrs[i..])) == Texts(V6(addrs))
    {
      var addr := addrs[i];
      assert addrs[i..][1..] == addrs[i + 1..];
      ghost var r4, r6 := V4(addrs[i + 1..]), V6(addrs[i + 1..]);
      if !Is4(addr.ip) {
        assert [] + r4 == r4 && ([addr] + r6)[1..] == r6;
        assert texts6 + ([NetworkText(addr)] + Texts(r6)) == (texts6 + [NetworkText(addr)]) + Texts(r6);
        texts6 := texts6 + [NetworkText(addr)];
      } else {
        assert [] + r6 == r6;
        assert addrs4 + ([addr] + r4) == (addrs4 + [addr]) + r4;
        addrs4 := addrs4 + [addr];
      }
    }
  }

  method DeleteAddresses(config0: Config) returns (config: Config)
    ensures config == config0 - AddressKeys()
  {
    config := config0 - FIXED;
    config := config - PREFIXES;
    assert IndexedKeys(0) == PREFIXES;
    hide Indexed, IndexedKeys, KeysAt;
    for i := 0 to 256
      invariant config == config0 - (FIXED + IndexedKeys(i))
    {
      IndexedKeysStep(i);
      config := DeleteIndex(config, i);
    }
  }

  method DeleteIndex(config0: Config, i: nat) returns (config: Config)
    ensures config == config0 - KeysAt(i)
  {
    hide Indexed;
    IndexedKeysStep(i);
    config := config0 - {Indexed("IPADDR", i)};
    config := config - {Indexed("PREFIX", i)};
    config := config - {Indexed("NETMASK", i)};
    config := config - {Indexed("BROADCAST", i)};
    config := config - {Indexed("ARPCHECK", i)};
    config := config - {Indexed("ARPUPDATE", i)};
  }

  method AddAddresses(config0: Config, addrs4: seq<IPNet>) returns (config: Config)
    ensures config == WithAddresses(config0, 0, addrs4)
  {
    config := config0;
    assert addrs4[0..] == addrs4;
    for idx := 0 to |addrs4|
      invariant WithAddresses(config, idx, addrs4[idx..]) == WithAddresses(config0, 0, addrs4)
    {
      var ip := addrs4[idx];
      assert addrs4[idx..][1..] == addrs4[idx + 1..];
      var broadcast := GetBroadcast(ip.ip, ip.mask);
      config := config[Indexed("IPADDR", idx) := IPText(ip.ip)];
      config := config[Indexed("PREFIX", idx) := Numeral(Prefix(ip), 10)];
      config := config[Indexed("NETMASK", idx) := IPText(ip.mask)];
      config := config[Indexed("BROADCAST", idx) := IPText(broadcast.value)];
    }
  }

  method DeleteDNS(config0: Config) returns (config: Config)
    ensures config == WithoutDNS(config0)
  {
    config := config0;
    var left := config0.Keys;
    while left != {}
      invariant left <= config0.Keys
      invariant config == map k | k in config0 && (k in left || !HasPrefix(k, "DNS")) :: config0[k]
      decreases left
    {
      var key :| key in left;
      left := left - {key};
      if HasPrefix(key, "DNS") { config := config - {key}; }
    }
    config := config - {"DOMAIN"};
    config := config - {"PEERDNS"};
  }
}
