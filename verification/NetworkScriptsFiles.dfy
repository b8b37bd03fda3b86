// networkScripts.go: an interface with several ifcfg files, as GetInterfaces reads them
// and the setters merge them, and whole runs of calls through the file.
module NetworkScriptsFiles {
  import opened Text
  import opened Net
  import opened KeyValueFile
  import opened KeyValueRoundTrip
  import opened NetworkScripts
  import opened NetworkScriptsRuns

  // ------------------------------------------------------------------------- reading

  datatype Reading = Reading(addresses: Addressing, names: Resolving, dhcp4: bool, dhcp6: bool)

  const NOTHING := Reading(Addressing([], None, None), Resolving([], []), false, false)

  // A file adds its addresses, resolvers and clients; its gateways take over.
  function ReadFile(r: Reading, c: Config): Reading {
    Reading(
      Addressing(r.addresses.addrs + ReadAddresses(c),
                 if Get(c, "GATEWAY") == "" then r.addresses.gateway4 else ParseIP(c["GATEWAY"]),
                 if Get(c, "IPV6_DEFAULTGW") == "" then r.addresses.gateway6 else ParseIP(c["IPV6_DEFAULTGW"])),
      Resolving(r.names.servers + ReadServers(c, 1), r.names.domains + ReadDomains(c)),
      r.dhcp4 || ReadDHCP(c).0, r.dhcp6 || ReadDHCP(c).1)
  }

  function ReadFiles(r: Reading, files: seq<Config>): Reading
    decreases |files|
  {
    if files == [] then r else ReadFiles(ReadFile(r, files[0]), files[1..])
  }

  // The address without an index and the indexed ones. From index 2 on the first gap
  // ends the loop.
  method ReadIPv4(config: Config) returns (addrs: seq<IPNet>)
    ensures addrs == OneOrNone(ParseIPAt(config, "")) + ReadIndexed(config, 0)
  {
    hide ParseIPAt;
    var first := ParseIPAt(config, "");
    addrs := OneOrNone(first);
    ghost var all := addrs + ReadIndexed(config, 0);
    for idx := 0 to 256
      invariant addrs + ReadIndexed(config, idx) == all
    {
      var ipAddr := ParseIPAt(config, Numeral(idx, 10));
      if ipAddr.Some? {
        assert addrs + ([ipAddr.value] + ReadIndexed(config, idx + 1)) == addrs + [ipAddr.value] + ReadIndexed(config, idx + 1);
        addrs := addrs + [ipAddr.value];
      } else if idx >= 2 {
        break;
      }
    }
  }

  method ReadDNS(config: Config) returns (servers: seq<IP>)
    ensures servers == ReadServers(config, 1)
  {
    hide DNSKey, ParseIP;
    servers := [];
    var idx := 1;
    while DNSKey(idx) in config
      invariant idx >= 1 && forall j :: 1 <= j < idx ==> DNSKey(j) in config
      invariant servers + ReadServers(config, idx) == ReadServers(config, 1)
      decreases |config| + 1 - idx
    {
      DNSKeysBounded(config, idx);
      var ip := ParseIP(config[DNSKey(idx)]);
      ghost var rest := ReadServers(config, idx + 1);
      assert servers + ([] + rest) == servers + rest;
      if ip.Some? {
        assert servers + ([ip.value] + rest) == servers + [ip.value] + rest;
        servers := servers + [ip.value];
      }
      idx := idx + 1;
    }
  }

  method ReadIPv6(config: Config) returns (addrs: seq<IPNet>)
    ensures addrs == (if Get(config, "IPV6ADDR") == "" then [] else OneOrNone(ParseCIDR(config["IPV6ADDR"])))
                     + ParseAll(Fields(Get(config, "IPV6ADDR_SECONDARIES")))
  {
    hide ParseCIDR, Fields;
    addrs := [];
    if Get(config, "IPV6ADDR") != "" {
      var addr := ParseCIDR(config["IPV6ADDR"]);
      addrs := OneOrNone(addr);
    }
    ghost var head := addrs;
    var texts := Fields(Get(config, "IPV6ADDR_SECONDARIES"));
    assert texts[0..] == texts;
    for i := 0 to |texts|
      invariant addrs + ParseAll(texts[i..]) == head + ParseAll(texts)
    {
      assert texts[i..][0] == texts[i] && texts[i..][1..] == texts[i + 1..];
      var n := ParseCIDR(texts[i]);
      assert addrs + (OneOrNone(n) + ParseAll(texts[i + 1..])) == addrs + OneOrNone(n) + ParseAll(texts[i + 1..]);
      addrs := addrs + OneOrNone(n);
    }
  }

  // The loop of GetInterfaces over an interface's files.
  method GetInterface(files: seq<Config>) returns (r: Reading)
    ensures r == ReadFiles(NOTHING, files)
  {
    hide ParseIPAt, ReadIndexed, ReadServers, ParseAll, ParseCIDR, ParseIP, Fields, ReadDHCP;
    r := NOTHING;
    assert files[0..] == files;
    for i := 0 to |files|
      invariant ReadFiles(r, files[i..]) == ReadFiles(NOTHING, files)
    {
      var config := files[i];
      assert files[i..][0] == config && files[i..][1..] == files[i + 1..];
      ghost var before := r;
      var dhcp := ReadDHCP(config);
      r := r.(dhcp4 := r.dhcp4 || dhcp.0, dhcp6 := r.dhcp6 || dhcp.1);
      var addrs := ReadIPv4(config);
      if Get(config, "GATEWAY") != "" {
        r := r.(addresses := r.addresses.(gateway4 := ParseIP(config["GATEWAY"])));
      }
      if Get(config, "IPV6_DEFAULTGW") != "" {
        r := r.(addresses := r.addresses.(gateway6 := ParseIP(config["IPV6_DEFAULTGW"])));
      }
      var servers := ReadDNS(config);
      var addrs6 := ReadIPv6(config);
      r := r.(addresses := r.addresses.(addrs := r.addresses.addrs + addrs + addrs6),
              names := Resolving(r.names.servers + servers, r.names.domains + ReadDomains(config)));
      AddressesJoin(config, addrs, addrs6, before.addresses.addrs);
      assert r == ReadFile(before, config);
    }
  }

  lemma AddressesJoin(c: Config, addrs4: seq<IPNet>, addrs6: seq<IPNet>, before: seq<IPNet>)
    requires addrs4 == OneOrNone(ParseIPAt(c, "")) + ReadIndexed(c, 0)
    requires addrs6 == (if Get(c, "IPV6ADDR") == "" then [] else OneOrNone(ParseCIDR(c["IPV6ADDR"])))
                       + ParseAll(Fields(Get(c, "IPV6ADDR_SECONDARIES")))
    ensures before + ReadAddresses(c) == before + addrs4 + addrs6
  {
    hide ParseIPAt, ReadIndexed, ParseAll, ParseCIDR, Fields, OneOrNone;
    var a, b := addrs4, if Get(c, "IPV6ADDR") == "" then [] else OneOrNone(ParseCIDR(c["IPV6ADDR"]));
    assert ReadAddresses(c) == a + addrs6;
  }

  // An interface with one file reads as that file's views.
  lemma OneFile(c: Config)
    ensures ReadFiles(NOTHING, [c]) == Reading(AddressView(c), DNSView(c), ReadDHCP(c).0, ReadDHCP(c).1)
  {
    hide ReadAddresses, ReadServers, ReadDomains, ReadDHCP, ParseIP;
    assert [c][1..] == [];
    assert ReadFiles(ReadFile(NOTHING, c), []) == ReadFile(NOTHING, c);
    assert [] + ReadAddresses(c) == ReadAddresses(c) && [] + ReadServers(c, 1) == ReadServers(c, 1)
        && [] + ReadDomains(c) == ReadDomains(c);
  }

  // -------------------------------------------------------------------------- runs

  function AfterCalls(files: seq<Config>, calls: seq<Call>): seq<Config> {
    if calls == [] then files else [Run(MergeAll(map[], files), calls)]
  }

  lemma CallsStep(files: seq<Config>, calls: seq<Call>, i: nat)
    requires i < |calls|
    ensures AfterCalls(files, calls[..i + 1]) == [Apply(MergeAll(map[], AfterCalls(files, calls[..i])), calls[i])]
  {
    hide MergeAll, Apply, Run;
    var merged, more := MergeAll(map[], files), calls[..i + 1];
    assert more[..|more| - 1] == calls[..i];
    RunSnoc(merged, more);
    if i == 0 { NothingRun(merged); } else { MergeOne(Run(merged, calls[..i])); }
  }

  lemma NothingRun(c: Config)
    ensures Run(c, []) == c
  {}

  // Carrying the calls out: the first one merges the files, and the result is the only
  // file from then on.
  method Perform(ns: NsInterface, calls: seq<Call>)
    modifies ns
    ensures ns.ifFiles == AfterCalls(old(ns.ifFiles), calls)
  {
    hide SetAddresses, SetDNS, SetDHCP, AfterCalls, MergeAll;
    assert calls[..0] == [];
    assert AfterCalls(ns.ifFiles, []) == ns.ifFiles by { NoCalls(ns.ifFiles); }
    for i := 0 to |calls|
      invariant ns.ifFiles == AfterCalls(old(ns.ifFiles), calls[..i])
    {
      CallsStep(old(ns.ifFiles), calls, i);
      match calls[i] {
        case CallAddresses(addrs, gateway4, gateway6) => var fd := ns.SetIfaceAddresses(addrs, gateway4, gateway6);
        case CallDNS(servers, domains) => var fd := ns.SetIfaceDNS(servers, domains);
        case CallDHCP(dhcp4, dhcp6) => var fd := ns.SetIfaceDHCP(dhcp4, dhcp6);
      }
    }
    assert calls[..|calls|] == calls;
  }

  lemma NoCalls(files: seq<Config>)
    ensures AfterCalls(files, []) == files
  {}

  // What GetInterfaces reports after a run of calls on an interface of any files: per
  // aspect the last call of its kind, or else what the merged files say.
  lemma ReadAfterCalls(files: seq<Config>, calls: seq<Call>)
    requires calls != [] && CanonicalCalls(calls)
    ensures var r, merged := ReadFiles(NOTHING, AfterCalls(files, calls)), MergeAll(map[], files);
            && r.addresses == (match LastAddresses(calls) case Some(a) => AddressesOf(a) case None => AddressView(merged))
            && r.names == (match LastDNS(calls) case Some(d) => ServersOf(d) case None => DNSView(merged))
            && (r.dhcp4, r.dhcp6) == (match LastDHCP(calls) case Some(d) => (d.dhcp4, d.dhcp6) case None => ReadDHCP(merged))
  {
    hide MergeAll, Run, AddressView, DNSView, ReadDHCP, AddressesOf, ServersOf, ReadFiles;
    var merged := MergeAll(map[], files);
    LastWriterPerAspect(merged, calls);
    OneFile(Run(merged, calls));
  }

  // ------------------------------------------------------------ two files and one call

  lemma ViewOf(a: Config)
    ensures AddressView(a).addrs == ReadAddresses(a)
  {
    hide ReadAddresses;
  }

  lemma OneCall(files: seq<Config>, call: Call)
    ensures AfterCalls(files, [call]) == [Apply(MergeAll(map[], files), call)]
  {
    hide Apply, Run, MergeAll;
    assert [call][..1] == [call] && [call][..0] == [];
    CallsStep(files, [call], 0);
    NoCalls(files);
  }

  lemma KeepsAddresses(c: Config, call: Call)
    requires !call.CallAddresses?
    ensures AddressView(Apply(c, call)) == AddressView(c)
  {
    hide Apply, AddressKey, AddressView, IsDNSKey;
    OtherKinds(c, call);
    AddressViewFrame(Apply(c, call), c);
  }

  lemma TwoMerged(a: Config, b: Config)
    ensures MergeAll(map[], [a, b]) == Merge(a, b)
  {
    assert [a, b][1..] == [b] && [b][1..] == [];
    assert Merge(map[], a) == a;
    assert MergeAll(Merge(a, b), []) == Merge(a, b);
  }

  lemma TwoRead(a: Config, b: Config)
    ensures ReadFiles(NOTHING, [a, b]).addresses.addrs == ReadAddresses(a) + ReadAddresses(b)
  {
    hide ReadAddresses, ReadServers, ReadDomains, ReadDHCP, ParseIP;
    assert [a, b][1..] == [b] && [b][1..] == [];
    assert ReadFiles(NOTHING, [a, b]) == ReadFiles(ReadFile(NOTHING, a), [b]) == ReadFile(ReadFile(NOTHING, a), b);
    assert [] + ReadAddresses(a) == ReadAddresses(a);
  }

  // ------------------------------------------------------------ runs through the file

  // The last search domains of a run can be written.
  predicate PrintableDomains(calls: seq<Call>) {
    var d := LastDNS(calls);
    d.Some? && d.value.domains != [] ==> WellFormedEntry("DOMAIN", Join(d.value.domains))
  }

  // Everything but the search domains can be written.
  ghost predicate WellFormedOff(c: Config) { forall k :: k in c && k != "DOMAIN" ==> WellFormedEntry(k, c[k]) }

  lemma {:induction false} ServersForm(a: Config, config: Config, i: nat, servers: seq<IP>)
    requires Extends(a, config)
    ensures Extends(a, WithServers(config, i, servers))
    decreases |servers|
  {
    hide WellFormedEntry, DNSKey, IPText;
    if servers != [] {
      ServerForm(i, servers[0]);
      ExtendsPut(a, config, DNSKey(i), IPText(servers[0]));
      ServersForm(a, config[DNSKey(i) := IPText(servers[0])], i + 1, servers[1..]);
    }
  }

  lemma ServerForm(i: nat, ip: IP)
    ensures WellFormedEntry(DNSKey(i), IPText(ip))
  {
    assert PlainText("DNS") && "DNS" != "" && "DNS"[0] != '#';
    IndexedIsPlain("DNS", i);
    IPTextRoundTrip(ip);
    NetTextIsPlain(IPText(ip));
    hide IPText, NetText;
  }

  lemma LiteralForm()
    ensures WellFormedEntry("PEERDNS", "no") && WellFormedEntry("BOOTPROTO", "dhcp") && WellFormedEntry("BOOTPROTO", "none")
    ensures WellFormedEntry("IPV6INIT", "yes") && WellFormedEntry("DHCPV6C", "yes") && WellFormedKey("DOMAIN")
  {}

  lemma ExtendsOff(a: Config, b: Config)
    requires WellFormedOff(a) && Extends(a, b)
    ensures WellFormedOff(b)
  {
    hide WellFormedEntry;
  }

  lemma CallForm(c: Config, call: Call)
    requires WellFormedOff(c)
    ensures WellFormedOff(Apply(c, call))
  {
    LiteralForm();
    hide WellFormedEntry, IPText;
    match call
    case CallAddresses(addrs, g4, g6) =>
      SetAddressesForm(c, addrs, g4, g6);
      hide SetAddresses;
      ExtendsOff(c, Apply(c, call));
    case CallDNS(servers, domains) =>
      ServersForm(c, WithoutDNS(c), 1, NonNil(servers));
      ExtendsOff(c, WithServers(WithoutDNS(c), 1, NonNil(servers)));
      hide WithServers, NonNil, WithoutDNS, Join;
    case CallDHCP(_, _) =>
  }

  // The search domains in the map are those of the last SetIfaceDNS.
  lemma {:induction false} DomainAfterRun(config: Config, calls: seq<Call>)
    ensures var c := Run(config, calls);
            match LastDNS(calls)
            case None => Same(c, config, "DOMAIN")
            case Some(d) =>
              ("DOMAIN" in c <==> d.domains != []) && ("DOMAIN" in c ==> c["DOMAIN"] == Join(d.domains))
    decreases |calls|
  {
    hide Run, Join, Apply;
    if calls == [] {
      NothingRun(config);
    } else {
      var front, last := calls[..|calls| - 1], calls[|calls| - 1];
      RunSnoc(config, calls);
      DomainAfterRun(config, front);
      var c := Run(config, front);
      if last.CallDNS? { DomainAfterSet(c, last); } else { OtherKeepsDomain(c, last); }
    }
  }

  lemma OtherKeepsDomain(c: Config, call: Call)
    requires !call.CallDNS?
    ensures Same(Apply(c, call), c, "DOMAIN")
  {
    hide Apply, AddressKey;
    OtherKinds(c, call);
    assert IsDNSKey("DOMAIN");
    hide IsDNSKey;
  }

  lemma DomainAfterSet(c: Config, call: Call)
    requires call.CallDNS?
    ensures var after := Apply(c, call);
            ("DOMAIN" in after <==> call.domains != []) && ("DOMAIN" in after ==> after["DOMAIN"] == Join(call.domains))
  {
    WithServersAt(WithoutDNS(c), 1, NonNil(call.servers), "DOMAIN");
    assert "DOMAIN"[1] == 'O' && "DNS"[1] == 'N' && "PEERDNS" != "DOMAIN";
    assert !HasPrefix("DOMAIN", "DNS") by { assert "DOMAIN"[..3][1] == 'O'; }
    assert "DOMAIN" !in WithoutDNS(c);
    hide WithServers, NonNil, Join, DNSKey, WithoutDNS;
  }

  lemma {:induction false} RunForm(config: Config, calls: seq<Call>)
    requires WellFormedOff(config)
    ensures WellFormedOff(Run(config, calls))
    decreases |calls|
  {
    hide Run, Apply, WellFormedOff;
    if calls == [] {
      NothingRun(config);
    } else {
      RunSnoc(config, calls);
      RunForm(config, calls[..|calls| - 1]);
      CallForm(Run(config, calls[..|calls| - 1]), calls[|calls| - 1]);
    }
  }

  // What Save prints after a run on a map that can be written parses back to the same
  // map if and only if the last search domains can be written.
  lemma RunSurvivesTheFileIff(config: Config, calls: seq<Call>, keys: seq<string>)
    requires WellFormedMap(config) && KeyList(Run(config, calls), keys)
    ensures ParseLines(PrintedLines(Run(config, calls), keys)) == Some(Run(config, calls)) <==> PrintableDomains(calls)
  {
    var c := Run(config, calls);
    RunForm(config, calls);
    DomainAfterRun(config, calls);
    RoundTripIff(c, keys);
    hide Run, Join, WellFormedEntry, ParseLines, PrintedLines, KeyList;
    assert WellFormedMap(c) <==> ("DOMAIN" in c ==> WellFormedEntry("DOMAIN", c["DOMAIN"]));
  }

  // A run whose search domains are not read back from the file it writes.
  lemma QuotedDomainIsLost(keys: seq<string>)
    requires KeyList(Run(map[], [CallDNS([], ["a\"", "b"])]), keys)
    ensures var c := Run(map[], [CallDNS([], ["a\"", "b"])]);
            "DOMAIN" in c && ParseLines(PrintedLines(c, keys)) != Some(c)
  {
    var domains := ["a\"", "b"];
    var calls := [CallDNS([], domains)];
    QuotedJoin(domains);
    assert LastDNS(calls) == Some(calls[0]);
    DomainAfterRun(map[], calls);
    RunSurvivesTheFileIff(map[], calls, keys);
    hide Run, ParseLines, PrintedLines, WellFormedEntry, Join, KeyList;
  }

  lemma QuotedJoin(domains: seq<string>)
    requires domains == ["a\"", "b"]
    ensures !WellFormedEntry("DOMAIN", Join(domains))
  {
    assert domains[1..] == ["b"] && Join(["b"]) == "b";
    var v := Join(domains);
    assert v == "a\"" + [' '] + "b";
    assert v[1] == '"' && v[2] == ' ';
  }
}
