// networkScripts.go: what the first call on an interface with two ifcfg files does to the
// aspects it is not about, since it merges the files key by key.
module NetworkScriptsMerged {
  import opened Text
  import opened Net
  import opened NetworkScripts
  import opened NetworkScriptsRuns
  import opened NetworkScriptsFiles

  // ------------------------------------------------------------- the texts of one slot

  function Addr(c: Config, idx: string): string { Get(c, "IPADDR" + idx) }

  function Width(c: Config, idx: string): string {
    if Get(c, "PREFIX" + idx) == "" then MaskPrefix(Get(c, "NETMASK" + idx)) else Get(c, "PREFIX" + idx)
  }

  function First(x: string, y: string): string { if x != "" then x else y }

  function MergedAddr(a: Config, b: Config, idx: string): string { First(Addr(a, idx), Addr(b, idx)) }

  // A prefix of either file comes before a netmask of either.
  function MergedWidth(a: Config, b: Config, idx: string): string {
    var prefix := First(Get(a, "PREFIX" + idx), Get(b, "PREFIX" + idx));
    if prefix == "" then MaskPrefix(First(Get(a, "NETMASK" + idx), Get(b, "NETMASK" + idx))) else prefix
  }

  function HostOf(addr: string): Option<IP> { if '/' in addr then None else ParseIP(addr) }

  function NetworkFrom(addr: string, width: string): Option<IPNet> {
    if addr == "" then None else ParseCIDR(addr + "/" + width)
  }

  lemma SlotTexts(c: Config, idx: string)
    ensures ParseIPAt(c, idx) == NetworkFrom(Addr(c, idx), Width(c, idx))
  {
    hide ParseCIDR, MaskPrefix;
  }

  lemma MergedGet(a: Config, b: Config, k: string)
    ensures Get(Merge(a, b), k) == First(Get(a, k), Get(b, k))
  {}

  lemma MergedTexts(a: Config, b: Config, idx: string)
    ensures ParseIPAt(Merge(a, b), idx) == NetworkFrom(MergedAddr(a, b, idx), MergedWidth(a, b, idx))
  {
    MergedGet(a, b, "IPADDR" + idx);
    MergedGet(a, b, "PREFIX" + idx);
    MergedGet(a, b, "NETMASK" + idx);
    hide ParseCIDR, MaskPrefix, Merge, Get;
  }

  lemma {:induction false} SlashIsNoNumeral(s: string)
    requires '/' in s
    ensures ParseNumeral(s, 10) == None
  {
    if s[|s| - 1] != '/' { SlashIsNoNumeral(s[..|s| - 1]); }
  }

  // What an address and a width make: a network if both parse and the width fits.
  function Joined(host: Option<IP>, width: Option<nat>): Option<IPNet> {
    if host.Some? && width.Some? && width.value <= 8 * |host.value| then
      Some(IPNetwork.IPNet(host.value, CIDRMask(width.value, |host.value|)))
    else None
  }

  lemma NetworkIsJoined(addr: string, width: string)
    ensures NetworkFrom(addr, width) == Joined(HostOf(addr), ParseNumeral(width, 10))
  {
    var s := addr + "/" + width;
    var head := Before(s, '/');
    assert s[|addr|] == '/';
    assert |head| <= |addr|;
    if addr == "" {
      assert |Split("", ':')| == 1;
      assert ParseIP("") == None;
    } else if '/' in addr {
      var i :| 0 <= i < |addr| && addr[i] == '/';
      assert s[i] == '/' && |head| <= i;
      var rest := s[|head| + 1..];
      assert rest[|addr| - |head| - 1] == '/';
      SlashIsNoNumeral(rest);
      hide ParseIP, CIDRMask, ParseNumeral;
    } else {
      assert head == addr;
      assert s[|head| + 1..] == width;
      hide ParseIP, CIDRMask, ParseNumeral;
    }
  }

  // Two networks are the same if and only if the addresses and the widths are.
  lemma SameNetworkIff(addr: string, width: string, other: string, otherWidth: string)
    requires NetworkFrom(addr, width).Some?
    ensures NetworkFrom(other, otherWidth) == NetworkFrom(addr, width) <==>
              HostOf(other) == HostOf(addr) && ParseNumeral(otherWidth, 10) == ParseNumeral(width, 10)
  {
    NetworkIsJoined(addr, width);
    NetworkIsJoined(other, otherWidth);
    hide NetworkFrom, HostOf, ParseNumeral, CIDRMask;
    var host, p := HostOf(addr).value, ParseNumeral(width, 10).value;
    var q := ParseNumeral(otherWidth, 10);
    if NetworkFrom(other, otherWidth) == NetworkFrom(addr, width) {
      MaskSizeOfCIDRMask(p, |host|);
      MaskSizeOfCIDRMask(q.value, |host|);
    }
  }

  // --------------------------------------------------------------- the slots in a row

  function Listing<T>(x: Option<T>): seq<T> { match x case None => [] case Some(v) => [v] }

  // The indexed loop gets to the slot: from index 2 on every one before it is read.
  predicate Reached(c: Config, i: nat) { forall j: nat | 2 <= j < i :: ParseIPAt(c, Numeral(j, 10)).Some? }

  function ReadAt(c: Config, i: nat): Option<IPNet> { if Reached(c, i) then ParseIPAt(c, Numeral(i, 10)) else None }

  function Gather(c: Config, i: nat): seq<IPNet>
    requires i <= 256
    decreases 256 - i
  {
    if i == 256 then [] else Listing(ReadAt(c, i)) + Gather(c, i + 1)
  }

  lemma {:induction false} GatherIsRead(c: Config, i: nat)
    requires i <= 256
    ensures Gather(c, i) == if Reached(c, i) then ReadIndexed(c, i) else []
    decreases 256 - i
  {
    hide ParseIPAt, Reached;
    if i < 256 {
      GatherIsRead(c, i + 1);
      ReachedNext(c, i);
      assert [] + Gather(c, i + 1) == Gather(c, i + 1);
    }
  }

  lemma ReachedNext(c: Config, i: nat)
    ensures Reached(c, i + 1) <==> Reached(c, i) && (i < 2 || ParseIPAt(c, Numeral(i, 10)).Some?)
  {
    hide ParseIPAt;
  }

  function Main6(c: Config): Option<IPNet> {
    if Get(c, "IPV6ADDR") == "" then None else ParseCIDR(c["IPV6ADDR"])
  }

  function Others6(c: Config): seq<IPNet> { ParseAll(Fields(Get(c, "IPV6ADDR_SECONDARIES"))) }

  lemma AddressesGathered(c: Config)
    ensures ReadAddresses(c) == Listing(ParseIPAt(c, "")) + Gather(c, 0) + Listing(Main6(c)) + Others6(c)
  {
    GatherIsRead(c, 0);
    hide ParseIPAt, ReadIndexed, ParseAll, ParseCIDR, Fields, Gather;
  }

  // ----------------------------------------------------- what it is to keep an address

  // One slot reads as it did in the only file where it did.
  predicate KeptOne<T(==)>(x: Option<T>, y: Option<T>, merged: Option<T>) {
    (x.None? || y.None?) && merged == if x.Some? then x else y
  }

  predicate KeptAt(a: Config, b: Config, i: nat) { KeptOne(ReadAt(a, i), ReadAt(b, i), ReadAt(Merge(a, b), i)) }

  // Every address that either file was read for is read from its own slot of the merged
  // file, and no other.
  ghost predicate AddressesKept(a: Config, b: Config) {
    var m := Merge(a, b);
    && KeptOne(ParseIPAt(a, ""), ParseIPAt(b, ""), ParseIPAt(m, ""))
    && (forall i: nat | i < 256 :: KeptAt(a, b, i))
    && KeptOne(Main6(a), Main6(b), Main6(m)) && Others6(m) == Others6(a) + Others6(b)
  }

  // A slot of which at most one file is read: the merged texts must give its address the
  // same width, or where neither is read make no address.
  predicate Undisturbed(a: Config, b: Config, idx: string, x: Option<IPNet>, y: Option<IPNet>) {
    && (x.None? || y.None?)
    && var width := ParseNumeral(MergedWidth(a, b, idx), 10);
       if x.Some? then width == ParseNumeral(Width(a, idx), 10)
       else if y.Some? then HostOf(MergedAddr(a, b, idx)) == HostOf(Addr(b, idx)) && width == ParseNumeral(Width(b, idx), 10)
       else NetworkFrom(MergedAddr(a, b, idx), MergedWidth(a, b, idx)).None?
  }

  // Only the slots that the loop gets to in one of the files matter.
  predicate UndisturbedAt(a: Config, b: Config, i: nat) {
    Reached(a, i) || Reached(b, i) ==> Undisturbed(a, b, Numeral(i, 10), ReadAt(a, i), ReadAt(b, i))
  }

  // What must hold of two files for their addresses to survive a merge.
  ghost predicate NoClash(a: Config, b: Config) {
    && Undisturbed(a, b, "", ParseIPAt(a, ""), ParseIPAt(b, ""))
    && (forall i: nat | i < 256 :: UndisturbedAt(a, b, i))
    && (Get(a, "IPV6ADDR") == "" || Main6(b).None?)
    && (Get(a, "IPV6ADDR_SECONDARIES") == "" || Others6(b) == [])
  }

  lemma SlotKeptIff(a: Config, b: Config, idx: string, x: Option<IPNet>, y: Option<IPNet>)
    requires x.Some? ==> x == ParseIPAt(a, idx)
    requires y.Some? ==> y == ParseIPAt(b, idx)
    ensures KeptOne(x, y, ParseIPAt(Merge(a, b), idx)) <==> Undisturbed(a, b, idx, x, y)
  {
    SlotTexts(a, idx);
    SlotTexts(b, idx);
    MergedTexts(a, b, idx);
    if x.Some? {
      SameNetworkIff(Addr(a, idx), Width(a, idx), MergedAddr(a, b, idx), MergedWidth(a, b, idx));
    } else if y.Some? {
      SameNetworkIff(Addr(b, idx), Width(b, idx), MergedAddr(a, b, idx), MergedWidth(a, b, idx));
    }
    hide ParseIPAt, Merge, Addr, Width, HostOf, ParseNumeral, MergedWidth, ParseCIDR;
  }

  // The loop gets as far in the merged file as in either, as long as the slots before
  // are kept.
  lemma {:induction false} ReachedMerged(a: Config, b: Config, i: nat)
    requires forall j: nat | j < i && (Reached(a, j) || Reached(b, j)) ::
               Reached(Merge(a, b), j) ==> KeptAt(a, b, j)
    ensures Reached(Merge(a, b), i) <==> Reached(a, i) || Reached(b, i)
  {
    hide ParseIPAt, Merge;
    if i > 2 {
      var m, j := Merge(a, b), i - 1;
      ReachedMerged(a, b, j);
      ReachedStep(a, j);
      ReachedStep(b, j);
      ReachedStep(m, j);
    }
  }

  lemma ReachedStep(c: Config, j: nat)
    requires j >= 2
    ensures Reached(c, j + 1) <==> ReadAt(c, j).Some?
  {
    hide ParseIPAt;
  }

  lemma KeptAtIff(a: Config, b: Config, i: nat)
    ensures Reached(Merge(a, b), i) && (Reached(a, i) || Reached(b, i)) ==> (KeptAt(a, b, i) <==> UndisturbedAt(a, b, i))
    ensures !Reached(Merge(a, b), i) && !Reached(a, i) && !Reached(b, i) ==> KeptAt(a, b, i)
  {
    SlotKeptIff(a, b, Numeral(i, 10), ReadAt(a, i), ReadAt(b, i));
    hide Merge, ParseIPAt, Undisturbed, Reached, Numeral;
  }

  lemma IndexedKeptIff(a: Config, b: Config, n: nat)
    ensures (forall i: nat | i < n :: KeptAt(a, b, i)) <==> forall i: nat | i < n :: UndisturbedAt(a, b, i)
  {
    hide Merge, Reached, KeptAt, UndisturbedAt;
    if (forall i: nat | i < n :: KeptAt(a, b, i)) || (forall i: nat | i < n :: UndisturbedAt(a, b, i)) {
      forall i: nat | i < n ensures KeptAt(a, b, i) <==> UndisturbedAt(a, b, i) {
        forall j: nat | j <= i && (Reached(a, j) || Reached(b, j)) && Reached(Merge(a, b), j) ensures KeptAt(a, b, j) {
          KeptAtIff(a, b, j);
        }
        ReachedMerged(a, b, i);
        KeptAtIff(a, b, i);
        if !Reached(a, i) && !Reached(b, i) { NotReached(a, b, i); }
      }
    }
  }

  lemma NotReached(a: Config, b: Config, i: nat)
    requires !Reached(a, i) && !Reached(b, i)
    ensures UndisturbedAt(a, b, i)
  {
    hide Reached, Undisturbed;
  }

  // The exact condition, for any two files: a merge keeps every address where it was if
  // and only if nothing clashes.
  lemma AddressesKeptIff(a: Config, b: Config)
    ensures AddressesKept(a, b) <==> NoClash(a, b)
  {
    SlotKeptIff(a, b, "", ParseIPAt(a, ""), ParseIPAt(b, ""));
    V6KeptIff(a, b);
    IndexedKeptIff(a, b, 256);
    hide Merge, ParseIPAt, Undisturbed, Main6, Others6, Get, KeptAt, UndisturbedAt, KeptOne;
  }

  lemma V6KeptIff(a: Config, b: Config)
    ensures KeptOne(Main6(a), Main6(b), Main6(Merge(a, b))) <==> Get(a, "IPV6ADDR") == "" || Main6(b).None?
    ensures Others6(Merge(a, b)) == Others6(a) + Others6(b) <==>
              Get(a, "IPV6ADDR_SECONDARIES") == "" || Others6(b) == []
  {
    MergedGet(a, b, "IPV6ADDR");
    MergedGet(a, b, "IPV6ADDR_SECONDARIES");
    assert Fields("") == [];
    hide ParseCIDR, Fields, Merge;
    var x, y := Others6(a), Others6(b);
    assert [] + y == y && |x + y| == |x| + |y|;
    assert y == [] ==> x + y == x;
  }

  // ------------------------------------------------------------------ what is reported

  lemma {:induction false} GatheredKept(a: Config, b: Config, i: nat)
    requires i <= 256 && forall j: nat | i <= j < 256 :: KeptAt(a, b, j)
    ensures multiset(Gather(Merge(a, b), i)) == multiset(Gather(a, i)) + multiset(Gather(b, i))
    decreases 256 - i
  {
    hide ReadAt, Merge;
    if i < 256 {
      var m := Merge(a, b);
      GatheredKept(a, b, i + 1);
      assert KeptAt(a, b, i);
      OneMoreKept(ReadAt(a, i), ReadAt(b, i), ReadAt(m, i), Gather(a, i + 1), Gather(b, i + 1), Gather(m, i + 1));
    }
  }

  lemma OneMoreKept<T>(x: Option<T>, y: Option<T>, merged: Option<T>, a: seq<T>, b: seq<T>, m: seq<T>)
    requires KeptOne(x, y, merged) && multiset(m) == multiset(a) + multiset(b)
    ensures multiset(Listing(merged) + m) == multiset(Listing(x) + a) + multiset(Listing(y) + b)
  {}

  // Two files that do not clash lose nothing: every address reported before is reported
  // after any call that is not about addresses, and no other.
  lemma KeptIsReported(a: Config, b: Config, call: Call)
    requires NoClash(a, b) && !call.CallAddresses?
    ensures multiset(ReadFiles(NOTHING, AfterCalls([a, b], [call])).addresses.addrs) ==
            multiset(ReadFiles(NOTHING, [a, b]).addresses.addrs)
  {
    ReadAround(a, b, call);
    ReadKept(a, b);
    hide *;
  }

  lemma ReadKept(a: Config, b: Config)
    requires NoClash(a, b)
    ensures multiset(ReadAddresses(Merge(a, b))) == multiset(ReadAddresses(a) + ReadAddresses(b))
  {
    var m := Merge(a, b);
    AddressesKeptIff(a, b);
    GatheredKept(a, b, 0);
    AddressesGathered(a);
    AddressesGathered(b);
    AddressesGathered(m);
    hide Merge, ReadAddresses, ParseIPAt, Main6, Others6, Gather, ReadAt, NoClash, KeptOne;
    PartsKept(ParseIPAt(a, ""), ParseIPAt(b, ""), ParseIPAt(m, ""), Gather(a, 0), Gather(b, 0), Gather(m, 0),
              Main6(a), Main6(b), Main6(m), Others6(a), Others6(b), Others6(m));
  }

  lemma PartsKept(x: Option<IPNet>, y: Option<IPNet>, z: Option<IPNet>, a: seq<IPNet>, b: seq<IPNet>, m: seq<IPNet>,
                  x6: Option<IPNet>, y6: Option<IPNet>, z6: Option<IPNet>, a6: seq<IPNet>, b6: seq<IPNet>, m6: seq<IPNet>)
    requires KeptOne(x, y, z) && multiset(m) == multiset(a) + multiset(b) && KeptOne(x6, y6, z6) && m6 == a6 + b6
    ensures multiset(Listing(z) + m + Listing(z6) + m6) ==
            multiset((Listing(x) + a + Listing(x6) + a6) + (Listing(y) + b + Listing(y6) + b6))
  {
    OneMoreKept(x, y, z, a, b, m);
    OneMoreKept(x6, y6, z6, a6, b6, m6);
    FourJoined(Listing(z), m, Listing(z6), m6);
    FourJoined(Listing(x), a, Listing(x6), a6);
    FourJoined(Listing(y), b, Listing(y6), b6);
    hide Listing, KeptOne;
  }

  lemma FourJoined(p: seq<IPNet>, q: seq<IPNet>, r: seq<IPNet>, t: seq<IPNet>)
    ensures multiset(p + q + r + t) == multiset(p + q) + multiset(r + t)
  {
    assert p + q + r + t == (p + q) + (r + t);
  }

  // What is reported of two files before and after such a call.
  lemma ReadAround(a: Config, b: Config, call: Call)
    requires !call.CallAddresses?
    ensures ReadFiles(NOTHING, [a, b]).addresses.addrs == ReadAddresses(a) + ReadAddresses(b)
    ensures ReadFiles(NOTHING, AfterCalls([a, b], [call])).addresses == AddressView(Merge(a, b))
    ensures ReadFiles(NOTHING, AfterCalls([a, b], [call])).addresses.addrs == ReadAddresses(Merge(a, b))
  {
    hide *;
    TwoMerged(a, b);
    TwoRead(a, b);
    OneCall([a, b], call);
    KeepsAddresses(Merge(a, b), call);
    OneFile(Apply(Merge(a, b), call));
    ViewOf(Merge(a, b));
  }

  // ---------------------------------------------------------------- two losses to see

  // Files with nothing but the address without an index.
  lemma OnlyPlain(c: Config)
    requires c.Keys <= {"IPADDR", "PREFIX", "NETMASK"}
    ensures ReadAddresses(c) == Listing(ParseIPAt(c, ""))
  {
    hide *;
    AddressesGathered(c);
    NoneIndexed(c);
    NoneGathered(c, 0);
    No6(c);
    assert Listing<IPNet>(None) == [] by { NothingListed(); }
    assert Listing(ParseIPAt(c, "")) + [] + [] + [] == Listing(ParseIPAt(c, ""));
  }

  lemma NothingListed()
    ensures Listing<IPNet>(None) == []
  {}

  lemma No6(c: Config)
    requires c.Keys <= {"IPADDR", "PREFIX", "NETMASK"}
    ensures Main6(c) == None && Others6(c) == []
  {
    assert "IPV6ADDR" !in c && "IPV6ADDR_SECONDARIES" !in c;
    assert Fields("") == [];
    hide ParseCIDR, Fields;
  }

  lemma NoneIndexed(c: Config)
    requires c.Keys <= {"IPADDR", "PREFIX", "NETMASK"}
    ensures forall i: nat :: Addr(c, Numeral(i, 10)) == ""
  {
    assert "PREFIX"[0] == 'P' && "NETMASK"[0] == 'N' && |"IPADDR"| == 6;
    forall i: nat ensures "IPADDR" + Numeral(i, 10) !in c {
      var k := "IPADDR" + Numeral(i, 10);
      assert |k| > 6 && k[0] == 'I';
      hide Numeral;
    }
    hide Numeral;
  }

  lemma {:induction false} NoneGathered(c: Config, i: nat)
    requires i <= 256 && forall j: nat :: Addr(c, Numeral(j, 10)) == ""
    ensures Gather(c, i) == []
    decreases 256 - i
  {
    hide ParseIPAt, Addr, Width, ParseCIDR;
    if i < 256 {
      NoneGathered(c, i + 1);
      SlotTexts(c, Numeral(i, 10));
    }
  }

  function WithNetmask(ip: IP, p: nat): Config
    requires p <= 32
  {
    map["IPADDR" := IPText(ip), "NETMASK" := IPText(CIDRMask(p, 4))]
  }

  function NetworkOf(ip: IP, p: nat): IPNet
    requires Is4(ip) && p <= 32
  {
    IPNetwork.IPNet(ip, CIDRMask(p, 4))
  }

  lemma TextsRead(ip: IP, p: nat)
    requires Is4(ip) && p <= 32
    ensures NetworkFrom(IPText(ip), Numeral(p, 10)) == Some(NetworkOf(ip, p)) && IPText(ip) != ""
    ensures MaskPrefix(IPText(CIDRMask(p, 4))) == Numeral(p, 10) && IPText(CIDRMask(p, 4)) != ""
    ensures Numeral(p, 10) != ""
  {
    IPTextRoundTrip(ip);
    IPTextRoundTrip(CIDRMask(p, 4));
    NumeralRoundTrip(p, 10);
    MaskSizeOfCIDRMask(p, 4);
    NetworkIsJoined(IPText(ip), Numeral(p, 10));
    hide IPText, ParseIP, CIDRMask, ParseNumeral, Numeral, MaskSize, NetworkFrom;
  }

  // The four texts of a netmask in one file and perhaps a prefix in another.
  lemma PlainSlots(a: Config, b: Config, ip: IP, p: nat, q: nat)
    requires Is4(ip) && p <= 32 && q <= 32 && a == WithNetmask(ip, p)
    requires Get(b, "PREFIX") == Numeral(q, 10) && Get(b, "NETMASK") == ""
    ensures ParseIPAt(a, "") == Some(NetworkOf(ip, p)) && ParseIPAt(Merge(a, b), "") == Some(NetworkOf(ip, q))
    ensures forall other: IP | Is4(other) && Get(b, "IPADDR") == IPText(other) :: ParseIPAt(b, "") == Some(NetworkOf(other, q))
    ensures Get(b, "IPADDR") == "" ==> ParseIPAt(b, "") == None
  {
    hide *;
    TextsRead(ip, p);
    TextsRead(ip, q);
    forall other: IP | Is4(other) ensures NetworkFrom(IPText(other), Numeral(q, 10)) == Some(NetworkOf(other, q)) {
      TextsRead(other, q);
    }
    PlainKeys(a, ip, p);
    PlainTexts(a, b);
    SlotTexts(a, "");
    SlotTexts(b, "");
    MergedTexts(a, b, "");
    assert NetworkFrom("", Width(b, "")) == None by { NoText(Width(b, "")); }
  }

  lemma NoText(width: string)
    ensures NetworkFrom("", width) == None
  {}

  lemma PlainTexts(a: Config, b: Config)
    ensures Addr(a, "") == Get(a, "IPADDR") && Addr(b, "") == Get(b, "IPADDR")
    ensures Get(a, "IPADDR") != "" ==> MergedAddr(a, b, "") == Get(a, "IPADDR")
    ensures Get(a, "PREFIX") == "" ==> Width(a, "") == MaskPrefix(Get(a, "NETMASK"))
    ensures Get(b, "PREFIX") != "" ==> Width(b, "") == Get(b, "PREFIX")
    ensures Get(a, "PREFIX") == "" && Get(b, "PREFIX") != "" ==> MergedWidth(a, b, "") == Get(b, "PREFIX")
  {
    assert "IPADDR" + "" == "IPADDR" && "PREFIX" + "" == "PREFIX" && "NETMASK" + "" == "NETMASK";
    hide MaskPrefix, Get;
  }

  lemma PlainKeys(a: Config, ip: IP, p: nat)
    requires p <= 32 && a == WithNetmask(ip, p)
    ensures Get(a, "IPADDR") == IPText(ip) && Get(a, "NETMASK") == IPText(CIDRMask(p, 4)) && Get(a, "PREFIX") == ""
    ensures a.Keys <= {"IPADDR", "PREFIX", "NETMASK"}
  {
    hide IPText, CIDRMask;
    assert "NETMASK"[0] == 'N' && "PREFIX"[0] == 'P';
  }

  // One file writes its mask as a netmask and an alias file its own as a prefix: the
  // second address goes, and the first changes its mask.
  lemma AliasFileIsLost(ip: IP, p: nat, other: IP, q: nat, call: Call)
    requires Is4(ip) && p <= 32 && Is4(other) && q <= 32 && !call.CallAddresses?
    ensures var files := [WithNetmask(ip, p), map["IPADDR" := IPText(other), "PREFIX" := Numeral(q, 10)]];
            && ReadFiles(NOTHING, files).addresses.addrs == [NetworkOf(ip, p), NetworkOf(other, q)]
            && ReadFiles(NOTHING, AfterCalls(files, [call])).addresses.addrs == [NetworkOf(ip, q)]
  {
    var a, b := WithNetmask(ip, p), map["IPADDR" := IPText(other), "PREFIX" := Numeral(q, 10)];
    hide *;
    PlainKeys(a, ip, p);
    AliasKeys(IPText(other), Numeral(q, 10));
    PlainSlots(a, b, ip, p, q);
    TwoPlainFiles(a, b, call);
    TwoListed(NetworkOf(ip, p), NetworkOf(other, q));
    TwoListed(NetworkOf(ip, q), NetworkOf(ip, q));
  }

  lemma TwoListed(n: IPNet, m: IPNet)
    ensures Listing(Some(n)) == [n] && Listing(Some(n)) + Listing(Some(m)) == [n, m]
  {}

  lemma TwoPlainFiles(a: Config, b: Config, call: Call)
    requires a.Keys + b.Keys <= {"IPADDR", "PREFIX", "NETMASK"} && !call.CallAddresses?
    ensures ReadFiles(NOTHING, [a, b]).addresses.addrs == Listing(ParseIPAt(a, "")) + Listing(ParseIPAt(b, ""))
    ensures ReadFiles(NOTHING, AfterCalls([a, b], [call])).addresses.addrs == Listing(ParseIPAt(Merge(a, b), ""))
  {
    hide *;
    OnlyPlain(a);
    OnlyPlain(b);
    MergedKeys(a, b);
    OnlyPlain(Merge(a, b));
    ReadAround(a, b, call);
  }

  lemma MergedKeys(a: Config, b: Config)
    ensures Merge(a, b).Keys == a.Keys + b.Keys
  {}

  lemma AliasKeys(addr: string, prefix: string)
    ensures var b := map["IPADDR" := addr, "PREFIX" := prefix];
            && Get(b, "IPADDR") == addr && Get(b, "PREFIX") == prefix && Get(b, "NETMASK") == ""
            && b.Keys <= {"IPADDR", "PREFIX", "NETMASK"}
  {
    assert "PREFIX"[0] == 'P' && "NETMASK"[0] == 'N' && "IPADDR"[0] == 'I';
  }

  // A prefix that the second file holds without an address widens the first's.
  lemma PrefixCrossesOver(ip: IP, p: nat, q: nat, call: Call)
    requires Is4(ip) && p <= 32 && q <= 32 && !call.CallAddresses?
    ensures var files := [WithNetmask(ip, p), map["PREFIX" := Numeral(q, 10)]];
            && ReadFiles(NOTHING, files).addresses.addrs == [NetworkOf(ip, p)]
            && ReadFiles(NOTHING, AfterCalls(files, [call])).addresses.addrs == [NetworkOf(ip, q)]
  {
    var a, b := WithNetmask(ip, p), map["PREFIX" := Numeral(q, 10)];
    hide *;
    PlainKeys(a, ip, p);
    PrefixKeys(Numeral(q, 10));
    PlainSlots(a, b, ip, p, q);
    TwoPlainFiles(a, b, call);
    TwoListed(NetworkOf(ip, p), NetworkOf(ip, p));
    TwoListed(NetworkOf(ip, q), NetworkOf(ip, q));
    NothingListed();
    assert [NetworkOf(ip, p)] + [] == [NetworkOf(ip, p)];
  }

  lemma PrefixKeys(prefix: string)
    ensures var b := map["PREFIX" := prefix];
            && Get(b, "IPADDR") == "" && Get(b, "PREFIX") == prefix && Get(b, "NETMASK") == ""
            && b.Keys <= {"IPADDR", "PREFIX", "NETMASK"}
  {
    assert "PREFIX"[0] == 'P' && "NETMASK"[0] == 'N' && "IPADDR"[0] == 'I';
  }

  // ---------------------------------------------------------------- the other aspects

  // The first gateway, search list or client setting of two wins, where the reader took
  // the last, both, or either. Each condition is exact.
  lemma OtherAspectsKeptIff(a: Config, b: Config, call: Call)
    ensures var before, after := ReadFiles(NOTHING, [a, b]), ReadFiles(NOTHING, AfterCalls([a, b], [call]));
            && (!call.CallAddresses? ==>
                  && (after.addresses.gateway4 == before.addresses.gateway4 <==> SameGateway(a, b, "GATEWAY"))
                  && (after.addresses.gateway6 == before.addresses.gateway6 <==> SameGateway(a, b, "IPV6_DEFAULTGW")))
            && (!call.CallDNS? ==>
                  (after.names.domains == before.names.domains <==> Get(a, "DOMAIN") == "" || ReadDomains(b) == []))
            && (!call.CallDHCP? ==>
                  && (after.dhcp4 == before.dhcp4 <==> Get(a, "BOOTPROTO") == "" || ReadDHCP(a).0 || !ReadDHCP(b).0)
                  && (after.dhcp6 == before.dhcp6 <==> Get(a, "DHCPV6C") == "" || ReadDHCP(a).1 || !ReadDHCP(b).1))
  {
    hide Merge, ReadFiles, AfterCalls, ReadAddresses, ReadServers, ReadDomains, ReadDHCP, ReadGateway, SameGateway, Get, ParseIP;
    AroundCall(a, b, call);
    GatewayKeptIff(a, b, "GATEWAY");
    GatewayKeptIff(a, b, "IPV6_DEFAULTGW");
    DomainsKeptIff(a, b);
    ClientsKeptIff(a, b);
  }

  lemma GatewayKeptIff(a: Config, b: Config, key: string)
    ensures ReadGateway(Merge(a, b), key) == (if Get(b, key) == "" then ReadGateway(a, key) else ParseIP(b[key])) <==>
              SameGateway(a, b, key)
  {
    MergedGet(a, b, key);
    hide ParseIP, Merge;
  }

  lemma DomainsKeptIff(a: Config, b: Config)
    ensures ReadDomains(Merge(a, b)) == ReadDomains(a) + ReadDomains(b) <==> Get(a, "DOMAIN") == "" || ReadDomains(b) == []
  {
    MergedGet(a, b, "DOMAIN");
    assert Fields("") == [];
    hide Fields, Merge, Get;
    var x, y := ReadDomains(a), ReadDomains(b);
    assert |x + y| == |x| + |y| && [] + y == y && (y == [] ==> x + y == x);
  }

  lemma ClientsKeptIff(a: Config, b: Config)
    ensures var x, y, m := ReadDHCP(a), ReadDHCP(b), ReadDHCP(Merge(a, b));
            && (m.0 == (x.0 || y.0) <==> Get(a, "BOOTPROTO") == "" || x.0 || !y.0)
            && (m.1 == (x.1 || y.1) <==> Get(a, "DHCPV6C") == "" || x.1 || !y.1)
  {
    MergedGet(a, b, "BOOTPROTO");
    MergedGet(a, b, "DHCPV6C");
    assert Lower("") == "" && "" !in {"dhcp", "bootp"} && "" !in {"yes", "true", "1"};
    hide Lower, Merge, Get;
  }

  predicate SameGateway(a: Config, b: Config, key: string) {
    Get(a, key) == "" || Get(b, key) == "" || ParseIP(a[key]) == ParseIP(b[key])
  }

  lemma AroundCall(a: Config, b: Config, call: Call)
    ensures var before, after, m := ReadFiles(NOTHING, [a, b]), ReadFiles(NOTHING, AfterCalls([a, b], [call])), Merge(a, b);
            && (!call.CallAddresses? ==> after.addresses == AddressView(m))
            && (!call.CallDNS? ==> after.names == DNSView(m))
            && (!call.CallDHCP? ==> (after.dhcp4, after.dhcp6) == ReadDHCP(m))
            && before.addresses.gateway4 ==
               (if Get(b, "GATEWAY") == "" then ReadGateway(a, "GATEWAY") else ParseIP(b["GATEWAY"]))
            && before.addresses.gateway6 ==
               (if Get(b, "IPV6_DEFAULTGW") == "" then ReadGateway(a, "IPV6_DEFAULTGW") else ParseIP(b["IPV6_DEFAULTGW"]))
            && before.names.servers == ReadServers(a, 1) + ReadServers(b, 1)
            && before.names.domains == ReadDomains(a) + ReadDomains(b)
            && before.dhcp4 == (ReadDHCP(a).0 || ReadDHCP(b).0) && before.dhcp6 == (ReadDHCP(a).1 || ReadDHCP(b).1)
  {
    BothRead(a, b);
    AfterOneCall(a, b, call);
    hide Merge, ReadFiles, AfterCalls, ReadAddresses, ReadServers, ReadDomains, ReadDHCP, ReadGateway, AddressView, ParseIP;
  }

  lemma AfterOneCall(a: Config, b: Config, call: Call)
    ensures var after, m := ReadFiles(NOTHING, AfterCalls([a, b], [call])), Merge(a, b);
            && (!call.CallAddresses? ==> after.addresses == AddressView(m))
            && (!call.CallDNS? ==> after.names == DNSView(m))
            && (!call.CallDHCP? ==> (after.dhcp4, after.dhcp6) == ReadDHCP(m))
  {
    hide *;
    var m := Merge(a, b);
    TwoMerged(a, b);
    OneCall([a, b], call);
    OneFile(Apply(m, call));
    OtherKinds(m, call);
    if !call.CallAddresses? { AddressViewFrame(Apply(m, call), m); }
    if !call.CallDNS? { DNSViewFrame(Apply(m, call), m); }
    if !call.CallDHCP? { DHCPFrame(Apply(m, call), m); }
  }

  lemma BothRead(a: Config, b: Config)
    ensures ReadFiles(NOTHING, [a, b]) == ReadFile(ReadFile(NOTHING, a), b)
    ensures var r := ReadFile(NOTHING, a);
            && r.addresses.gateway4 == ReadGateway(a, "GATEWAY") && r.addresses.gateway6 == ReadGateway(a, "IPV6_DEFAULTGW")
            && r.names == DNSView(a) && (r.dhcp4, r.dhcp6) == ReadDHCP(a)
  {
    hide ReadAddresses, ReadServers, ReadDomains, ReadDHCP, ParseIP;
    assert [a, b][1..] == [b] && [b][1..] == [];
    var r := ReadFile(NOTHING, a);
    assert ReadFiles(NOTHING, [a, b]) == ReadFiles(r, [b]) == ReadFiles(ReadFile(r, b), []);
    assert [] + ReadServers(a, 1) == ReadServers(a, 1) && [] + ReadDomains(a) == ReadDomains(a);
  }
}
