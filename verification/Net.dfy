// IP addresses and networks as byte strings, the way Go's net package holds
// them: four bytes for IPv4, sixteen for IPv6.
module Net {
  import opened Text

  type IP = b: seq<bv8> | |b| == 4 || |b| == 16 witness [0, 0, 0, 0]

  datatype IPNetwork = IPNet(ip: IP, mask: seq<bv8>)

  type IPNet = n: IPNetwork | |n.mask| == |n.ip| witness IPNetwork.IPNet([0, 0, 0, 0], [0, 0, 0, 0])

  // A static route. ifupdown can leave a destination whose mask is of the other
  // family, so the network is not required to be well formed here.
  datatype Route = Route(destination: IPNetwork, gateway: Option<IP>, metric: int)

  predicate Is4(ip: IP) { |ip| == 4 }

  predicate WellFormed(n: IPNetwork) { |n.mask| == |n.ip| }

  // net.IPNet.Contains: same family, and equal under the mask byte by byte.
  predicate Contains(n: IPNet, ip: IP) {
    |n.ip| == |ip| && forall i :: 0 <= i < |ip| ==> n.ip[i] & n.mask[i] == ip[i] & n.mask[i]
  }

  // The same on a network that may carry a mask of the wrong length: it contains nothing.
  predicate RawContains(n: IPNetwork, ip: IP) { WellFormed(n) && Contains(n, ip) }

  predicate IsLinkLocal(ip: IP) {
    if Is4(ip) then ip[0] == 169 && ip[1] == 254 else ip[0] == 0xfe && ip[1] & 0xc0 == 0x80
  }

  function Zero(v4: bool): IP { if v4 then [0, 0, 0, 0] else seq(16, i => 0) }

  // ------------------------------------------------------------------- masks

  // The byte whose first k bits are set.
  function ByteMask(k: nat): bv8
    requires k <= 8
  {
    [0x00, 0x80, 0xc0, 0xe0, 0xf0, 0xf8, 0xfc, 0xfe, 0xff][k]
  }

  function MinNat(a: nat, b: nat): nat { if a < b then a else b }

  function CIDRMask(ones: nat, n: nat): (mask: seq<bv8>)
    requires ones <= 8 * n
    ensures |mask| == n
  {
    if n == 0 then [] else
      var k := if n == 1 then ones else MinNat(ones, 8);
      [ByteMask(k)] + CIDRMask(ones - k, n - 1)
  }

  // net.IPMask.Size: the number of leading ones, or None when the ones are not
  // all in front (Go reports 0 then).
  function MaskSize(mask: seq<bv8>): (r: Option<nat>)
    ensures r.Some? ==> r.value <= 8 * |mask|
  {
    if mask == [] then Some(0)
    else if mask[0] == 0xff then
      match MaskSize(mask[1..]) case None => None case Some(k) => Some(8 + k)
    else if forall i :: 1 <= i < |mask| ==> mask[i] == 0 then
      match mask[0]
      case 0x00 => Some(0) case 0x80 => Some(1) case 0xc0 => Some(2) case 0xe0 => Some(3)
      case 0xf0 => Some(4) case 0xf8 => Some(5) case 0xfc => Some(6) case 0xfe => Some(7)
      case _ => None
    else None
  }

  lemma {:induction false} CIDRMaskZero(n: nat)
    ensures forall i :: 0 <= i < n ==> CIDRMask(0, n)[i] == 0
  {
    if n > 0 { CIDRMaskZero(n - 1); }
  }

  lemma {:induction false} MaskSizeOfCIDRMask(ones: nat, n: nat)
    requires ones <= 8 * n
    ensures MaskSize(CIDRMask(ones, n)) == Some(ones)
  {
    if n > 0 {
      var m := CIDRMask(ones, n);
      if ones >= 8 {
        assert m[1..] == CIDRMask(ones - 8, n - 1);
        MaskSizeOfCIDRMask(ones - 8, n - 1);
      } else {
        assert m[1..] == CIDRMask(0, n - 1);
        CIDRMaskZero(n - 1);
        assert forall i :: 1 <= i < n ==> m[i] == m[1..][i - 1];
      }
    }
  }

  // A network whose mask a prefix length describes.
  predicate Canonical(n: IPNet) {
    MaskSize(n.mask).Some? && n.mask == CIDRMask(MaskSize(n.mask).value, |n.mask|)
  }

  function Prefix(n: IPNet): (p: nat)
    ensures p <= 8 * |n.mask|
  {
    match MaskSize(n.mask) case None => 0 case Some(k) => k
  }

  // --------------------------------------------------------------- broadcast

  function BroadcastByte(ip: bv8, mask: bv8): bv8 { (ip & mask) | (mask ^ 0xff) }

  // The address getBroadcast computes when address and mask are of one length.
  function Broadcast(n: IPNet): (b: IP)
    ensures |b| == |n.ip|
    ensures forall i :: 0 <= i < |b| ==> b[i] == BroadcastByte(n.ip[i], n.mask[i])
  {
    seq(|n.ip|, i requires 0 <= i < |n.ip| => BroadcastByte(n.ip[i], n.mask[i]))
  }

  // Byte strings of one length in numeric (big-endian) order.
  predicate AtMost(a: seq<bv8>, b: seq<bv8>)
    requires |a| == |b|
  {
    a == [] || a[0] < b[0] || (a[0] == b[0] && AtMost(a[1..], b[1..]))
  }

  lemma {:induction false} BytewiseAtMost(a: seq<bv8>, b: seq<bv8>)
    requires |a| == |b| && forall i :: 0 <= i < |a| ==> a[i] <= b[i]
    ensures AtMost(a, b)
  {
    if a != [] { BytewiseAtMost(a[1..], b[1..]); }
  }

  lemma BroadcastByteBounds(x: bv8, ip: bv8, mask: bv8)
    ensures BroadcastByte(ip, mask) & mask == ip & mask
    ensures x & mask == ip & mask ==> x <= BroadcastByte(ip, mask)
  {}

  // The broadcast address is in the network, and no address of the network is greater.
  lemma BroadcastIsGreatest(n: IPNet, x: IP)
    ensures Contains(n, Broadcast(n))
    ensures Contains(n, x) ==> AtMost(x, Broadcast(n))
  {
    var b := Broadcast(n);
    forall i | 0 <= i < |b| ensures n.ip[i] & n.mask[i] == b[i] & n.mask[i] {
      BroadcastByteBounds(0, n.ip[i], n.mask[i]);
    }
    if Contains(n, x) {
      forall i | 0 <= i < |b| ensures x[i] <= b[i] {
        BroadcastByteBounds(x[i], n.ip[i], n.mask[i]);
      }
      BytewiseAtMost(x, b);
    }
  }

  // allFF, with its loop.
  method AllFF(b: seq<bv8>) returns (r: bool)
    ensures r <==> forall i :: 0 <= i < |b| ==> b[i] == 0xff
  {
    for i := 0 to |b|
      invariant forall j :: 0 <= j < i ==> b[j] == 0xff
    {
      if b[i] != 0xff { return false; }
    }
    return true;
  }

  const V4_IN_V6_PREFIX: seq<bv8> := [0, 0, 0, 0, 0, 0, 0, 0, 0, 0, 0xff, 0xff]

  // The address and mask getBroadcast works on, once both are of one family.
  // None where the Go code runs off the end of a four-byte mask.
  function SameFamily(ip: seq<bv8>, mask: seq<bv8>): (r: Option<IPNet>)
    requires (|ip| == 4 || |ip| == 16) && (|mask| == 4 || |mask| == 16)
    ensures |ip| == |mask| ==> r == Some(IPNetwork.IPNet(ip, mask))
  {
    if |ip| == |mask| then Some(IPNetwork.IPNet(ip, mask))
    else if |ip| == 4 && (forall i :: 0 <= i < 12 ==> mask[..12][i] == 0xff) then Some(IPNetwork.IPNet(ip, mask[12..]))
    else if |ip| == 4 then Some(IPNetwork.IPNet(ip, mask[..4]))
    else if ip[..12] == V4_IN_V6_PREFIX then Some(IPNetwork.IPNet(ip[12..], mask))
    else None
  }

  method GetBroadcast(ip: seq<bv8>, mask: seq<bv8>) returns (r: Option<IP>)
    requires (|ip| == 4 || |ip| == 16) && (|mask| == 4 || |mask| == 16)
    ensures r.Some? <==> SameFamily(ip, mask).Some?
    ensures r.Some? ==> r.value == Broadcast(SameFamily(ip, mask).value)
  {
    var m, a := mask, ip;
    if |m| == 16 && |a| == 4 {
      var ones := AllFF(m[..12]);
      if ones { m := m[12..]; }
    }
    if |m| == 4 && |a| == 16 && a[..12] == V4_IN_V6_PREFIX { a := a[12..]; }
    var n := |a|;
    if |m| < n { return None; }
    var broadcast := new bv8[n];
    for i := 0 to n
      invariant forall j :: 0 <= j < i ==> broadcast[j] == BroadcastByte(a[j], m[j])
    {
      var invertedMask := m[i] ^ 0xff;
      broadcast[i] := (a[i] & m[i]) | invertedMask;
    }
    assert broadcast[..] == Broadcast(SameFamily(ip, mask).value);
    return Some(broadcast[..]);
  }

  // -------------------------------------------------------------------- text

  function Base(v4: bool): nat { if v4 then 10 else 16 }

  function Separator(v4: bool): char { if v4 then '.' else ':' }

  function Groups(bytes: seq<bv8>, base: nat): (gs: seq<string>)
    requires base == 10 || base == 16
    ensures |gs| == |bytes|
  {
    if bytes == [] then [] else [Numeral(bytes[0] as nat, base)] + Groups(bytes[1..], base)
  }

  // net.IP.String. IPv6 is written as sixteen byte groups, a stand-in for the
  // real syntax with the same alphabet.
  function IPText(ip: IP): string {
    JoinWith(Groups(ip, Base(Is4(ip))), Separator(Is4(ip)))
  }

  function ParseGroup(g: string, base: nat): Option<bv8>
    requires base == 10 || base == 16
  {
    match ParseNumeral(g, base)
    case None => None
    case Some(n) => if n < 256 && Numeral(n, base) == g then Some(n as bv8) else None
  }

  function ParseGroups(gs: seq<string>, base: nat): (r: Option<seq<bv8>>)
    requires base == 10 || base == 16
    ensures r.Some? ==> |r.value| == |gs|
  {
    if gs == [] then Some([])
    else
      match (ParseGroup(gs[0], base), ParseGroups(gs[1..], base))
      case (Some(b), Some(bs)) => Some([b] + bs)
      case _ => None
  }

  // net.ParseIP.
  function ParseIP(s: string): (r: Option<IP>) {
    var v4 := '.' in s;
    var gs := Split(s, Separator(v4));
    if |gs| != (if v4 then 4 else 16) then None else ParseGroups(gs, Base(v4))
  }

  // Every character that an address or network is written with.
  predicate NetChar(c: char) { DigitValue(c).Some? || c == '.' || c == ':' || c == '/' }

  predicate NetText(s: string) { forall i :: 0 <= i < |s| ==> NetChar(s[i]) }

  lemma NetTextIsWord(s: string)
    requires s != [] && NetText(s)
    ensures IsWord(s) && '#' !in s
  {
    assert forall i :: 0 <= i < |s| ==> NetChar(s[i]) && !IsSpace(s[i]) && s[i] != '#';
  }

  predicate DigitsOnly(s: string) { forall i :: 0 <= i < |s| ==> DigitValue(s[i]).Some? }

  lemma {:induction false} GroupsRoundTrip(bytes: seq<bv8>, base: nat)
    requires base == 10 || base == 16
    ensures ParseGroups(Groups(bytes, base), base) == Some(bytes)
    ensures forall g :: g in Groups(bytes, base) ==> g != [] && DigitsOnly(g)
  {
    if bytes != [] {
      GroupsRoundTrip(bytes[1..], base);
      NumeralRoundTrip(bytes[0] as nat, base);
      assert (bytes[0] as nat) as bv8 == bytes[0];
      assert Groups(bytes, base)[1..] == Groups(bytes[1..], base);
      assert bytes == [bytes[0]] + bytes[1..];
    }
  }

  lemma {:induction false} JoinIsNetText(gs: seq<string>, c: char)
    requires c == '.' || c == ':'
    requires forall g :: g in gs ==> DigitsOnly(g)
    ensures var s := JoinWith(gs, c);
            forall i :: 0 <= i < |s| ==> DigitValue(s[i]).Some? || s[i] == c
    ensures |gs| > 1 ==> c in JoinWith(gs, c)
  {
    if |gs| == 1 {
      assert gs[0] in gs;
    } else if |gs| > 1 {
      JoinIsNetText(gs[1..], c);
      var s := JoinWith(gs, c);
      assert s == gs[0] + [c] + JoinWith(gs[1..], c);
      assert gs[0] in gs;
      assert s[|gs[0]|] == c;
    }
  }

  lemma IPTextRoundTrip(ip: IP)
    ensures ParseIP(IPText(ip)) == Some(ip)
    ensures IPText(ip) != [] && NetText(IPText(ip)) && '/' !in IPText(ip) && Separator(Is4(ip)) in IPText(ip)
  {
    var base, c := Base(Is4(ip)), Separator(Is4(ip));
    var gs := Groups(ip, base);
    IPTextShape(ip);
    GroupsRoundTrip(ip, base);
    forall g | g in gs ensures c !in g {
      assert DigitsOnly(g);
    }
    SplitJoin(gs, c);
    hide Groups, ParseGroups, DigitsOnly, JoinWith, Split;
  }

  lemma IPTextShape(ip: IP)
    ensures IPText(ip) != [] && NetText(IPText(ip)) && '/' !in IPText(ip)
    ensures Separator(Is4(ip)) in IPText(ip) && ('.' in IPText(ip) <==> Is4(ip))
  {
    var base, c := Base(Is4(ip)), Separator(Is4(ip));
    var gs := Groups(ip, base);
    GroupsRoundTrip(ip, base);
    JoinIsNetText(gs, c);
    hide Groups, ParseGroups, DigitsOnly, JoinWith;
  }

  // net.IPNet.String for a canonical mask.
  function NetworkText(n: IPNet): string { IPText(n.ip) + "/" + Numeral(Prefix(n), 10) }

  // net.ParseCIDR with the host address put back, as every caller does.
  function ParseCIDR(s: string): (r: Option<IPNet>)
    ensures r.Some? ==> Canonical(r.value)
  {
    var addr := Before(s, '/');
    if |addr| == |s| then None
    else
      match (ParseIP(addr), ParseNumeral(s[|addr| + 1..], 10))
      case (Some(ip), Some(p)) =>
        if p <= 8 * |ip| then
          MaskSizeOfCIDRMask(p, |ip|);
          Some(IPNetwork.IPNet(ip, CIDRMask(p, |ip|)))
        else None
      case _ => None
  }

  lemma NetworkTextRoundTrip(n: IPNet)
    ensures Canonical(n) ==> ParseCIDR(NetworkText(n)) == Some(n)
    ensures NetText(NetworkText(n)) && '/' in NetworkText(n)
  {
    var addr, p := IPText(n.ip), Numeral(Prefix(n), 10);
    IPTextRoundTrip(n.ip);
    NumeralRoundTrip(Prefix(n), 10);
    BeforeAppend(addr, '/', p);
    var s := addr + ['/'] + p;
    assert NetworkText(n) == s;
    assert s[|addr| + 1..] == p;
    assert s[|addr|] == '/';
  }

  predicate CanonicalNetwork(n: IPNetwork) { WellFormed(n) && Canonical(n) }

  // net.IPNet.String and net.IP.String, also for a mask that does not fit its address
  // and for a nil gateway.
  function NetworkString(n: IPNetwork): string { if WellFormed(n) then NetworkText(n) else "<nil>" }

  function GatewayText(gateway: Option<IP>): string { match gateway case None => "<nil>" case Some(ip) => IPText(ip) }

  lemma NilIsNoIP()
    ensures ParseIP("<nil>") == None && ParseCIDR("<nil>") == None && '/' !in "<nil>"
  {
    assert '.' !in "<nil>" && ':' !in "<nil>" && '/' !in "<nil>";
    assert Before("<nil>", '/') == "<nil>";
    assert |Split("<nil>", ':')| == 1;
  }
}
