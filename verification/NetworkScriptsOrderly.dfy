// networkScripts.go: what the first call does to any number of files whose address keys
// are in order.
module NetworkScriptsOrderly {
  import opened Text
  import opened Net
  import opened NetworkScripts
  import opened NetworkScriptsRuns
  import opened NetworkScriptsFiles
  import opened NetworkScriptsMerged

  // ------------------------------------------------------------------- orderly files

  // Every address is readable, no width stands alone, and none is behind a gap.
  predicate OrderlySlot(c: Config, idx: string) {
    if Addr(c, idx) == "" then Get(c, "PREFIX" + idx) == "" && Get(c, "NETMASK" + idx) == ""
    else ParseIPAt(c, idx).Some?
  }

  ghost predicate Orderly(c: Config) {
    && OrderlySlot(c, "")
    && (forall i: nat | i < 256 :: OrderlySlot(c, Numeral(i, 10)) && (Addr(c, Numeral(i, 10)) != "" ==> Reached(c, i)))
    && (Get(c, "IPV6ADDR") != "" ==> Main6(c).Some?) && (Get(c, "IPV6ADDR_SECONDARIES") != "" ==> Others6(c) != [])
  }

  // Both files hold the key.
  predicate Both(a: Config, b: Config, k: string) { Get(a, k) != "" && Get(b, k) != "" }

  ghost predicate Shares(a: Config, b: Config) {
    || Both(a, b, "IPADDR") || Both(a, b, "IPV6ADDR") || Both(a, b, "IPV6ADDR_SECONDARIES")
    || exists i: nat :: i < 256 && Both(a, b, "IPADDR" + Numeral(i, 10))
  }

  // An unshared slot is undisturbed.
  lemma ApartSlot(a: Config, b: Config, idx: string)
    requires OrderlySlot(a, idx) && OrderlySlot(b, idx) && !Both(a, b, "IPADDR" + idx)
    ensures Undisturbed(a, b, idx, ParseIPAt(a, idx), ParseIPAt(b, idx))
  {
    SlotTexts(a, idx);
    SlotTexts(b, idx);
    MergedTexts(a, b, idx);
    hide Merge, ParseCIDR, HostOf, ParseNumeral, MaskPrefix, ParseIPAt, Get;
  }

  lemma OrderlyReadAt(c: Config, i: nat)
    requires Orderly(c) && i < 256
    ensures ReadAt(c, i) == ParseIPAt(c, Numeral(i, 10))
  {
    SlotTexts(c, Numeral(i, 10));
    hide ParseIPAt, ParseCIDR, Width, OrderlySlot, Main6, Others6, Get;
  }

  // Orderly files that share no slot do not clash.
  lemma ApartIsNoClash(a: Config, b: Config)
    requires Orderly(a) && Orderly(b) && !Shares(a, b)
    ensures NoClash(a, b)
  {
    assert "IPADDR" + "" == "IPADDR";
    ApartSlot(a, b, "");
    forall i: nat | i < 256 ensures UndisturbedAt(a, b, i) {
      assert !Both(a, b, "IPADDR" + Numeral(i, 10));
      ApartSlot(a, b, Numeral(i, 10));
      OrderlyReadAt(a, i);
      OrderlyReadAt(b, i);
    }
    Apart6(a, b);
    hide Undisturbed, ParseIPAt, ReadAt, Main6, Others6, Get, Reached, OrderlySlot, Addr;
  }

  lemma Apart6(a: Config, b: Config)
    requires !Both(a, b, "IPV6ADDR") && !Both(a, b, "IPV6ADDR_SECONDARIES")
    ensures Get(a, "IPV6ADDR") == "" || Main6(b).None?
    ensures Get(a, "IPV6ADDR_SECONDARIES") == "" || Others6(b) == []
  {
    assert Fields("") == [];
    hide ParseCIDR, Fields;
  }

  // Merging them gives an orderly file.
  lemma ApartIsOrderly(a: Config, b: Config)
    requires Orderly(a) && Orderly(b) && !Shares(a, b)
    ensures Orderly(Merge(a, b))
  {
    ApartIsNoClash(a, b);
    AddressesKeptIff(a, b);
    assert "IPADDR" + "" == "IPADDR";
    hide NoClash;
    OrderlyMerged(a, b, "");
    forall i: nat | i < 256
      ensures OrderlySlot(Merge(a, b), Numeral(i, 10)) && (Addr(Merge(a, b), Numeral(i, 10)) != "" ==> Reached(Merge(a, b), i))
    {
      assert forall j: nat | j < i :: KeptAt(a, b, j);
      ReachedMerged(a, b, i);
      assert KeptAt(a, b, i);
      OrderlyReadAt(a, i);
      OrderlyReadAt(b, i);
      MergedGet(a, b, "IPADDR" + Numeral(i, 10));
      hide KeptAt, Merge, ParseIPAt, Reached, Get;
      KeptSlot(a, b, i);
      OrderlyMerged(a, b, Numeral(i, 10));
    }
    Orderly6Merged(a, b);
    hide Merge, ParseIPAt, Reached, Get, KeptAt, Main6, Others6, OrderlySlot, Addr;
  }

  lemma KeptSlot(a: Config, b: Config, i: nat)
    requires KeptAt(a, b, i) && (Reached(Merge(a, b), i) <==> Reached(a, i) || Reached(b, i))
    requires ReadAt(a, i) == ParseIPAt(a, Numeral(i, 10)) && ReadAt(b, i) == ParseIPAt(b, Numeral(i, 10))
    ensures KeptOne(ParseIPAt(a, Numeral(i, 10)), ParseIPAt(b, Numeral(i, 10)), ParseIPAt(Merge(a, b), Numeral(i, 10)))
            || (ParseIPAt(a, Numeral(i, 10)).None? && ParseIPAt(b, Numeral(i, 10)).None?)
  {
    hide ParseIPAt, Reached, Merge;
  }

  lemma OrderlyMerged(a: Config, b: Config, idx: string)
    requires OrderlySlot(a, idx) && OrderlySlot(b, idx)
    requires KeptOne(ParseIPAt(a, idx), ParseIPAt(b, idx), ParseIPAt(Merge(a, b), idx))
             || (ParseIPAt(a, idx).None? && ParseIPAt(b, idx).None?)
    ensures OrderlySlot(Merge(a, b), idx)
  {
    MergedGet(a, b, "IPADDR" + idx);
    MergedGet(a, b, "PREFIX" + idx);
    MergedGet(a, b, "NETMASK" + idx);
    hide Merge, ParseIPAt, Get;
  }

  lemma Orderly6Merged(a: Config, b: Config)
    requires Orderly(a) && Orderly(b)
    ensures var m := Merge(a, b);
            (Get(m, "IPV6ADDR") != "" ==> Main6(m).Some?) && (Get(m, "IPV6ADDR_SECONDARIES") != "" ==> Others6(m) != [])
  {
    MergedGet(a, b, "IPV6ADDR");
    MergedGet(a, b, "IPV6ADDR_SECONDARIES");
    hide ParseCIDR, Fields, Merge, OrderlySlot, Reached, Addr, ParseAll;
  }

  // ------------------------------------------------------------------- counting texts

  function Mark(text: string): nat { if text != "" then 1 else 0 }

  function Marks(c: Config, i: nat): nat
    requires i <= 256
    decreases 256 - i
  {
    if i == 256 then 0 else Mark(Addr(c, Numeral(i, 10))) + Marks(c, i + 1)
  }

  // How many addresses a file gives texts for.
  function Weight(c: Config): nat {
    Mark(Get(c, "IPADDR")) + Marks(c, 0) + Mark(Get(c, "IPV6ADDR")) + |Others6(c)|
  }

  function Size(x: Option<IPNet>): nat { if x.Some? then 1 else 0 }

  lemma ReadSize(c: Config)
    ensures |ReadAddresses(c)| == Size(ParseIPAt(c, "")) + |Gather(c, 0)| + Size(Main6(c)) + |Others6(c)|
  {
    AddressesGathered(c);
    hide ReadAddresses, ParseIPAt, Gather, Main6, Others6;
  }

  lemma {:induction false} MarksAreRead(c: Config, i: nat)
    requires i <= 256
    ensures |Gather(c, i)| <= Marks(c, i) && (Orderly(c) ==> |Gather(c, i)| == Marks(c, i))
    decreases 256 - i
  {
    hide ParseIPAt, Addr, Width, ParseCIDR, Reached, OrderlySlot, Main6, Others6, Get;
    if i < 256 {
      MarksAreRead(c, i + 1);
      SlotTexts(c, Numeral(i, 10));
      if Orderly(c) { OrderlyReadAt(c, i); OrderlyAddr(c, Numeral(i, 10)); }
    }
  }

  lemma OrderlyAddr(c: Config, idx: string)
    requires OrderlySlot(c, idx)
    ensures ParseIPAt(c, idx).Some? <==> Addr(c, idx) != ""
  {
    SlotTexts(c, idx);
    hide ParseIPAt, ParseCIDR, Width, Get;
  }

  // What is read has a text, and in an orderly file every text is read.
  lemma ReadWeight(c: Config)
    ensures |ReadAddresses(c)| <= Weight(c) && (Orderly(c) ==> |ReadAddresses(c)| == Weight(c))
  {
    ReadSize(c);
    MarksAreRead(c, 0);
    EndsAreRead(c);
    hide ParseIPAt, ReadAddresses, Gather, Marks, Main6, Others6, Orderly, Size, Mark, Get;
  }

  lemma EndsAreRead(c: Config)
    ensures Size(ParseIPAt(c, "")) <= Mark(Get(c, "IPADDR")) && Size(Main6(c)) <= Mark(Get(c, "IPV6ADDR"))
    ensures Orderly(c) ==> Size(ParseIPAt(c, "")) == Mark(Get(c, "IPADDR")) && Size(Main6(c)) == Mark(Get(c, "IPV6ADDR"))
  {
    SlotTexts(c, "");
    assert "IPADDR" + "" == "IPADDR";
    if Orderly(c) { OrderlyAddr(c, ""); }
    hide ParseIPAt, ParseCIDR, Width, Others6, OrderlySlot, Reached, Get;
  }

  // Merging loses a text for every slot that is shared.
  lemma MergedWeight(a: Config, b: Config)
    requires Get(b, "IPV6ADDR_SECONDARIES") != "" ==> Others6(b) != []
    ensures Weight(Merge(a, b)) + (if Shares(a, b) then 1 else 0) <= Weight(a) + Weight(b)
  {
    hide *;
    MergedMark(a, b, "IPADDR");
    MergedMark(a, b, "IPV6ADDR");
    MergedOthers(a, b);
    MergedMarks(a, b, 0);
    SharesParts(a, b);
    WeightIs(a);
    WeightIs(b);
    WeightIs(Merge(a, b));
  }

  lemma WeightIs(c: Config)
    ensures Weight(c) == Mark(Get(c, "IPADDR")) + Marks(c, 0) + Mark(Get(c, "IPV6ADDR")) + |Others6(c)|
  {
    hide Mark, Get, Marks, Others6;
  }

  lemma SharesParts(a: Config, b: Config)
    ensures Shares(a, b) <==>
              Both(a, b, "IPADDR") || Both(a, b, "IPV6ADDR") || Both(a, b, "IPV6ADDR_SECONDARIES") || SharesFrom(a, b, 0)
  {
    hide Both, Numeral;
  }

  lemma MergedMark(a: Config, b: Config, k: string)
    ensures Mark(Get(Merge(a, b), k)) + (if Both(a, b, k) then 1 else 0) <= Mark(Get(a, k)) + Mark(Get(b, k))
  {
    MergedGet(a, b, k);
    hide Get, Merge;
  }

  lemma MergedOthers(a: Config, b: Config)
    requires Get(b, "IPV6ADDR_SECONDARIES") != "" ==> Others6(b) != []
    ensures |Others6(Merge(a, b))| + (if Both(a, b, "IPV6ADDR_SECONDARIES") then 1 else 0) <= |Others6(a)| + |Others6(b)|
  {
    MergedGet(a, b, "IPV6ADDR_SECONDARIES");
    hide Fields, Merge, ParseAll;
  }

  // Some slot from an index on is shared.
  ghost predicate SharesFrom(a: Config, b: Config, i: nat) {
    exists j: nat :: i <= j < 256 && Both(a, b, "IPADDR" + Numeral(j, 10))
  }

  lemma SharesStep(a: Config, b: Config, i: nat)
    requires i <= 256
    ensures SharesFrom(a, b, i) ==> i < 256 && (Both(a, b, "IPADDR" + Numeral(i, 10)) || SharesFrom(a, b, i + 1))
  {
    hide Both, Numeral;
    if j: nat :| i <= j < 256 && Both(a, b, "IPADDR" + Numeral(j, 10)) { assert j == i || j >= i + 1; }
  }

  lemma {:induction false} MergedMarks(a: Config, b: Config, i: nat)
    requires i <= 256
    ensures Marks(Merge(a, b), i) + (if SharesFrom(a, b, i) then 1 else 0) <= Marks(a, i) + Marks(b, i)
    decreases 256 - i
  {
    hide Merge, Get, SharesFrom, Numeral;
    SharesStep(a, b, i);
    if i < 256 {
      MergedMarks(a, b, i + 1);
      MergedGet(a, b, "IPADDR" + Numeral(i, 10));
    }
  }

  // --------------------------------------------------------------- any number of files

  ghost predicate AllOrderly(files: seq<Config>) { forall i: nat | i < |files| :: Orderly(files[i]) }

  ghost predicate AnyShares(files: seq<Config>) { exists i, j :: 0 <= i < j < |files| && Shares(files[i], files[j]) }

  function AllRead(files: seq<Config>): seq<IPNet> {
    if files == [] then [] else AllRead(files[..|files| - 1]) + ReadAddresses(files[|files| - 1])
  }

  lemma {:induction false} MergeSnoc(dst: Config, files: seq<Config>)
    requires files != []
    ensures MergeAll(dst, files) == Merge(MergeAll(dst, files[..|files| - 1]), files[|files| - 1])
    decreases |files|
  {
    hide Merge;
    var front := files[..|files| - 1];
    if |files| > 1 {
      MergeSnoc(Merge(dst, files[0]), files[1..]);
      assert files[1..][..|files| - 2] == front[1..];
    } else {
      assert files[1..] == [] && front == [];
    }
  }

  // A key has a text in the merged file if and only if it has one in some file.
  lemma {:induction false} HeldBySome(files: seq<Config>, k: string)
    ensures Get(MergeAll(map[], files), k) != "" <==> exists i: nat :: i < |files| && Get(files[i], k) != ""
    decreases |files|
  {
    hide Merge;
    if files != [] {
      var n := |files| - 1;
      var front := files[..n];
      MergeSnoc(map[], files);
      HeldBySome(front, k);
      MergedGet(MergeAll(map[], front), files[n], k);
      hide Get, MergeAll;
      assert forall i: nat | i < n :: front[i] == files[i];
      if i: nat :| i < n && Get(front[i], k) != "" { assert Get(files[i], k) != ""; }
    }
  }

  // The last file shares a slot with the others merged if and only if it does with one.
  lemma SharesWithMerged(files: seq<Config>)
    requires files != []
    ensures var n := |files| - 1;
            Shares(MergeAll(map[], files[..n]), files[n]) <==> exists i: nat :: i < n && Shares(files[i], files[n])
  {
    var n := |files| - 1;
    var front, last := files[..n], files[n];
    assert forall i: nat | i < n :: front[i] == files[i];
    forall k ensures Both(MergeAll(map[], front), last, k) <==> exists i: nat :: i < n && Both(files[i], last, k) {
      HeldBySome(front, k);
      hide MergeAll, Get;
      if i: nat :| i < n && Get(files[i], k) != "" { assert Get(front[i], k) != ""; }
    }
    hide MergeAll, Both, Numeral;
    if Shares(MergeAll(map[], front), last) { SomeShares(files, front, last, n); }
  }

  lemma SomeShares(files: seq<Config>, front: seq<Config>, last: Config, n: nat)
    requires n < |files| && Shares(MergeAll(map[], front), last)
    requires forall k :: Both(MergeAll(map[], front), last, k) <==> exists i: nat :: i < n && Both(files[i], last, k)
    ensures exists i: nat :: i < n && Shares(files[i], last)
  {
    var k := SharedKey(MergeAll(map[], front), last);
    var i: nat :| i < n && Both(files[i], last, k);
    KeyShares(files[i], last, k);
  }

  ghost predicate SlotKey(k: string) {
    k == "IPADDR" || k == "IPV6ADDR" || k == "IPV6ADDR_SECONDARIES" || exists i: nat :: i < 256 && k == "IPADDR" + Numeral(i, 10)
  }

  lemma SharedKey(a: Config, b: Config) returns (k: string)
    requires Shares(a, b)
    ensures SlotKey(k) && Both(a, b, k)
  {
    hide Both, Numeral;
    if Both(a, b, "IPADDR") { return "IPADDR"; }
    if Both(a, b, "IPV6ADDR") { return "IPV6ADDR"; }
    if Both(a, b, "IPV6ADDR_SECONDARIES") { return "IPV6ADDR_SECONDARIES"; }
    var i: nat :| i < 256 && Both(a, b, "IPADDR" + Numeral(i, 10));
    return "IPADDR" + Numeral(i, 10);
  }

  lemma KeyShares(a: Config, b: Config, k: string)
    requires SlotKey(k) && Both(a, b, k)
    ensures Shares(a, b)
  {
    hide Both, Numeral;
    if k != "IPADDR" && k != "IPV6ADDR" && k != "IPV6ADDR_SECONDARIES" {
      var i: nat :| i < 256 && k == "IPADDR" + Numeral(i, 10);
      assert Both(a, b, "IPADDR" + Numeral(i, 10));
    }
  }

  lemma ShareStep(files: seq<Config>)
    requires files != []
    ensures var n := |files| - 1;
            AnyShares(files) <==> AnyShares(files[..n]) || Shares(MergeAll(map[], files[..n]), files[n])
  {
    var n := |files| - 1;
    var front := files[..n];
    SharesWithMerged(files);
    hide Shares, MergeAll;
    assert forall i: nat | i < n :: front[i] == files[i];
    if i, j :| 0 <= i < j < |files| && Shares(files[i], files[j]) {
      if j < n { assert Shares(front[i], front[j]); }
    }
    if i, j :| 0 <= i < j < |front| && Shares(front[i], front[j]) { assert Shares(files[i], files[j]); }
  }

  // Where some slot is shared there is less to read than the files hold.
  lemma {:induction false} FilesWeight(files: seq<Config>)
    requires AllOrderly(files)
    ensures Weight(MergeAll(map[], files)) + (if AnyShares(files) then 1 else 0) <= |AllRead(files)|
    decreases |files|
  {
    if files == [] {
      NothingWeighs();
    } else {
      var n := |files| - 1;
      var front, last := files[..n], files[n];
      assert AllOrderly(front) && Orderly(last);
      FilesWeight(front);
      MergeSnoc(map[], files);
      ShareStep(files);
      ReadWeight(last);
      assert Get(last, "IPV6ADDR_SECONDARIES") != "" ==> Others6(last) != [];
      hide Orderly, Shares, AnyShares, Weight, Merge, MergeAll, Get, Others6, ReadAddresses;
      MergedWeight(MergeAll(map[], front), last);
    }
  }

  lemma NothingWeighs()
    ensures Weight(map[]) == 0 && Orderly(map[]) && ReadAddresses(map[]) == []
  {
    var c: Config := map[];
    assert Fields("") == [];
    NothingMarked(0);
    forall idx ensures OrderlySlot(c, idx) {}
    hide Fields, OrderlySlot;
    OnlyPlain(c);
    SlotTexts(c, "");
    hide ParseIPAt, ReadAddresses, Marks, Reached;
  }

  lemma {:induction false} NothingMarked(i: nat)
    requires i <= 256
    ensures Marks(map[], i) == 0
    decreases 256 - i
  {
    if i < 256 { NothingMarked(i + 1); }
  }

  lemma {:induction false} FilesApart(files: seq<Config>)
    requires AllOrderly(files) && !AnyShares(files)
    ensures Orderly(MergeAll(map[], files)) && multiset(ReadAddresses(MergeAll(map[], files))) == multiset(AllRead(files))
    decreases |files|
  {
    if files == [] {
      NothingWeighs();
    } else {
      var n := |files| - 1;
      var front, last := files[..n], files[n];
      assert AllOrderly(front) && Orderly(last);
      ShareStep(files);
      MergeSnoc(map[], files);
      hide Orderly, Shares, AnyShares, Merge, MergeAll, ReadAddresses, NoClash;
      FilesApart(front);
      var m := MergeAll(map[], front);
      ApartIsNoClash(m, last);
      ApartIsOrderly(m, last);
      ReadKept(m, last);
    }
  }

  lemma {:induction false} FilesRead(files: seq<Config>)
    ensures ReadFiles(NOTHING, files).addresses.addrs == AllRead(files)
    decreases |files|
  {
    hide ReadAddresses, ReadServers, ReadDomains, ReadDHCP, ParseIP;
    if files != [] {
      FilesRead(files[..|files| - 1]);
      ReadSnoc(NOTHING, files);
    }
  }

  lemma {:induction false} ReadSnoc(r: Reading, files: seq<Config>)
    requires files != []
    ensures ReadFiles(r, files) == ReadFile(ReadFiles(r, files[..|files| - 1]), files[|files| - 1])
    decreases |files|
  {
    hide ReadFile;
    var front := files[..|files| - 1];
    if |files| > 1 {
      ReadSnoc(ReadFile(r, files[0]), files[1..]);
      assert files[1..][..|files| - 2] == front[1..];
    } else {
      assert files[1..] == [] && front == [];
    }
  }

  lemma FilesAfter(files: seq<Config>, call: Call)
    requires !call.CallAddresses?
    ensures ReadFiles(NOTHING, AfterCalls(files, [call])).addresses.addrs == ReadAddresses(MergeAll(map[], files))
  {
    hide *;
    var m := MergeAll(map[], files);
    OneCall(files, call);
    KeepsAddresses(m, call);
    OneFile(Apply(m, call));
    ViewOf(m);
  }

  // Any number of orderly files keep what is reported of them through a call that is not
  // about addresses if and only if no two share a slot; otherwise there is less to report.
  lemma OrderlyFilesKeptIff(files: seq<Config>, call: Call)
    requires AllOrderly(files) && !call.CallAddresses?
    ensures var before, after := ReadFiles(NOTHING, files), ReadFiles(NOTHING, AfterCalls(files, [call]));
            && (multiset(after.addresses.addrs) == multiset(before.addresses.addrs) <==> !AnyShares(files))
            && (AnyShares(files) <==> |after.addresses.addrs| < |before.addresses.addrs|)
  {
    hide *;
    FilesRead(files);
    FilesAfter(files, call);
    var before, after := AllRead(files), ReadAddresses(MergeAll(map[], files));
    assert multiset(after) == multiset(before) ==> |multiset(after)| == |multiset(before)|;
    assert |multiset(after)| == |after| && |multiset(before)| == |before|;
    ReadWeight(MergeAll(map[], files));
    FilesWeight(files);
    if !AnyShares(files) { FilesApart(files); }
  }
}
