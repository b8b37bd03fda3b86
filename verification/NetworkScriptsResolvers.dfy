// networkScripts.go: what the first call, when it is not about resolvers, does to those of
// several files.
module NetworkScriptsResolvers {
  import opened Text
  import opened Net
  import opened NetworkScripts
  import opened NetworkScriptsRuns
  import opened NetworkScriptsFiles
  import opened NetworkScriptsMerged
  import opened NetworkScriptsOrderly

  // ------------------------------------------------------------------------ resolvers

  // The loop over DNS1, DNS2, ... gets to the key.
  predicate Listed(c: Config, i: nat) { forall j | 1 <= j < i :: DNSKey(j) in c }

  function ServerAt(c: Config, i: nat): Option<IP> {
    if Listed(c, i) && DNSKey(i) in c then ParseIP(c[DNSKey(i)]) else None
  }

  ghost predicate ServersKept(a: Config, b: Config) {
    forall i: nat | i >= 1 :: KeptOne(ServerAt(a, i), ServerAt(b, i), ServerAt(Merge(a, b), i))
  }

  // A key for which at most one file is read: the text of the first must not stand for
  // another resolver, and where neither is read the texts must not make one.
  predicate ServerUndisturbed(a: Config, b: Config, i: nat) {
    var x, y, k := ServerAt(a, i), ServerAt(b, i), DNSKey(i);
    && (x.None? || y.None?)
    && (x.None? && y.Some? ==> Get(a, k) == "" || ParseIP(Get(a, k)) == y)
    && (x.None? && y.None? ==> ParseIP(First(Get(a, k), Get(b, k))).None?)
  }

  // Only the keys up to the first that neither file has matter.
  ghost predicate NoServerClash(a: Config, b: Config) {
    forall i: nat | i >= 1 && (forall j | 1 <= j < i :: DNSKey(j) in a || DNSKey(j) in b) :: ServerUndisturbed(a, b, i)
  }

  lemma ServersKeptIff(a: Config, b: Config)
    ensures ServersKept(a, b) <==> NoServerClash(a, b)
  {
    var m := Merge(a, b);
    forall i: nat | i >= 1
      ensures Listed(m, i) <==> forall j | 1 <= j < i :: DNSKey(j) in a || DNSKey(j) in b
      ensures Listed(m, i) ==> (KeptOne(ServerAt(a, i), ServerAt(b, i), ServerAt(m, i)) <==> ServerUndisturbed(a, b, i))
      ensures !Listed(m, i) ==> ServerAt(a, i).None? && ServerAt(b, i).None? && ServerAt(m, i).None?
    {
      OneServer(a, b, i);
    }
    hide Listed, DNSKey, Merge, ServerAt, ServerUndisturbed;
  }

  lemma OneServer(a: Config, b: Config, i: nat)
    requires i >= 1
    ensures var m := Merge(a, b);
            && (Listed(m, i) <==> forall j | 1 <= j < i :: DNSKey(j) in a || DNSKey(j) in b)
            && (Listed(m, i) ==> (KeptOne(ServerAt(a, i), ServerAt(b, i), ServerAt(m, i)) <==> ServerUndisturbed(a, b, i)))
            && (!Listed(m, i) ==> ServerAt(a, i).None? && ServerAt(b, i).None? && ServerAt(m, i).None?)
  {
    EmptyIsNoServer();
    MergedGet(a, b, DNSKey(i));
    hide DNSKey, ParseIP;
  }

  lemma EmptyIsNoServer()
    ensures ParseIP("") == None
  {
    assert |Split("", ':')| == 1;
  }

  function Servers(c: Config, i: nat, n: nat): seq<IP>
    requires i <= n
    decreases n - i
  {
    if i == n then [] else Listing(ServerAt(c, i)) + Servers(c, i + 1, n)
  }

  lemma {:induction false} ServersAreRead(c: Config, i: nat, n: nat)
    requires 1 <= i <= n && n > |c| + 1
    ensures Servers(c, i, n) == if Listed(c, i) then ReadServers(c, i) else []
    decreases n - i
  {
    hide DNSKey, ParseIP;
    if Listed(c, i) { DNSKeysBounded(c, i - 1); }
    if i < n {
      ServersAreRead(c, i + 1, n);
      assert Listed(c, i + 1) <==> Listed(c, i) && DNSKey(i) in c;
      assert [] + Servers(c, i + 1, n) == Servers(c, i + 1, n);
    }
  }

  lemma {:induction false} ServersListedKept(a: Config, b: Config, i: nat, n: nat)
    requires 1 <= i <= n && ServersKept(a, b)
    ensures multiset(Servers(Merge(a, b), i, n)) == multiset(Servers(a, i, n)) + multiset(Servers(b, i, n))
    decreases n - i
  {
    hide ServerAt, Merge;
    if i < n {
      var m := Merge(a, b);
      ServersListedKept(a, b, i + 1, n);
      assert KeptOne(ServerAt(a, i), ServerAt(b, i), ServerAt(m, i));
      OneMoreKept(ServerAt(a, i), ServerAt(b, i), ServerAt(m, i), Servers(a, i + 1, n), Servers(b, i + 1, n), Servers(m, i + 1, n));
    }
  }

  // Resolvers that do not clash are all reported after any call that is not about them.
  lemma KeptServersAreReported(a: Config, b: Config, call: Call)
    requires NoServerClash(a, b) && !call.CallDNS?
    ensures multiset(ReadFiles(NOTHING, AfterCalls([a, b], [call])).names.servers) ==
            multiset(ReadFiles(NOTHING, [a, b]).names.servers)
  {
    var m, n := Merge(a, b), |a| + |b| + |Merge(a, b)| + 2;
    ServersKeptIff(a, b);
    AroundCall(a, b, call);
    assert Listed(a, 1) && Listed(b, 1) && Listed(m, 1);
    hide Listed, ReadFiles, AfterCalls, ReadServers, Merge, NoServerClash, ServersKept;
    ServersAreRead(a, 1, n);
    ServersAreRead(b, 1, n);
    ServersAreRead(m, 1, n);
    ServersListedKept(a, b, 1, n);
  }

  // Every key stands for a resolver, and none is behind a gap.
  ghost predicate OrderlyServers(c: Config) {
    forall i: nat | i >= 1 && DNSKey(i) in c :: Listed(c, i) && ParseIP(c[DNSKey(i)]).Some?
  }

  // The keys of an orderly file are numbered as its resolvers.
  lemma {:induction false} NumberedServers(c: Config, i: nat, j: nat)
    requires OrderlyServers(c) && 1 <= i <= j && Listed(c, i)
    ensures DNSKey(j) in c <==> j < i + |ReadServers(c, i)|
    decreases |c| + 1 - i
  {
    hide DNSKey, ParseIP;
    DNSKeysBounded(c, i - 1);
    if DNSKey(i) in c {
      DNSKeysBounded(c, i);
      assert Listed(c, i + 1);
      if j > i { NumberedServers(c, i + 1, j); }
    } else {
      assert Listed(c, j) ==> j <= i;
    }
  }

  lemma MergedServers(a: Config, b: Config)
    requires OrderlyServers(a) && OrderlyServers(b)
    ensures OrderlyServers(Merge(a, b))
    ensures var x, y, z := |ReadServers(a, 1)|, |ReadServers(b, 1)|, |ReadServers(Merge(a, b), 1)|; z == if x < y then y else x
    ensures ReadServers(b, 1) == [] ==> ReadServers(Merge(a, b), 1) == ReadServers(a, 1)
    ensures ReadServers(a, 1) == [] ==> ReadServers(Merge(a, b), 1) == ReadServers(b, 1)
  {
    var m, x, y := Merge(a, b), |ReadServers(a, 1)|, |ReadServers(b, 1)|;
    EmptyIsNoServer();
    assert Listed(a, 1) && Listed(b, 1) && Listed(m, 1);
    forall j: nat | j >= 1 ensures (DNSKey(j) in a <==> j <= x) && (DNSKey(j) in b <==> j <= y) {
      NumberedServers(a, 1, j);
      NumberedServers(b, 1, j);
    }
    assert OrderlyServers(m) by { hide DNSKey, ParseIP, ReadServers; }
    forall j: nat | j >= 1 ensures DNSKey(j) in m <==> j <= |ReadServers(m, 1)| { NumberedServers(m, 1, j); }
    hide ReadServers, ParseIP, OrderlyServers, Listed;
    LengthsMerged(a, b, x, y, |ReadServers(m, 1)|);
    if y == 0 { SameServers(a, b); }
    if x == 0 { SameServersAfter(a, b); }
  }

  lemma LengthsMerged(a: Config, b: Config, x: nat, y: nat, z: nat)
    requires forall j: nat | j >= 1 :: (DNSKey(j) in a <==> j <= x) && (DNSKey(j) in b <==> j <= y)
    requires forall j: nat | j >= 1 :: DNSKey(j) in Merge(a, b) <==> j <= z
    ensures z == if x < y then y else x
  {
    hide DNSKey;
    var w := if x < y then y else x;
    assert w >= 1 ==> DNSKey(w) in Merge(a, b);
    assert DNSKey(w + 1) !in Merge(a, b);
    assert z >= 1 ==> DNSKey(z) in Merge(a, b);
  }

  lemma SameServers(a: Config, b: Config)
    requires forall j: nat | j >= 1 :: DNSKey(j) !in b
    ensures ReadServers(Merge(a, b), 1) == ReadServers(a, 1)
  {
    FromOne(Merge(a, b), a, 1, |Merge(a, b)|);
  }

  lemma SameServersAfter(a: Config, b: Config)
    requires forall j: nat | j >= 1 :: DNSKey(j) !in a
    ensures ReadServers(Merge(a, b), 1) == ReadServers(b, 1)
  {
    FromOne(Merge(a, b), b, 1, |Merge(a, b)|);
  }

  lemma {:induction false} FromOne(a: Config, b: Config, idx: nat, bound: nat)
    requires forall j: nat | j >= 1 :: Same(a, b, DNSKey(j))
    requires 1 <= idx <= bound + 1 && bound == |a| && forall j :: 1 <= j < idx ==> DNSKey(j) in a && DNSKey(j) in b
    ensures ReadServers(a, idx) == ReadServers(b, idx)
    decreases bound + 1 - idx
  {
    hide DNSKey, ParseIP;
    assert Same(a, b, DNSKey(idx));
    if DNSKey(idx) in a {
      DNSKeysBounded(a, idx);
      FromOne(a, b, idx + 1, bound);
    }
  }

  function AllServers(files: seq<Config>): seq<IP> {
    if files == [] then [] else AllServers(files[..|files| - 1]) + ReadServers(files[|files| - 1], 1)
  }

  ghost predicate AtMostOneNames(files: seq<Config>) {
    forall i, j | 0 <= i < j < |files| :: ReadServers(files[i], 1) == [] || ReadServers(files[j], 1) == []
  }

  lemma {:induction false} FilesServers(files: seq<Config>)
    requires forall i: nat | i < |files| :: OrderlyServers(files[i])
    ensures var m := MergeAll(map[], files);
            && OrderlyServers(m) && |ReadServers(m, 1)| <= |AllServers(files)|
            && (ReadServers(m, 1) == [] <==> AllServers(files) == [])
            && (AtMostOneNames(files) ==> ReadServers(m, 1) == AllServers(files))
            && (!AtMostOneNames(files) ==> |ReadServers(m, 1)| < |AllServers(files)|)
    ensures AllServers(files) == [] <==> forall i: nat | i < |files| :: ReadServers(files[i], 1) == []
    decreases |files|
  {
    hide ReadServers, OrderlyServers, Merge;
    if files == [] {
      NoServers();
    } else {
      var n := |files| - 1;
      var front, last := files[..n], files[n];
      assert forall i: nat | i < n :: front[i] == files[i];
      FilesServers(front);
      MergeSnoc(map[], files);
      hide MergeAll, AtMostOneNames;
      var m := MergeAll(map[], front);
      MergedServers(m, last);
      OneNamesStep(files);
      ServersStep(AllServers(front), ReadServers(m, 1), ReadServers(last, 1), ReadServers(Merge(m, last), 1), AtMostOneNames(front));
    }
  }

  lemma ServersStep(all: seq<IP>, merged: seq<IP>, last: seq<IP>, after: seq<IP>, one: bool)
    requires |merged| <= |all| && (merged == [] <==> all == []) && (if one then merged == all else |merged| < |all|)
    requires |after| == if |merged| < |last| then |last| else |merged|
    requires (last == [] ==> after == merged) && (merged == [] ==> after == last)
    ensures |after| <= |all + last| && (after == [] <==> all + last == [])
    ensures if one && (last == [] || all == []) then after == all + last else |after| < |all + last|
  {}

  lemma NoServers()
    ensures OrderlyServers(map[]) && ReadServers(map[], 1) == []
  {}

  lemma OneNamesStep(files: seq<Config>)
    requires files != []
    ensures var n := |files| - 1;
            AtMostOneNames(files) <==>
            && AtMostOneNames(files[..n])
            && (ReadServers(files[n], 1) == [] || forall i: nat | i < n :: ReadServers(files[i], 1) == [])
  {
    var n := |files| - 1;
    hide AtMostOneNames, ReadServers;
    if AtMostOneNames(files) { OneNamesFront(files); }
    if AtMostOneNames(files[..n]) && (ReadServers(files[n], 1) == [] || forall i: nat | i < n :: ReadServers(files[i], 1) == []) {
      OneNamesMore(files);
    }
  }

  lemma OneNamesFront(files: seq<Config>)
    requires files != [] && AtMostOneNames(files)
    ensures var n := |files| - 1;
            && AtMostOneNames(files[..n])
            && (ReadServers(files[n], 1) == [] || forall i: nat | i < n :: ReadServers(files[i], 1) == [])
  {
    hide ReadServers;
    var n := |files| - 1;
    var front := files[..n];
    forall i, j | 0 <= i < j < n ensures ReadServers(front[i], 1) == [] || ReadServers(front[j], 1) == [] {
      assert ReadServers(files[i], 1) == [] || ReadServers(files[j], 1) == [];
    }
  }

  lemma OneNamesMore(files: seq<Config>)
    requires files != [] && AtMostOneNames(files[..|files| - 1])
    requires var n := |files| - 1; ReadServers(files[n], 1) == [] || forall i: nat | i < n :: ReadServers(files[i], 1) == []
    ensures AtMostOneNames(files)
  {
    hide ReadServers;
    var n := |files| - 1;
    var front := files[..n];
    forall i, j | 0 <= i < j < |files| ensures ReadServers(files[i], 1) == [] || ReadServers(files[j], 1) == [] {
      if j < n { assert ReadServers(front[i], 1) == [] || ReadServers(front[j], 1) == []; }
    }
  }

  lemma {:induction false} ServersRead(files: seq<Config>)
    ensures ReadFiles(NOTHING, files).names.servers == AllServers(files)
    decreases |files|
  {
    hide ReadAddresses, ReadServers, ReadDomains, ReadDHCP, ParseIP;
    if files != [] {
      ServersRead(files[..|files| - 1]);
      ReadSnoc(NOTHING, files);
    }
  }

  // Any number of files with orderly resolvers keep those reported through a call that is
  // not about them if and only if at most one has any.
  lemma OrderlyServersKeptIff(files: seq<Config>, call: Call)
    requires !call.CallDNS? && forall i: nat | i < |files| :: OrderlyServers(files[i])
    ensures ReadFiles(NOTHING, AfterCalls(files, [call])).names.servers == ReadFiles(NOTHING, files).names.servers
            <==> AtMostOneNames(files)
  {
    hide OrderlyServers, AtMostOneNames, MergeAll, Apply, AfterCalls, ReadFiles, ReadServers;
    var m := MergeAll(map[], files);
    FilesServers(files);
    ServersRead(files);
    OneCall(files, call);
    OneFile(Apply(m, call));
    KeepsServers(m, call);
  }

  lemma KeepsServers(c: Config, call: Call)
    requires !call.CallDNS?
    ensures DNSView(Apply(c, call)) == DNSView(c)
  {
    hide Apply, IsDNSKey, DNSView, AddressKey;
    OtherKinds(c, call);
    DNSViewFrame(Apply(c, call), c);
  }
}
