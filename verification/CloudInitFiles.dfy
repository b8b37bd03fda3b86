// cloudinit.go: the merge of newCloudInitWith and Save, which gathers the network
// configuration of several files into one of them.
module CloudInitFiles {
  import opened Text
  import opened Mergo

  datatype CiFile = CiFile(path: string, onlyNetwork: bool)

  type Disk = map<string, Doc>

  // ------------------------------------------------------ the network structure

  const PARTS: set<string> := {"renderer", "ethernets", "bridges", "bonds", "vlans", "config"}

  datatype NetworkData = Network(version: Value, parts: Doc)

  // What the structure wants a field to be: configs are a list, the renderer is a scalar,
  // and the others are tables.
  predicate Typed(k: string, v: Value) {
    if k == "config" then v.Items? else if k == "renderer" then v.Plain? else v.Table?
  }

  // The decoded structure: only known fields, none of them empty or of another type.
  type Network = n: NetworkData |
    n.version.Plain? && n.parts.Keys <= PARTS && forall k | k in n.parts :: !Empty(n.parts[k]) && Typed(k, n.parts[k])
    witness NetworkData.Network(Plain("0", true), map[])

  // A value that decodes without an error.
  predicate Decodes(v: Value) {
    && v.Table? && ("version" in v.entries ==> v.entries["version"].Plain?)
    && forall k | k in v.entries && k in PARTS :: Typed(k, v.entries[k])
  }

  function Decode(v: Value): Network {
    if v.Table? then
      NetworkData.Network(
        if "version" in v.entries && v.entries["version"].Plain? then v.entries["version"] else Plain("0", true),
        map k | k in v.entries && k in PARTS && !Empty(v.entries[k]) && Typed(k, v.entries[k]) :: v.entries[k])
    else NetworkData.Network(Plain("0", true), map[])
  }

  // The version is written even when it is zero.
  function Encode(n: Network): Value { Table(n.parts["version" := n.version]) }

  lemma DecodeEncode(n: Network)
    ensures Decode(Encode(n)) == n
    ensures !OnlyDisabled(Encode(n)) && Decodes(Encode(n))
  {
    assert Decode(Encode(n)).parts == n.parts;
  }

  // Without any interface configuration cloud-init counts as absent.
  predicate Usable(n: Network) { "ethernets" in n.parts || "config" in n.parts }

  // --------------------------------------------------------------------- loading

  // A network table that holds nothing but config: disabled.
  predicate OnlyDisabled(v: Value) {
    v.Table? && v.entries.Keys == {"config"} && v.entries["config"].Plain? && v.entries["config"].text == "disabled"
  }

  predicate HasNetwork(doc: Doc) { "network" in doc && !OnlyDisabled(doc["network"]) }

  predicate OnlyNetwork(doc: Doc) { doc.Keys <= {"network"} }

  predicate Present(paths: seq<string>, disk: Disk) { forall k: nat | k < |paths| :: paths[k] in disk }

  function Tracked(paths: seq<string>, disk: Disk): seq<CiFile>
    requires Present(paths, disk)
  {
    if paths == [] then []
    else if HasNetwork(disk[paths[0]]) then
      [CiFile(paths[0], OnlyNetwork(disk[paths[0]]))] + Tracked(paths[1..], disk)
    else Tracked(paths[1..], disk)
  }

  function MergeFile(merged: Option<Doc>, doc: Doc): Option<Doc> {
    if merged.None? then Some(doc) else Some(MergeDoc(merged.value, doc))
  }

  function MergeFiles(merged: Option<Doc>, paths: seq<string>, disk: Disk): Option<Doc>
    requires Present(paths, disk)
    decreases |paths|
  {
    if paths == [] then merged
    else if HasNetwork(disk[paths[0]]) then MergeFiles(MergeFile(merged, disk[paths[0]]), paths[1..], disk)
    else MergeFiles(merged, paths[1..], disk)
  }

  function NetworkOf(merged: Option<Doc>): Network {
    if merged.Some? && "network" in merged.value then Decode(merged.value["network"])
    else NetworkData.Network(Plain("0", true), map[])
  }

  // The merged network decodes and has some interface configuration.
  predicate Opens(paths: seq<string>, disk: Disk)
    requires Present(paths, disk)
  {
    var merged := MergeFiles(None, paths, disk);
    && (merged.Some? && "network" in merged.value ==> Decodes(merged.value["network"]))
    && Usable(LoadedNetwork(paths, disk))
  }

  function LoadedNetwork(paths: seq<string>, disk: Disk): Network
    requires Present(paths, disk)
  {
    NetworkOf(MergeFiles(None, paths, disk))
  }

  // ---------------------------------------------------------------------- saving

  predicate IsTracked(files: seq<CiFile>, path: string) { exists k: nat | k < |files| :: files[k].path == path }

  // The first file that holds only network configuration, or else the first.
  function MainConfig(files: seq<CiFile>): string
    requires files != []
  {
    if exists k: nat | k < |files| :: files[k].onlyNetwork then FirstOnly(files) else files[0].path
  }

  function FirstOnly(files: seq<CiFile>): string
    requires exists k: nat | k < |files| :: files[k].onlyNetwork
  {
    if files[0].onlyNetwork then files[0].path
    else
      assert exists k: nat | k < |files[1..]| :: files[1..][k].onlyNetwork by {
        var k: nat :| k < |files| && files[k].onlyNetwork;
        assert files[1..][k - 1].onlyNetwork;
      }
      FirstOnly(files[1..])
  }

  function SavedDoc(doc: Doc, isMain: bool, n: Network): Doc {
    if isMain then doc["network" := Encode(n)] else doc - {"network"}
  }

  function Saved(disk: Disk, files: seq<CiFile>, n: Network): Disk
    requires files != []
  {
    map p | p in disk :: if IsTracked(files, p) then SavedDoc(disk[p], p == MainConfig(files), n) else disk[p]
  }

  // Where a save fails: before the old file is moved away, or between that and moving the
  // new one in.
  datatype Fault = NoFault | FaultAt(k: nat, placing: bool)

  predicate StopsAt(disk: Disk, files: seq<CiFile>, fault: Fault, k: nat)
    requires k < |files|
  {
    files[k].path !in disk || (fault.FaultAt? && fault.k == k)
  }

  // The first file from i on that cannot be saved, or their number.
  function FirstStop(disk: Disk, files: seq<CiFile>, fault: Fault, i: nat): (k: nat)
    requires i <= |files|
    ensures i <= k <= |files| && (k < |files| ==> StopsAt(disk, files, fault, k))
    ensures forall j: nat | i <= j < k :: !StopsAt(disk, files, fault, j)
    decreases |files| - i
  {
    if i == |files| || StopsAt(disk, files, fault, i) then i else FirstStop(disk, files, fault, i + 1)
  }

  // The disk once the first k files are saved.
  function Partly(disk: Disk, files: seq<CiFile>, n: Network, k: nat): Disk
    requires files != [] && k <= |files|
  {
    map p | p in disk :: if IsTracked(files[..k], p) then SavedDoc(disk[p], p == MainConfig(files), n) else disk[p]
  }

  datatype Outcome = Outcome(ok: bool, disk: Disk)

  function SaveFiles(disk: Disk, files: seq<CiFile>, n: Network, fault: Fault): Outcome
    requires files != []
  {
    var k := FirstStop(disk, files, fault, 0);
    var part := Partly(disk, files, n, k);
    Outcome(k == |files|, if k < |files| && fault.FaultAt? && fault.k == k && fault.placing then part - {files[k].path} else part)
  }

  class CloudInit {
    var network: Network
    var configFiles: seq<CiFile>
    var disk: Disk

    // The loops of newCloudInitWith.
    constructor (paths: seq<string>, disk0: Disk)
      requires Present(paths, disk0)
      ensures disk == disk0 && configFiles == Tracked(paths, disk0) && network == LoadedNetwork(paths, disk0)
    {
      hide OnlyDisabled;
      var merged: Option<Doc>, files: seq<CiFile> := None, [];
      assert paths[0..] == paths;
      for i := 0 to |paths|
        invariant files + Tracked(paths[i..], disk0) == Tracked(paths, disk0)
        invariant MergeFiles(merged, paths[i..], disk0) == MergeFiles(None, paths, disk0)
      {
        var doc := disk0[paths[i]];
        assert paths[i..][0] == paths[i] && paths[i..][1..] == paths[i + 1..];
        if !HasNetwork(doc) { continue; }
        files := files + [CiFile(paths[i], OnlyNetwork(doc))];
        merged := MergeFile(merged, doc);
      }
      network := NetworkOf(merged);
      configFiles := files;
      disk := disk0;
    }

    // The files in turn. The first that is missing or fails ends it.
    method Save(fault: Fault) returns (ok: bool)
      requires configFiles != []
      modifies this`disk
      ensures Outcome(ok, disk) == SaveFiles(old(disk), configFiles, network, fault)
    {
      hide Encode, Empty, MainConfig, IsTracked, SaveFiles;
      ghost var disk0 := disk;
      var mainConfig := FindMain(configFiles);
      NoneTracked();
      assert configFiles[..0] == [];
      for i := 0 to |configFiles|
        invariant SavedUpTo(disk0, disk, configFiles[..i], mainConfig, network)
        invariant forall j: nat | j < i :: !StopsAt(disk0, configFiles, fault, j)
      {
        var path := configFiles[i].path;
        if path !in disk || fault == FaultAt(i, false) {
          StoppedThere(disk0, disk, configFiles, network, fault, i);
          return false;
        }
        if fault == FaultAt(i, true) {
          StoppedThere(disk0, disk, configFiles, network, fault, i);
          disk := disk - {path};
          return false;
        }
        SaveOne(disk0, disk, configFiles, i, mainConfig, network);
        var doc := if path == mainConfig then disk[path]["network" := Encode(network)] else disk[path] - {"network"};
        disk := disk[path := doc];
      }
      StoppedThere(disk0, disk, configFiles, network, fault, |configFiles|);
      ok := true;
    }
  }

  lemma StoppedThere(disk0: Disk, disk: Disk, files: seq<CiFile>, n: Network, fault: Fault, k: nat)
    requires files != [] && k <= |files| && SavedUpTo(disk0, disk, files[..k], MainConfig(files), n)
    requires k < |files| ==> StopsAt(disk0, files, fault, k)
    requires forall j: nat | j < k :: !StopsAt(disk0, files, fault, j)
    ensures SaveFiles(disk0, files, n, fault) ==
            Outcome(k == |files|, if k < |files| && fault.FaultAt? && fault.k == k && fault.placing then disk - {files[k].path} else disk)
  {
    hide SavedDoc, IsTracked, MainConfig;
    var first := FirstStop(disk0, files, fault, 0);
    assert first == k by { hide FirstStop, StopsAt; }
    assert Partly(disk0, files, n, k) == disk;
  }

  // newCloudInitWith, which fails when the merged network does not decode, or holds no
  // interface configuration.
  method OpenCloudInit(paths: seq<string>, disk: Disk) returns (ci: CloudInit?)
    requires Present(paths, disk)
    ensures ci == null <==> !Opens(paths, disk)
    ensures ci != null ==>
              fresh(ci) && ci.disk == disk && ci.configFiles == Tracked(paths, disk)
              && ci.network == LoadedNetwork(paths, disk) && ci.configFiles != []
  {
    var loaded := new CloudInit(paths, disk);
    if !Opens(paths, disk) { return null; }
    UsableIsTracked(paths, disk);
    return loaded;
  }

  // A file that disables the network next to other settings of it is tracked, but what it
  // decodes to is no list of configs.
  lemma DisabledAmongOthersFails(version: Value)
    requires version.Plain?
    ensures var network := Table(map["config" := Plain("disabled", false), "version" := version]);
            var paths, disk := ["10.cfg"], map["10.cfg" := map["network" := network]];
            Tracked(paths, disk) != [] && !Opens(paths, disk)
  {
    var network := Table(map["config" := Plain("disabled", false), "version" := version]);
    var paths, disk := ["10.cfg"], map["10.cfg" := map["network" := network]];
    assert "version" in network.entries && "config" in network.entries;
    assert HasNetwork(disk["10.cfg"]) && paths[1..] == [];
    assert MergeFiles(None, paths, disk) == MergeFiles(Some(disk["10.cfg"]), [], disk) == Some(disk["10.cfg"]);
    assert !Typed("config", network.entries["config"]);
  }

  // Files without a network load as none, so a directory that opens has one.
  lemma {:induction false} UsableIsTracked(paths: seq<string>, disk: Disk)
    requires Present(paths, disk) && Usable(LoadedNetwork(paths, disk))
    ensures Tracked(paths, disk) != []
  {
    hide OnlyDisabled;
    if Tracked(paths, disk) == [] { NothingTracked(paths, disk); }
  }

  lemma {:induction false} NothingTracked(paths: seq<string>, disk: Disk)
    requires Present(paths, disk) && Tracked(paths, disk) == []
    ensures MergeFiles(None, paths, disk) == None
  {
    hide HasNetwork;
    if paths != [] { NothingTracked(paths[1..], disk); }
  }

  // The disk once the given files are written.
  ghost predicate SavedUpTo(disk0: Disk, disk: Disk, files: seq<CiFile>, mainConfig: string, n: Network) {
    && disk.Keys == disk0.Keys
    && forall p | p in disk :: disk[p] == if IsTracked(files, p) then SavedDoc(disk0[p], p == mainConfig, n) else disk0[p]
  }

  lemma NoneTracked()
    ensures forall p :: !IsTracked([], p)
  {}

  lemma SaveOne(disk0: Disk, disk: Disk, files: seq<CiFile>, i: nat, mainConfig: string, n: Network)
    requires i < |files| && files[i].path in disk && SavedUpTo(disk0, disk, files[..i], mainConfig, n)
    ensures var path := files[i].path;
            SavedUpTo(disk0, disk[path := SavedDoc(disk[path], path == mainConfig, n)], files[..i + 1], mainConfig, n)
  {
    hide Encode, Empty, IsTracked, SavedDoc;
    var path := files[i].path;
    SavedTwice(disk0[path], path == mainConfig, n);
    forall p ensures IsTracked(files[..i + 1], p) <==> IsTracked(files[..i], p) || p == path {
      TrackedStep(files, i, p);
    }
  }

  lemma TrackedStep(files: seq<CiFile>, i: nat, p: string)
    requires i < |files|
    ensures IsTracked(files[..i + 1], p) <==> IsTracked(files[..i], p) || p == files[i].path
  {
    var a, b := files[..i + 1], files[..i];
    assert a[i] == files[i] && forall k: nat | k < i :: a[k] == b[k];
  }

  method FindMain(files: seq<CiFile>) returns (mainConfig: string)
    requires files != []
    ensures mainConfig == MainConfig(files)
  {
    for i := 0 to |files|
      invariant forall k: nat | k < i :: !files[k].onlyNetwork
    {
      if files[i].onlyNetwork {
        FirstOnlyAt(files, i);
        return files[i].path;
      }
    }
    return files[0].path;
  }

  lemma {:induction false} FirstOnlyAt(files: seq<CiFile>, i: nat)
    requires i < |files| && files[i].onlyNetwork && forall k: nat | k < i :: !files[k].onlyNetwork
    ensures FirstOnly(files) == files[i].path
  {
    if i > 0 { FirstOnlyAt(files[1..], i - 1); }
  }

  // ------------------------------------------------------------------- properties

  predicate IsMain(files: seq<CiFile>, k: nat) {
    && k < |files| && (files[k].onlyNetwork || (k == 0 && forall j: nat | j < |files| :: !files[j].onlyNetwork))
    && forall j: nat | j < k :: !files[j].onlyNetwork
  }

  lemma MainIsTracked(files: seq<CiFile>) returns (k: nat)
    requires files != []
    ensures IsMain(files, k) && files[k].path == MainConfig(files)
  {
    k := 0;
    if j: nat :| j < |files| && files[j].onlyNetwork {
      k := FirstIndex(files, j);
      FirstOnlyAt(files, k);
    }
  }

  lemma {:induction false} FirstIndex(files: seq<CiFile>, j: nat) returns (k: nat)
    requires j < |files| && files[j].onlyNetwork
    ensures k <= j && files[k].onlyNetwork && forall i: nat | i < k :: !files[i].onlyNetwork
  {
    k := 0;
    while !files[k].onlyNetwork
      invariant k <= j && forall i: nat | i < k :: !files[i].onlyNetwork
      decreases j - k
    {
      k := k + 1;
    }
  }

  // Exactly one of the tracked files holds the network value afterwards, every other
  // key of every file is as it was, and saving again changes nothing.
  lemma OneFileHoldsTheNetwork(disk: Disk, files: seq<CiFile>, n: Network)
    requires files != [] && forall k: nat | k < |files| :: files[k].path in disk
    ensures var after := Saved(disk, files, n);
            && after.Keys == disk.Keys
            && IsTracked(files, MainConfig(files)) && after[MainConfig(files)]["network"] == Encode(n)
            && (forall p | p in disk && IsTracked(files, p) && p != MainConfig(files) :: "network" !in after[p])
            && (forall p | p in disk && !IsTracked(files, p) :: after[p] == disk[p])
            && (forall p | p in disk :: after[p] - {"network"} == disk[p] - {"network"})
            && Saved(after, files, n) == after
  {
    var k := MainIsTracked(files);
    var after := Saved(disk, files, n);
    hide Encode, MainConfig;
    forall p | p in disk
      ensures after[p] - {"network"} == disk[p] - {"network"}
      ensures SavedDoc(SavedDoc(disk[p], p == MainConfig(files), n), p == MainConfig(files), n)
              == SavedDoc(disk[p], p == MainConfig(files), n)
    {
      SavedTwice(disk[p], p == MainConfig(files), n);
    }
    assert Saved(after, files, n).Keys == after.Keys;
  }

  lemma SavedTwice(doc: Doc, isMain: bool, n: Network)
    ensures SavedDoc(SavedDoc(doc, isMain, n), isMain, n) == SavedDoc(doc, isMain, n)
    ensures SavedDoc(doc, isMain, n) - {"network"} == doc - {"network"}
  {
    hide Encode;
  }

  predicate AllThere(disk: Disk, files: seq<CiFile>) { forall k: nat | k < |files| :: files[k].path in disk }

  // A save succeeds, and leaves what it should, if and only if every tracked file is
  // there and no file's save fails.
  lemma SaveSucceedsIff(disk: Disk, files: seq<CiFile>, n: Network, fault: Fault)
    requires files != []
    ensures var r := SaveFiles(disk, files, n, fault);
            && (r.ok <==> AllThere(disk, files) && (fault.NoFault? || fault.k >= |files|))
            && (r.ok ==> r.disk == Saved(disk, files, n))
  {
    var k := FirstStop(disk, files, fault, 0);
    if AllThere(disk, files) && fault.FaultAt? && fault.k < |files| { assert StopsAt(disk, files, fault, fault.k); }
    if j: nat :| j < |files| && files[j].path !in disk { assert StopsAt(disk, files, fault, j); }
    hide FirstStop, SavedDoc, IsTracked, MainConfig;
    assert files[..|files|] == files;
  }

  // A save makes a tracked file go missing if and only if it fails between two moves, and
  // with a file missing every save fails.
  lemma MissingAfterIff(disk: Disk, files: seq<CiFile>, n: Network, fault: Fault)
    requires files != []
    ensures var r := SaveFiles(disk, files, n, fault);
            && (AllThere(r.disk, files) <==>
                  AllThere(disk, files) && !(fault.FaultAt? && fault.k < |files| && fault.placing))
            && (!AllThere(disk, files) ==> !r.ok)
  {
    var r, k := SaveFiles(disk, files, n, fault), FirstStop(disk, files, fault, 0);
    SaveSucceedsIff(disk, files, n, fault);
    hide SavedDoc, IsTracked, MainConfig, Saved;
    assert Partly(disk, files, n, k).Keys == disk.Keys;
    if AllThere(disk, files) && fault.FaultAt? && fault.k < |files| {
      assert k == fault.k by { assert StopsAt(disk, files, fault, fault.k); }
    }
    hide FirstStop, Partly;
    if j: nat :| j < |files| && files[j].path !in disk { assert files[j].path !in r.disk; }
  }

  ghost predicate NetworkGone(disk: Disk, files: seq<CiFile>) {
    forall p | p in disk && IsTracked(files, p) :: "network" !in disk[p]
  }

  predicate DistinctFiles(files: seq<CiFile>) { forall i, j | 0 <= i < j < |files| :: files[i].path != files[j].path }

  predicate Holds(disk: Disk, path: string) { path in disk && "network" in disk[path] }

  // After a save no tracked file holds a network if and only if it did not get past the
  // main file, and none of the files from there on held one but that which was lost.
  lemma NetworkGoneIff(disk: Disk, files: seq<CiFile>, n: Network, fault: Fault)
    requires files != [] && DistinctFiles(files)
    ensures var k := FirstStop(disk, files, fault, 0);
            NetworkGone(SaveFiles(disk, files, n, fault).disk, files) <==>
            && (forall j: nat | j < k :: files[j].path != MainConfig(files))
            && forall j: nat | k <= j < |files| :: Holds(disk, files[j].path) ==> j == k && fault == FaultAt(k, true)
  {
    var after, k := SaveFiles(disk, files, n, fault).disk, FirstStop(disk, files, fault, 0);
    forall j: nat | j < |files|
      ensures IsTracked(files, files[j].path)
      ensures Holds(after, files[j].path) <==>
                if j < k then files[j].path == MainConfig(files)
                else Holds(disk, files[j].path) && !(j == k && fault == FaultAt(k, true))
    {
      OneAfter(disk, files, n, fault, j);
    }
    hide FirstStop, SaveFiles, MainConfig, StopsAt;
    forall p | IsTracked(files, p) ensures exists j: nat :: j < |files| && files[j].path == p {}
    assert NetworkGone(after, files) <==> forall j: nat | j < |files| :: !Holds(after, files[j].path);
    hide NetworkGone, IsTracked, Holds;
  }

  // A main file that holds a network, as it does from the first successful save on, keeps
  // one unless a save fails between its moves.
  lemma MainKeepsItIff(disk: Disk, files: seq<CiFile>, n: Network, fault: Fault, m: nat)
    requires files != [] && DistinctFiles(files) && AllThere(disk, files)
    requires IsMain(files, m) && Holds(disk, files[m].path)
    ensures Holds(SaveFiles(disk, files, n, fault).disk, files[m].path) <==> fault != FaultAt(m, true)
  {
    MainIs(files, m);
    StopsAtFault(disk, files, fault);
    OneAfter(disk, files, n, fault, m);
    hide FirstStop, SaveFiles, MainConfig, StopsAt;
  }

  // Then no network is left if and only if that happens and no later file holds one.
  lemma LosesTheNetworkIff(disk: Disk, files: seq<CiFile>, n: Network, fault: Fault, m: nat)
    requires files != [] && DistinctFiles(files) && AllThere(disk, files)
    requires IsMain(files, m) && Holds(disk, files[m].path)
    ensures NetworkGone(SaveFiles(disk, files, n, fault).disk, files) <==>
              fault == FaultAt(m, true) && forall j: nat | m < j < |files| :: !Holds(disk, files[j].path)
  {
    MainIs(files, m);
    StopsAtFault(disk, files, fault);
    NetworkGoneIff(disk, files, n, fault);
    hide FirstStop, SaveFiles, MainConfig, StopsAt, NetworkGone, Holds;
    forall j: nat | j < |files| && j != m ensures files[j].path != files[m].path {
      if j < m { assert files[j].path != files[m].path; } else { assert files[m].path != files[j].path; }
    }
  }

  lemma MainIs(files: seq<CiFile>, m: nat)
    requires files != [] && IsMain(files, m)
    ensures files[m].path == MainConfig(files)
  {
    if files[m].onlyNetwork { FirstOnlyAt(files, m); }
  }

  lemma StopsAtFault(disk: Disk, files: seq<CiFile>, fault: Fault)
    requires AllThere(disk, files)
    ensures FirstStop(disk, files, fault, 0) == if fault.FaultAt? && fault.k < |files| then fault.k else |files|
  {
    if fault.FaultAt? && fault.k < |files| { assert StopsAt(disk, files, fault, fault.k); }
    hide FirstStop;
  }

  // What a save does to the j-th file.
  ghost predicate FileAfter(disk: Disk, files: seq<CiFile>, n: Network, fault: Fault, j: nat, after: Disk)
    requires j < |files|
  {
    var p, k := files[j].path, FirstStop(disk, files, fault, 0);
    if j < k then p in after && ("network" in after[p] <==> p == MainConfig(files))
    else if j == k && fault == FaultAt(k, true) then p !in after
    else (p in after <==> p in disk) && (p in after ==> after[p] == disk[p])
  }

  lemma OneAfter(disk: Disk, files: seq<CiFile>, n: Network, fault: Fault, j: nat)
    requires files != [] && DistinctFiles(files) && j < |files|
    ensures FileAfter(disk, files, n, fault, j, SaveFiles(disk, files, n, fault).disk)
  {
    var p, k := files[j].path, FirstStop(disk, files, fault, 0);
    assert IsTracked(files[..k], p) <==> j < k by {
      if j < k { assert files[..k][j].path == p; }
    }
    assert j < k ==> !StopsAt(disk, files, fault, j);
    hide FirstStop, MainConfig, Encode, IsTracked;
  }

  // Two files of which the second is the main one, and the save that loses both networks.
  lemma TwoFilesLoseTheNetwork(a: Doc, b: Doc, n: Network)
    requires "network" in a && "network" in b
    ensures var files, disk := [CiFile("10.cfg", false), CiFile("20.cfg", true)], map["10.cfg" := a, "20.cfg" := b];
            NetworkGone(SaveFiles(disk, files, n, FaultAt(1, true)).disk, files) && !NetworkGone(disk, files)
  {
    var files, disk := [CiFile("10.cfg", false), CiFile("20.cfg", true)], map["10.cfg" := a, "20.cfg" := b];
    assert "10.cfg"[0] != "20.cfg"[0];
    assert disk[files[0].path] == a && disk[files[1].path] == b;
    assert IsTracked(files, files[0].path) && !files[0].onlyNetwork && files[1].onlyNetwork;
    FirstOnlyAt(files, 1);
    hide SaveFiles, FirstOnly, MainConfig;
    LosesTheNetworkIff(disk, files, n, FaultAt(1, true), 1);
  }

  // Two files of which the first is the main one: after a save that succeeds it alone holds
  // the network, and a second save that fails between its moves loses it.
  lemma SecondSaveLosesTheNetwork(a: Doc, b: Doc, n: Network, again: Network)
    ensures var files, disk := [CiFile("10.cfg", true), CiFile("20.cfg", true)], map["10.cfg" := a, "20.cfg" := b];
            var once := SaveFiles(disk, files, n, NoFault);
            && once.ok && Holds(once.disk, "10.cfg")
            && NetworkGone(SaveFiles(once.disk, files, again, FaultAt(0, true)).disk, files)
  {
    var files, disk := [CiFile("10.cfg", true), CiFile("20.cfg", true)], map["10.cfg" := a, "20.cfg" := b];
    assert "10.cfg"[0] != "20.cfg"[0];
    assert files[0].path in disk && files[1].path in disk && IsMain(files, 0) && AllThere(disk, files);
    var once := SaveFiles(disk, files, n, NoFault);
    MainIs(files, 0);
    SaveSucceedsIff(disk, files, n, NoFault);
    MissingAfterIff(disk, files, n, NoFault);
    StopsAtFault(disk, files, NoFault);
    OneAfter(disk, files, n, NoFault, 0);
    OneAfter(disk, files, n, NoFault, 1);
    hide SaveFiles, MainConfig, Saved, FirstStop;
    LosesTheNetworkIff(once.disk, files, again, FaultAt(0, true), 0);
  }

  predicate Distinct(paths: seq<string>) { forall i, j | 0 <= i < j < |paths| :: paths[i] != paths[j] }

  lemma {:induction false} TrackedMeaning(paths: seq<string>, disk: Disk, p: string)
    requires Present(paths, disk)
    ensures IsTracked(Tracked(paths, disk), p) <==> p in paths && HasNetwork(disk[p])
    ensures forall k: nat | k < |Tracked(paths, disk)| ::
              var f := Tracked(paths, disk)[k];
              f.path in paths && f.path in disk && f.onlyNetwork == OnlyNetwork(disk[f.path])
  {
    hide HasNetwork, OnlyNetwork;
    if paths != [] {
      TrackedMeaning(paths[1..], disk, p);
      var files, rest := Tracked(paths, disk), Tracked(paths[1..], disk);
      assert p in paths <==> p == paths[0] || p in paths[1..];
      if files != rest {
        assert files[0].path == paths[0] && forall k: nat | k < |rest| :: files[k + 1] == rest[k];
        assert forall k: nat | 0 < k < |files| :: files[k] == rest[k - 1];
      }
    }
  }

  // When a single file has a network, loading finds it and decodes its value.
  lemma {:induction false} LoadOne(paths: seq<string>, disk: Disk, p: string)
    requires Present(paths, disk) && Distinct(paths) && p in paths && HasNetwork(disk[p])
    requires forall k: nat | k < |paths| && paths[k] != p :: !HasNetwork(disk[paths[k]])
    ensures Tracked(paths, disk) == [CiFile(p, OnlyNetwork(disk[p]))]
    ensures MergeFiles(None, paths, disk) == Some(disk[p])
  {
    hide HasNetwork, OnlyNetwork;
    if paths[0] == p {
      assert forall k: nat | k < |paths[1..]| :: paths[1..][k] == paths[k + 1] && paths[k + 1] != paths[0];
      LoadNone(paths[1..], disk, Some(disk[p]));
    } else {
      LoadOne(paths[1..], disk, p);
    }
  }

  lemma {:induction false} LoadNone(paths: seq<string>, disk: Disk, merged: Option<Doc>)
    requires Present(paths, disk) && forall k: nat | k < |paths| :: !HasNetwork(disk[paths[k]])
    ensures Tracked(paths, disk) == [] && MergeFiles(merged, paths, disk) == merged
  {
    hide HasNetwork, OnlyNetwork;
    if paths != [] { LoadNone(paths[1..], disk, merged); }
  }

  // Reloading after Save tracks one file, gives the network that was saved, whatever
  // changes were made to it meanwhile, and saving from there changes nothing.
  lemma ReloadAfterSave(paths: seq<string>, disk: Disk, n: Network)
    requires Present(paths, disk) && Distinct(paths) && Tracked(paths, disk) != []
    ensures var files := Tracked(paths, disk);
            var after := Saved(disk, files, n);
            && Present(paths, after)
            && |Tracked(paths, after)| == 1 && Tracked(paths, after)[0].path == MainConfig(files)
            && LoadedNetwork(paths, after) == n && (Opens(paths, after) <==> Usable(n))
            && Saved(after, Tracked(paths, after), n) == after
  {
    var files := Tracked(paths, disk);
    var main, after := MainConfig(files), Saved(disk, files, n);
    TrackedMeaning(paths, disk, main);
    OneFileHoldsTheNetwork(disk, files, n);
    DecodeEncode(n);
    hide Encode, MainConfig, OnlyDisabled, Decode;
    forall k: nat | k < |paths| && paths[k] != main ensures !HasNetwork(after[paths[k]]) {
      TrackedMeaning(paths, disk, paths[k]);
    }
    LoadOne(paths, after, main);
    var again := Tracked(paths, after);
    hide SavedDoc, HasNetwork, OnlyNetwork;
    var k := MainIsTracked(again);
    forall p | p in after ensures Saved(after, again, n)[p] == after[p] {
      assert IsTracked(again, p) <==> again[0].path == p;
      SavedTwice(disk[main], true, n);
    }
  }
}
