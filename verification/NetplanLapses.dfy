// netplan.go: runs that lose something. Each starts by opening a small directory.
module NetplanLapses {
  import opened Text
  import opened Sorting
  import opened Mergo
  import opened NetplanLoader
  import opened NetplanLoaded
  import opened NetplanDocument
  import opened NetplanLifecycle
  import opened NetplanSaving
  import opened NetplanRuns
  import opened Retention

  // ---------------------------------------------------------------------- the names

  lemma {:induction false} PrefixIsLess(a: string, more: string)
    requires more != []
    ensures StringLess(a, a + more)
  {
    if a != [] {
      assert (a + more)[1..] == a[1..] + more;
      PrefixIsLess(a[1..], more);
    }
  }

  lemma LookalikeNames()
    ensures IsYaml("a.yaml") && IsYaml("a.yaml.bak.yaml") && StringLess("a.yaml", "a.yaml.bak.yaml")
    ensures SuffixMatcher("a.yaml").Matches("a.yaml.bak.yaml")
  {
    hide *;
    assert "a" + ".yaml" == "a.yaml";
    YamlName("a");
    assert "a.yaml.bak" + ".yaml" == "a.yaml.bak.yaml";
    YamlName("a.yaml.bak");
    assert "a.yaml" + ".bak." + "yaml" == "a.yaml.bak.yaml";
    BackupName("a.yaml", "yaml");
    assert "a.yaml" + ".bak.yaml" == "a.yaml.bak.yaml";
    PrefixIsLess("a.yaml", ".bak.yaml");
  }

  lemma YamlName(stem: string)
    ensures IsYaml(stem + ".yaml")
  {
    var name := stem + ".yaml";
    assert name[|name| - 5..] == ".yaml";
  }

  lemma BackupName(base: string, rest: string)
    ensures SuffixMatcher(base).Matches(base + ".bak." + rest)
  {
    var name := base + ".bak." + rest;
    assert name[..|base + ".bak."|] == base + ".bak.";
  }

  // -------------------------------------------------------------------- directories

  const ON: Change := SetDHCP(true, false)

  // A file that holds one ethernet interface without settings.
  function Table(iface: string): Option<Sections> { Some(map["ethernets" := map[iface := map[]]]) }

  function Ethernet(iface: string): Network { Network(map[iface := map[]], map[], map[], map[], map[]) }

  function FileWith(iface: string, routes: nat, mtime: int): Stored { Stored(Content(Table(iface), routes), mtime, false) }

  lemma TableDecodes(iface: string)
    ensures Decode(Table(iface)) == Ethernet(iface) && DecodableTable(Table(iface))
    ensures forall t | t in CONFIG_TYPES :: Sec(Table(iface), t) == if t == "ethernets" then map[iface := map[]] else map[]
  {
    assert "wifis"[0] == 'w' && "vlans"[0] == 'v' && "bonds"[0] == 'b' && "bridges"[0] == 'b' && "routes"[0] == 'r';
  }

  lemma TableLoads(files: seq<NpFile>, loaded: seq<NpConfig>, i: nat, iface: string)
    requires Loaded(files, loaded) && i < |files| && !Shares(files, i) && files[i].network == Table(iface)
    ensures Converted(loaded[i]) == Config(files[i].file, Ethernet(iface), false, false)
  {
    UnsharedFileLoadsClean(files, loaded, i);
    TableDecodes(iface);
    assert LoadedAt(files, i, loaded[i]);
    hide Shares, Kept, MergedEntry, Decode, Table;
    assert "ethernets" == CONFIG_TYPES[0] && iface in Sec(loaded[i].network, "ethernets");
  }

  lemma MarksOwnOnly(iface: string, other: string, change: Change)
    ensures Concerns(Ethernet(iface), other) <==> iface == other
  {
    assert Ethernet(iface).ethernets[iface] == map[];
  }

  // Files that define one interface each, all different, load as they are.
  ghost predicate OneEach(names: seq<string>, disk: Disk, ifaces: seq<string>) {
    && |ifaces| == |names| && (forall i, j | 0 <= i < j < |ifaces| :: ifaces[i] != ifaces[j])
    && forall k: nat | k < |names| :: names[k] in disk && disk[names[k]].content.network == Table(ifaces[k])
  }

  lemma OneEachLoads(names: seq<string>, disk: Disk, ifaces: seq<string>, loaded: seq<NpConfig>, k: nat)
    requires OneEach(names, disk, ifaces) && k < |names| && Loaded(Files(names, disk), loaded)
    ensures Converted(loaded[k]) == Config(names[k], Ethernet(ifaces[k]), false, false)
  {
    var files := Files(names, disk);
    forall j: nat | j < |files| ensures files[j].network == Table(ifaces[j]) {
      assert files[j] == FileAt(disk, names[j]);
    }
    forall j: nat, t | j < |files| && t in CONFIG_TYPES
      ensures Sec(files[j].network, t) == if t == "ethernets" then map[ifaces[j] := map[]] else map[]
    {
      TableDecodes(ifaces[j]);
    }
    hide Loaded, Table;
    assert !Shares(files, k);
    TableLoads(files, loaded, k, ifaces[k]);
  }

  const CALM: Env := Env(NoFault, 0, 0, 0, {})

  // Everything goes well but for one fault at one file.
  function FaultAt(file: string, fault: Fault): Envs { (f: string) => if f == file then CALM.(fault := fault) else CALM }

  lemma SmallNames()
    ensures IsYaml("a.yaml") && IsYaml("b.yaml") && IsYaml("c.yaml")
    ensures StringLess("a.yaml", "b.yaml") && StringLess("b.yaml", "c.yaml") && StringLess("a.yaml", "c.yaml")
    ensures forall a, b | a in ["a.yaml", "b.yaml", "c.yaml"] && b in ["a.yaml", "b.yaml", "c.yaml"] ::
              !SuffixMatcher(a).Matches(b)
  {
    assert "a" + ".yaml" == "a.yaml" && "b" + ".yaml" == "b.yaml" && "c" + ".yaml" == "c.yaml";
    YamlName("a");
    YamlName("b");
    YamlName("c");
  }

  // ------------------------------------------------------------- a file that is lost

  function OneFile(routes: nat): Disk { map["a.yaml" := FileWith("eth0", routes, 1)] }

  lemma OneFileOpens(routes: nat, loaded: seq<NpConfig>)
    requires ["a.yaml"][0] in OneFile(routes) && Loaded(Files(["a.yaml"], OneFile(routes)), loaded)
    ensures YamlFiles(["a.yaml"], OneFile(routes)) && Valid(Opened(loaded, OneFile(routes)))
    ensures Opened(loaded, OneFile(routes)).configs == [Config("a.yaml", Ethernet("eth0"), false, false)]
  {
    var names, disk := ["a.yaml"], OneFile(routes);
    SmallNames();
    LoadedLength(Files(names, disk), loaded);
    OneEachLoads(names, disk, ["eth0"], loaded, 0);
    TableDecodes("eth0");
    DecodableStays(Files(names, disk), loaded);
    hide Loaded, IsYaml, Matcher.Matches, StringLess, Ethernet, Table, Valid;
    OpenedValid(names, disk, loaded);
  }

  // The first move of a save succeeds and the second fails: the file is gone, and a
  // second call fails although nothing goes wrong any more.
  lemma FailedMoveSticks(loaded: seq<NpConfig>, keep: int)
    requires Loaded(Files(["a.yaml"], OneFile(0)), loaded)
    ensures var s := Opened(loaded, OneFile(0));
            var broken, calm := Call("eth0", ON, FaultAt("a.yaml", PlaceFault)), Call("eth0", ON, _ => CALM);
            var after := CallOn(s, broken, keep).after;
            && !Stuck(s) && Stuck(after) && "a.yaml" in s.disk && "a.yaml" !in after.disk
            && CallOn(s, calm, keep).ok && !CallOn(after, calm, keep).ok
  {
    var s := Opened(loaded, OneFile(0));
    var broken, calm := Call("eth0", ON, FaultAt("a.yaml", PlaceFault)), Call("eth0", ON, _ => CALM);
    OneFileOpens(0, loaded);
    MarksOwnOnly("eth0", "eth0", ON);
    hide Valid, Ethernet, Opened, Concerns, CallOn, Stuck;
    NobodyWaits(s);
    PlaceFaultLoses(s, broken, keep);
    StuckAfterCallIff(CallOn(s, broken, keep).after, calm, keep);
    CalmCallSucceedsIff(s, calm, keep);
  }

  lemma NobodyWaits(s: State)
    requires forall i: nat | i < |s.configs| :: !s.configs[i].dirty
    ensures !Stuck(s)
  {}

  // In general: the file of a lone config is lost when its new version cannot be placed.
  lemma PlaceFaultLoses(s: State, call: Call, keep: int)
    requires Valid(s) && |s.configs| == 1 && !s.configs[0].empty && Concerns(s.configs[0].network, call.iface)
    requires s.configs[0].file in s.disk && call.envs(s.configs[0].file).fault.PlaceFault?
    ensures var after := CallOn(s, call, keep).after;
            Valid(after) && Stuck(after) && s.configs[0].file !in after.disk
  {
    var m := Mark(s, call.iface, call.change);
    CallPromises(s, call, keep);
    MarkKeeps(s, call.iface, call.change);
    hide SeparateKinds, EmptyIsEmpty, Changed, Concerns, Complete, Stuck, Calm;
    StopsWhen(m, call.envs, keep, 0);
    hide TidyNames, StopsAt;
    FirstStopIs(m, call.envs, keep, 0);
    OwnFileAfter(m, call.envs, keep, 0);
    WaitsAfter(m, call.envs, keep, 0);
    StuckAfterCallIff(s, call, keep);
    hide FirstStop, DiskAfter, SaveAll, OwnFileSaved;
  }

  // ------------------------------------------------------- an emptied file before a fault

  const THREE: seq<string> := ["a.yaml", "b.yaml", "c.yaml"]

  function ThreeFiles(): Disk {
    map["a.yaml" := FileWith("eth0", 0, 1), "b.yaml" := FileWith("eth0", 0, 1), "c.yaml" := FileWith("eth1", 0, 1)]
  }

  function ThreeTables(): (files: seq<NpFile>)
    ensures files == Files(THREE, ThreeFiles())
  {
    [NpFile("a.yaml", Table("eth0"), 0), NpFile("b.yaml", Table("eth0"), 0), NpFile("c.yaml", Table("eth1"), 0)]
  }

  // The second file's only entry is already defined by the first.
  lemma SecondIsEmptied(loaded: seq<NpConfig>)
    requires Loaded(ThreeTables(), loaded)
    ensures loaded[1].file == "b.yaml" && loaded[1].dirty && loaded[1].empty
  {
    hide MergedEntry;
    var files := ThreeTables();
    TableDecodes("eth0");
    assert "ethernets" == CONFIG_TYPES[0];
    hide Table;
    assert LoadedAt(files, 1, loaded[1]);
    assert Shared(files, 1, 0, "ethernets", "eth0");
    forall t | t in CONFIG_TYPES ensures Sec(loaded[1].network, t) == map[] {
      assert files[..1][0] == files[0];
      assert forall k | k in Sec(files[1].network, t) :: Has(files[..1][0].network, t, k);
    }
  }

  lemma ThirdIsItsOwn(loaded: seq<NpConfig>)
    requires Loaded(ThreeTables(), loaded)
    ensures Converted(loaded[2]) == Config("c.yaml", Ethernet("eth1"), false, false)
  {
    var files := ThreeTables();
    TableDecodes("eth0");
    TableDecodes("eth1");
    hide Table, Loaded;
    assert !Shares(files, 2);
    TableLoads(files, loaded, 2, "eth1");
  }

  lemma ThreeFilesOpen(loaded: seq<NpConfig>)
    requires Loaded(ThreeTables(), loaded)
    ensures YamlFiles(THREE, ThreeFiles()) && Valid(Opened(loaded, ThreeFiles()))
    ensures FileNames(Opened(loaded, ThreeFiles()).configs) == THREE
  {
    hide *;
    ThreeNames();
    ThreeDecode(loaded);
    OpenedValid(THREE, ThreeFiles(), loaded);
    OpenedComplete(THREE, ThreeFiles(), loaded);
    assert Opened(loaded, ThreeFiles()).configs == AllConverted(loaded) by { OpenedConfigs(loaded, ThreeFiles()); }
  }

  lemma OpenedConfigs(loaded: seq<NpConfig>, disk: Disk)
    ensures Opened(loaded, disk) == State(AllConverted(loaded), disk)
  {
    hide AllConverted;
  }

  lemma ThreeNames()
    ensures YamlFiles(THREE, ThreeFiles()) && NoLookalikes(THREE)
  {
    SmallNames();
    hide IsYaml, StringLess, Matcher.Matches, FileWith;
    assert forall n :: n in THREE <==> n == "a.yaml" || n == "b.yaml" || n == "c.yaml";
    assert !ThreeFiles()["a.yaml"].isDir && !ThreeFiles()["b.yaml"].isDir && !ThreeFiles()["c.yaml"].isDir by {
      FileIsPlain("eth0");
      FileIsPlain("eth1");
    }
  }

  lemma FileIsPlain(iface: string)
    ensures !FileWith(iface, 0, 1).isDir
  {}

  lemma ThreeDecode(loaded: seq<NpConfig>)
    requires Loaded(ThreeTables(), loaded)
    ensures forall k: nat | k < |loaded| :: Decodable(loaded[k])
  {
    LoadedLength(ThreeTables(), loaded);
    TableDecodes("eth0");
    TableDecodes("eth1");
    hide Loaded, Table, Decode, Decodable, DecodableTable;
    DecodableStays(ThreeTables(), loaded);
  }

  // A save removes the emptied second file and fails on the third: the second config
  // stays dirty, and every later call fails on it.
  lemma EmptiedFileSticks(loaded: seq<NpConfig>, keep: int)
    requires Loaded(ThreeTables(), loaded)
    ensures var s := Opened(loaded, ThreeFiles());
            var broken, calm := Call("eth1", ON, FaultAt("c.yaml", BackupFault)), Call("eth1", ON, _ => CALM);
            var after := CallOn(s, broken, keep).after;
            !Stuck(s) && Stuck(after) && CallOn(s, calm, keep).ok && !CallOn(after, calm, keep).ok
  {
    var s := Opened(loaded, ThreeFiles());
    var broken, calm := Call("eth1", ON, FaultAt("c.yaml", BackupFault)), Call("eth1", ON, _ => CALM);
    ThreeConfigs(loaded);
    hide *;
    NoneMissing(s);
    ThirdFaultSticks(s, broken, keep);
    CallPromises(s, broken, keep);
    StuckAfterCallIff(s, broken, keep);
    StuckAfterCallIff(CallOn(s, broken, keep).after, calm, keep);
    assert Calm(calm) by { AllCalm(calm); }
    CalmCallSucceedsIff(s, calm, keep);
  }

  lemma AllCalm(call: Call)
    requires forall file :: call.envs(file) == CALM
    ensures Calm(call)
  {}

  lemma ThreeConfigs(loaded: seq<NpConfig>)
    requires Loaded(ThreeTables(), loaded)
    ensures var s := Opened(loaded, ThreeFiles());
            && Valid(s) && |s.configs| == 3 && (forall i: nat | i < 3 :: s.configs[i].file in s.disk)
            && s.configs[0].file == "a.yaml" && s.configs[1].file == "b.yaml" && s.configs[2].file == "c.yaml"
            && Removed(s.configs[1]) && !s.configs[2].empty && Concerns(s.configs[2].network, "eth1")
  {
    var s := Opened(loaded, ThreeFiles());
    ThreeFilesOpen(loaded);
    SecondIsEmptied(loaded);
    ThirdIsItsOwn(loaded);
    MarksOwnOnly("eth1", "eth1", ON);
    hide Valid, Ethernet, Concerns, Complete, YamlFiles, Loaded, Decode;
    forall i: nat | i < 3 ensures s.configs[i].file == THREE[i] {
      assert FileNames(s.configs)[i] == s.configs[i].file;
    }
    assert s.configs[1] == Converted(loaded[1]) && s.configs[2] == Converted(loaded[2]);
  }

  lemma NoneMissing(s: State)
    requires forall i: nat | i < |s.configs| :: s.configs[i].file in s.disk
    ensures !Stuck(s)
  {}

  lemma ThirdFaultSticks(s: State, call: Call, keep: int)
    requires Valid(s) && |s.configs| == 3 && forall i: nat | i < 3 :: s.configs[i].file in s.disk
    requires Removed(s.configs[1]) && !s.configs[2].empty && Concerns(s.configs[2].network, call.iface)
    requires call.envs(s.configs[0].file).fault.NoFault? && call.envs(s.configs[1].file).fault.NoFault?
    requires call.envs(s.configs[2].file).fault.BackupFault?
    ensures Jams(s, call, keep)
  {
    var m := Mark(s, call.iface, call.change);
    MarkKeeps(s, call.iface, call.change);
    hide SeparateKinds, EmptyIsEmpty, Changed, Concerns, Complete, Stuck;
    StopsWhen(m, call.envs, keep, 0);
    StopsWhen(m, call.envs, keep, 1);
    StopsWhen(m, call.envs, keep, 2);
    hide TidyNames, StopsAt;
    forall j: nat | j < 2 ensures !StopsAt(m, call.envs, keep, j) {}
    FirstStopIs(m, call.envs, keep, 2);
    hide FirstStop, DiskAfter, SaveAll;
    assert Removed(m.configs[1]);
  }

  // ------------------------------------------------------------- top-level routes

  // A call that succeeds takes the top-level route out of the file it writes.
  lemma RouteIsLost(loaded: seq<NpConfig>, keep: int)
    requires Loaded(Files(["a.yaml"], OneFile(1)), loaded)
    ensures var s, call := Opened(loaded, OneFile(1)), Call("eth0", ON, _ => CALM);
            var r := CallOn(s, call, keep);
            && r.ok && s.disk["a.yaml"].content.routes == 1
            && "a.yaml" in r.after.disk && r.after.disk["a.yaml"].content.routes == 0
  {
    var s, call := Opened(loaded, OneFile(1)), Call("eth0", ON, _ => CALM);
    OneFileOpens(1, loaded);
    MarksOwnOnly("eth0", "eth0", ON);
    var m := Mark(s, "eth0", ON);
    assert m.configs[0].file == "a.yaml" && m.configs[0].dirty && !m.configs[0].empty;
    hide Valid, Ethernet, Opened, Changed, Concerns, Stuck;
    NobodyWaits(s);
    CalmCallSucceedsIff(s, call, keep);
    MarkKeeps(s, "eth0", ON);
    ValidIsTidy(m);
    OwnFileAfter(m, call.envs, keep, 0);
    hide SaveAll, TidyNames, Encode;
  }

  // ---------------------------------------------------------- a file named like a backup

  const TWO: seq<string> := ["a.yaml", "a.yaml.bak.yaml"]

  function TwoFiles(): Disk { map["a.yaml" := FileWith("eth0", 0, 1), "a.yaml.bak.yaml" := FileWith("eth1", 0, 0)] }

  lemma TwoFilesOpen(loaded: seq<NpConfig>)
    requires TWO[0] in TwoFiles() && TWO[1] in TwoFiles() && Loaded(Files(TWO, TwoFiles()), loaded)
    ensures YamlFiles(TWO, TwoFiles()) && !NoLookalikes(TWO) && AllDecodable(Files(TWO, TwoFiles()))
    ensures TwoConfigs(Opened(loaded, TwoFiles()))
  {
    LookalikeNames();
    TableDecodes("eth0");
    TableDecodes("eth1");
    hide Loaded, IsYaml, Matcher.Matches, StringLess, Ethernet, Table;
    var ifaces := ["eth0", "eth1"];
    assert OneEach(TWO, TwoFiles(), ifaces);
    LoadedLength(Files(TWO, TwoFiles()), loaded);
    OneEachLoads(TWO, TwoFiles(), ifaces, loaded, 0);
    OneEachLoads(TWO, TwoFiles(), ifaces, loaded, 1);
    assert SuffixMatcher(TWO[0]).Matches(TWO[1]);
  }

  // In general: where one backup is kept, an older file named like one goes.
  lemma PrunesLookalike(disk: Disk, c: Config, e: Env, name: string)
    requires Saves(disk, c, e) && name in disk && !disk[name].isDir && !disk[c.file].isDir && name !in e.stubborn
    requires SuffixMatcher(c.file).Matches(name) && IsYaml(name) && disk[name].mtime < disk[c.file].mtime
    ensures Prunes(disk, c, e, 1, name)
  {
    StampedNames(c.file, e.tmpStamp, e.bakStamp);
    var bak := Stamped(c.file, ".bak.", e.bakStamp);
    hide IsYaml, Matcher.Matches, Stamped, Touches;
    var dir := Listing(disk[bak := disk[c.file]]);
    var all, older, made := Matching(dir, SuffixMatcher(c.file)), Backup(name, disk[name].mtime),
      Backup(bak, disk[c.file].mtime);
    assert made in NewerOnes(all, older);
    SizeFromMember(NewerOnes(all, older), made);
  }

  lemma SizeFromMember<T>(s: set<T>, x: T)
    requires x in s
    ensures |s| >= 1
  {}

  // A call succeeds that keeps one backup, and a clean config's file is gone: it was
  // taken for an old backup.
  lemma LookalikeIsPruned(loaded: seq<NpConfig>)
    requires TWO[0] in TwoFiles() && TWO[1] in TwoFiles() && Loaded(Files(TWO, TwoFiles()), loaded)
    ensures var s := Opened(loaded, TwoFiles()); var r := CallOn(s, Call("eth0", ON, _ => CALM), 1);
            && (forall i: nat | i < |s.configs| :: Agrees(s.configs[i], s.disk))
            && r.ok && exists i: nat | i < |r.after.configs| :: LeftBehind(r.after.configs[i], r.after.disk)
  {
    TwoFilesOpen(loaded);
    var s := Opened(loaded, TwoFiles());
    assert s.disk == TwoFiles();
    hide *;
    TwoFilesAgree(s);
    TwoMarked(s);
    LookalikeGoes(s, Call("eth0", ON, _ => CALM));
  }

  lemma LookalikeGoes(s: State, call: Call)
    requires TwoConfigs(s) && call.envs(TWO[0]) == CALM && var m := Mark(s, call.iface, call.change);
               && |m.configs| == 2 && m.disk == s.disk
               && m.configs[0].file == TWO[0] && m.configs[0].dirty && !m.configs[0].empty
               && m.configs[1].file == TWO[1] && !m.configs[1].dirty
    ensures var r := CallOn(s, call, 1);
            r.ok && exists i: nat | i < |r.after.configs| :: LeftBehind(r.after.configs[i], r.after.disk)
  {
    LookalikeNames();
    hide Mark, IsYaml, Matcher.Matches, SaveAll, LeftBehind, StringLess, Table;
    LookalikeLeftBehind(Mark(s, call.iface, call.change), call.envs);
  }

  ghost predicate TwoConfigs(s: State) {
    && s.disk == TwoFiles()
    && s.configs == [Config(TWO[0], Ethernet("eth0"), false, false), Config(TWO[1], Ethernet("eth1"), false, false)]
  }

  lemma TwoFilesAgree(s: State)
    requires TwoConfigs(s)
    ensures forall i: nat | i < |s.configs| :: Agrees(s.configs[i], s.disk)
  {
    TableDecodes("eth0");
    TableDecodes("eth1");
    hide Ethernet, Table, Decode, DecodableTable;
  }

  lemma TwoMarked(s: State)
    requires TwoConfigs(s)
    ensures var m := Mark(s, "eth0", ON);
            && |m.configs| == 2 && m.disk == s.disk
            && m.configs[0].file == TWO[0] && m.configs[0].dirty && !m.configs[0].empty
            && m.configs[1].file == TWO[1] && !m.configs[1].dirty
  {
    MarksOwnOnly("eth0", "eth0", ON);
    MarksOwnOnly("eth1", "eth0", ON);
    hide Ethernet, Changed, Concerns;
  }

  // A clean config without its file.
  predicate LeftBehind(c: Config, disk: Disk) { !c.dirty && c.file !in disk }

  lemma LookalikeLeftBehind(m: State, envs: Envs)
    requires |m.configs| == 2 && m.configs[0].file in m.disk && m.configs[1].file in m.disk
    requires m.configs[0].dirty && !m.configs[0].empty && !m.configs[1].dirty
    requires m.configs[0].file != m.configs[1].file && envs(m.configs[0].file) == CALM
    requires SuffixMatcher(m.configs[0].file).Matches(m.configs[1].file) && IsYaml(m.configs[1].file)
    requires !m.disk[m.configs[0].file].isDir && !m.disk[m.configs[1].file].isDir
    requires m.disk[m.configs[1].file].mtime < m.disk[m.configs[0].file].mtime
    ensures var r := SaveAll(m, envs, 1);
            r.ok && exists i: nat | i < |r.after.configs| :: LeftBehind(r.after.configs[i], r.after.disk)
  {
    var r, name := SaveAll(m, envs, 1), m.configs[1].file;
    hide FileSave, Compacted, IsYaml, Matcher.Matches, Prunes;
    assert !StopsAt(m, envs, 1, 0) && !StopsAt(m, envs, 1, 1);
    PrunesLookalike(m.disk, m.configs[0], CALM, name);
    assert PrunedInTurn(m, envs, 1, 0, name);
    hide PrunedInTurn, StopsAt;
    forall j: nat | j < 2 ensures !StopsAt(m, envs, 1, j) {}
    FirstStopIs(m, envs, 1, 2);
    GoneAfterSaveIff(m, envs, 1, name);
    var cleaned := CleanedAll(m.configs);
    var idx := CompactedIndex(cleaned);
    assert cleaned[1] == m.configs[1] && !Removed(cleaned[1]);
    var k: nat :| k < |idx| && idx[k] == 1;
    assert LeftBehind(r.after.configs[k], r.after.disk);
  }

  // ------------------------------------------------------------------------ a panic

  // A file of top-level routes before one with an interface.
  lemma RoutesFirstPanics()
    ensures Panics([NpFile("a.yaml", None, 1), NpFile("b.yaml", Table("eth0"), 0)])
  {
    var files := [NpFile("a.yaml", None, 1), NpFile("b.yaml", Table("eth0"), 0)];
    assert files[..1][0] == files[0] && "ethernets" == CONFIG_TYPES[0] && "ethernets" in files[1].network.value;
    assert PanicsAt(files, 1);
  }
}
