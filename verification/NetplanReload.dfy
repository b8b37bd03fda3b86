// netplan.go: opening the directory again after a run of calls.
module NetplanReload {
  import opened Text
  import opened Sorting
  import opened Mergo
  import opened NetplanLoader
  import opened NetplanLoaded
  import opened NetplanDocument
  import opened NetplanLifecycle
  import opened NetplanSaving
  import opened NetplanRuns

  // ----------------------------------------------------------- the same configs again

  // Two increasing lists of the same names are one list.
  lemma {:induction false} SameNames(a: seq<string>, b: seq<string>)
    requires Increasing(a) && Increasing(b) && forall n :: n in a <==> n in b
    ensures a == b
  {
    hide StringLess;
    assert b != [] ==> b[0] in b;
    if a != [] {
      var n := a[|a| - 1];
      assert n in b;
      var m := b[|b| - 1];
      assert m in a;
      GreatestIsLast(a, m);
      GreatestIsLast(b, n);
      StringLessLaws(n, m, n);
      StringLessLaws(n, n, n);
      assert n == m;
      var front, rest := a[..|a| - 1], b[..|b| - 1];
      forall x ensures x in front <==> x in rest {
        LastOnce(a, x);
        LastOnce(b, x);
      }
      SameNames(front, rest);
    }
  }

  lemma GreatestIsLast(a: seq<string>, x: string)
    requires Increasing(a) && x in a
    ensures x == a[|a| - 1] || StringLess(x, a[|a| - 1])
  {
    hide StringLess;
    var i :| 0 <= i < |a| && a[i] == x;
  }

  lemma LastOnce(a: seq<string>, x: string)
    requires Increasing(a) && a != []
    ensures x in a[..|a| - 1] <==> x in a && x != a[|a| - 1]
  {
    hide StringLess;
    var last := a[|a| - 1];
    if x in a[..|a| - 1] {
      var i :| 0 <= i < |a| - 1 && a[i] == x;
      StringLessLaws(last, last, last);
    }
  }

  // A clean config read again: the same, with the flag for an empty config as the file
  // says, which is without entries and top-level routes.
  function Reread(c: Config, disk: Disk): Config
    requires c.file in disk
  {
    c.(empty := disk[c.file].content.routes == 0 && NoneLeft(c.network))
  }

  // Reading the directory when every config is clean gives the same configs in the same
  // order, none of them dirty.
  lemma ReloadIsTheSame(s: State, names: seq<string>, loaded: seq<NpConfig>)
    requires Valid(s) && Complete(s) && forall i: nat | i < |s.configs| :: !s.configs[i].dirty
    requires YamlFiles(names, s.disk) && Loaded(Files(names, s.disk), loaded)
    ensures forall i: nat | i < |s.configs| :: s.configs[i].file in s.disk
    ensures names == FileNames(s.configs) && |loaded| == |s.configs|
    ensures forall i: nat | i < |s.configs| :: Converted(loaded[i]) == Reread(s.configs[i], s.disk)
  {
    hide StringLess, IsYaml;
    ReloadNames(s.configs, s.disk, names);
    var files := Files(names, s.disk);
    hide Increasing, Complete, TidyNames;
    forall i: nat | i < |s.configs| ensures !Shares(files, i) { NothingIsShared(s.configs, s.disk, names, i); }
    LoadedLength(files, loaded);
    forall i: nat | i < |s.configs|
      ensures s.configs[i].file in s.disk && Converted(loaded[i]) == Reread(s.configs[i], s.disk)
    {
      ReloadOne(s.configs[i], s.disk, files, i, loaded);
    }
  }

  lemma ReloadNames(configs: seq<Config>, disk: Disk, names: seq<string>)
    requires TidyNames(configs) && Complete(State(configs, disk)) && YamlFiles(names, disk)
    requires forall i: nat | i < |configs| :: Agrees(configs[i], disk)
    ensures names == FileNames(configs)
  {
    hide StringLess, IsYaml, Decode;
    var all := FileNames(configs);
    forall n ensures n in names <==> n in all {
      if n in all {
        var i: nat :| i < |configs| && all[i] == n;
        assert Agrees(configs[i], disk);
      }
      if n in names {
        assert IsTracked(configs, n);
        var i: nat :| i < |configs| && configs[i].file == n;
        assert all[i] == n;
      }
    }
    SameNames(names, all);
  }

  lemma NothingIsShared(configs: seq<Config>, disk: Disk, names: seq<string>, i: nat)
    requires SeparateKinds(configs) && names == FileNames(configs) && i < |configs|
    requires forall k: nat | k < |configs| :: Agrees(configs[k], disk)
    ensures (forall k: nat | k < |names| :: names[k] in disk) && !Shares(Files(names, disk), i)
  {
    hide Decode, OfKind;
    var files := Files(names, disk);
    forall t, k, j: nat | t in CONFIG_TYPES && j < |configs| && j != i && Has(files[i].network, t, k)
      ensures !Has(files[j].network, t, k)
    {
      SectionOnDisk(configs[i], disk, t);
      SectionOnDisk(configs[j], disk, t);
    }
  }

  // The sections of an agreeing file are those of its config; it has no table of routes.
  lemma SectionOnDisk(c: Config, disk: Disk, t: string)
    requires Agrees(c, disk) && t in CONFIG_TYPES
    ensures t in KINDS ==> Sec(disk[c.file].content.network, t) == OfKind(c.network, t)
    ensures t !in KINDS ==> Sec(disk[c.file].content.network, t) == map[]
  {
    if t in KINDS { DecodeKinds(disk[c.file].content.network, t); }
  }

  lemma ReloadOne(c: Config, disk: Disk, files: seq<NpFile>, i: nat, loaded: seq<NpConfig>)
    requires Agrees(c, disk) && !c.dirty && i < |files| && files[i] == FileAt(disk, c.file)
    requires Loaded(files, loaded) && !Shares(files, i)
    ensures Converted(loaded[i]) ==
            Reread(c, disk)
  {
    UnsharedFileLoadsClean(files, loaded, i);
    assert LoadedAt(files, i, loaded[i]);
    hide Shares, Kept, LoadedAt, MergedEntry;
    var f := files[i].network;
    forall t | t in KINDS ensures OfKind(c.network, t) == Sec(f, t) && t in CONFIG_TYPES {
      DecodeKinds(f, t);
      KindsAreTypes(t);
    }
    assert forall t | t in CONFIG_TYPES :: t in KINDS || t == "routes";
  }

  // ------------------------------------------------------------ opening does not fail

  predicate RoutesOnlyAt(c: Config, disk: Disk) {
    c.file in disk && disk[c.file].content.network.None? && disk[c.file].content.routes > 0
  }

  predicate BareAt(c: Config, disk: Disk) {
    NoneLeft(c.network)
    && (c.file in disk && disk[c.file].content.network.Some? ==> !HasTypes(disk[c.file].content.network.value))
  }

  // The first config is never removed, and nothing follows a file that has top-level
  // routes but no network table: such a directory opens again.
  ghost predicate Opens(s: State) {
    && s.configs != [] && !Removed(s.configs[0])
    && forall i, j | 0 <= i < j < |s.configs| && RoutesOnlyAt(s.configs[i], s.disk) :: BareAt(s.configs[j], s.disk)
  }

  lemma FirstKeepsItsEntries(files: seq<NpFile>, loaded: seq<NpConfig>)
    requires files != [] && Loaded(files, loaded) && loaded[0].dirty
    ensures !loaded[0].empty
  {
    hide MergedEntry;
    assert LoadedAt(files, 0, loaded[0]);
    var t, k, j: nat :| t in CONFIG_TYPES && Shared(files, 0, j, t, k);
    assert k in Kept(files, 0, t);
  }

  lemma OpenedOpens(names: seq<string>, disk: Disk, loaded: seq<NpConfig>)
    requires YamlFiles(names, disk) && names != [] && Loaded(Files(names, disk), loaded) && !Panics(Files(names, disk))
    ensures Opens(Opened(loaded, disk))
  {
    var files, s := Files(names, disk), Opened(loaded, disk);
    OpenedComplete(names, disk, loaded);
    if loaded[0].dirty { FirstKeepsItsEntries(files, loaded); }
    hide YamlFiles, Complete;
    forall i, j | 0 <= i < j < |s.configs| && RoutesOnlyAt(s.configs[i], disk) ensures BareAt(s.configs[j], disk) {
      assert FileNames(s.configs)[i] == names[i] && FileNames(s.configs)[j] == names[j];
      assert files[..j][i] == files[i];
      assert !PanicsAt(files, j);
      BareLoads(files, j, loaded[j]);
    }
  }

  lemma BareLoads(files: seq<NpFile>, j: nat, c: NpConfig)
    requires j < |files| && LoadedAt(files, j, c) && (files[j].network.Some? ==> !HasTypes(files[j].network.value))
    ensures NoneLeft(Converted(c).network)
  {
    hide MergedEntry, Shares, NoEntries, Defined;
    forall t | t in KINDS ensures OfKind(Decode(c.network), t) == map[] {
      DecodeKinds(c.network, t);
      KindsAreTypes(t);
      assert Sec(files[j].network, t) == map[];
    }
  }

  lemma MarkedOpens(s: State, iface: string, change: Change)
    requires Opens(s)
    ensures Opens(Mark(s, iface, change))
  {
    hide Changed, Concerns, OfKind;
    var m := Mark(s, iface, change);
    forall i, j | 0 <= i < j < |m.configs| && RoutesOnlyAt(m.configs[i], m.disk) ensures BareAt(m.configs[j], m.disk) {
      assert RoutesOnlyAt(s.configs[i], s.disk) && BareAt(s.configs[j], s.disk);
      UnconcernedIsUnchanged(s.configs[j].network, iface, change);
    }
  }

  lemma NothingEncodes(n: Network)
    requires NoneLeft(n)
    ensures !HasTypes(Encode(n))
  {
    assert OfKind(n, KINDS[0]) == map[] && OfKind(n, KINDS[1]) == map[] && OfKind(n, KINDS[2]) == map[]
        && OfKind(n, KINDS[3]) == map[] && OfKind(n, KINDS[4]) == map[];
    NothingWritten(KINDS, [n.ethernets, n.wifis, n.bridges, n.bonds, n.vlans]);
  }

  lemma {:induction false} NothingWritten(types: seq<string>, sections: seq<Section>)
    requires |types| == |sections| && forall i: nat | i < |sections| :: sections[i] == map[]
    ensures WrittenSections(types, sections) == map[]
  {
    if types != [] { NothingWritten(types[..|types| - 1], sections[..|types| - 1]); }
  }

  lemma FileStaysBare(s: State, envs: Envs, keep: int, j: nat)
    requires TidyNames(s.configs) && j < |s.configs|
    ensures var c, after := s.configs[j], SaveAll(s, envs, keep).after.disk;
            && (RoutesOnlyAt(c, after) ==> RoutesOnlyAt(c, s.disk))
            && (BareAt(c, s.disk) ==> BareAt(c, after))
  {
    var c := s.configs[j];
    OwnFileAfter(s, envs, keep, j);
    if NoneLeft(c.network) { NothingEncodes(c.network); }
    hide TidyNames, SaveAll, Encode, NoneLeft, HasTypes;
  }

  lemma SaveStillOpens(s: State, envs: Envs, keep: int)
    requires TidyNames(s.configs) && Opens(s)
    ensures Opens(SaveAll(s, envs, keep).after)
  {
    var r, cleaned := SaveAll(s, envs, keep), Flagged(s, envs, keep);
    hide TidyNames, SaveAll, Reached, RoutesOnlyAt, BareAt, Compacted, Flagged;
    FlaggedFacts(s, envs, keep);
    forall i, j | 0 <= i < j < |s.configs| && RoutesOnlyAt(s.configs[i], r.after.disk)
      ensures BareAt(s.configs[j], r.after.disk)
    {
      FileStaysBare(s, envs, keep, i);
      FileStaysBare(s, envs, keep, j);
    }
    hide Opens;
    assert Opens(State(s.configs, r.after.disk)) by { SameConfigsOpen(s, r.after.disk); }
    CleanedOpens(s.configs, cleaned, r.after.disk);
    if r.ok { CompactedOpens(cleaned, r.after.disk); }
  }

  lemma SameConfigsOpen(s: State, disk: Disk)
    requires Opens(s)
    requires forall i, j | 0 <= i < j < |s.configs| && RoutesOnlyAt(s.configs[i], disk) :: BareAt(s.configs[j], disk)
    ensures Opens(State(s.configs, disk))
  {
    hide RoutesOnlyAt, BareAt;
  }

  lemma CleanedOpens(configs: seq<Config>, cleaned: seq<Config>, disk: Disk)
    requires Opens(State(configs, disk)) && |cleaned| == |configs|
    requires forall i: nat | i < |cleaned| :: cleaned[i] == configs[i] || cleaned[i] == Cleaned(configs[i])
    ensures Opens(State(cleaned, disk))
  {
    hide NoneLeft, HasTypes;
    forall i, j | 0 <= i < j < |cleaned| && RoutesOnlyAt(cleaned[i], disk) ensures BareAt(cleaned[j], disk) {
      assert RoutesOnlyAt(configs[i], disk) && BareAt(configs[j], disk);
    }
  }

  lemma CompactedOpens(configs: seq<Config>, disk: Disk)
    requires Opens(State(configs, disk))
    ensures Opens(State(Compacted(configs), disk))
  {
    hide RoutesOnlyAt, BareAt, Compacted;
    var idx := CompactedIndex(configs);
    var kept := Compacted(configs);
    var k: nat :| k < |idx| && idx[k] == 0;
    var first := idx[0];
    forall i, j | 0 <= i < j < |kept| && RoutesOnlyAt(kept[i], disk) ensures BareAt(kept[j], disk) {
      assert idx[i] < idx[j];
      assert RoutesOnlyAt(configs[idx[i]], disk) && BareAt(configs[idx[j]], disk);
    }
  }

  lemma {:induction false} RunStillOpens(s: State, calls: seq<Call>, keep: int)
    requires Valid(s) && Opens(s)
    ensures Opens(RunOn(s, calls, keep))
  {
    hide Valid, Opens, SaveAll, Mark, Complete, Stuck;
    if calls != [] {
      var front, call := calls[..|calls| - 1], calls[|calls| - 1];
      RunStillOpens(s, front, keep);
      RunKeeps(s, front, keep);
      var mid := RunOn(s, front, keep);
      MarkedOpens(mid, call.iface, call.change);
      MarkKeeps(mid, call.iface, call.change);
      ValidIsTidy(Mark(mid, call.iface, call.change));
      SaveStillOpens(Mark(mid, call.iface, call.change), call.envs, keep);
    }
  }

  // The files of clean configs load without a panic and decode.
  lemma CleanOpens(s: State, names: seq<string>)
    requires Valid(s) && Opens(s) && Complete(s) && forall i: nat | i < |s.configs| :: !s.configs[i].dirty
    requires YamlFiles(names, s.disk)
    ensures names != [] && !Panics(Files(names, s.disk)) && AllDecodable(Files(names, s.disk))
  {
    assert forall i: nat | i < |s.configs| :: Agrees(s.configs[i], s.disk);
    ReloadNames(s.configs, s.disk, names);
    var files := Files(names, s.disk);
    hide TidyNames, SeparateKinds, EmptyIsEmpty, YamlFiles, Complete, NoneLeft, HasTypes, Decode;
    forall j: nat | j < |files| ensures !PanicsAt(files, j) && DecodableTable(files[j].network) {
      if i: nat :| i < j && files[..j][i].network.None? && files[..j][i].routes > 0 {
        assert files[..j][i] == files[i] && RoutesOnlyAt(s.configs[i], s.disk);
        assert BareAt(s.configs[j], s.disk);
      }
    }
  }

  // Open a directory, make any calls, of which any but the last may fail anywhere, and
  // open it again: that works, and gives the configs as they were, in their order.
  lemma OpenRunReopen(names: seq<string>, disk: Disk, loaded: seq<NpConfig>, calls: seq<Call>, keep: int,
                      names2: seq<string>, loaded2: seq<NpConfig>)
    requires YamlFiles(names, disk) && NoLookalikes(names) && Loaded(Files(names, disk), loaded)
    requires names != [] && !Panics(Files(names, disk)) && AllDecodable(Files(names, disk))
    requires calls != []
    requires CallOn(RunOn(Opened(loaded, disk), calls[..|calls| - 1], keep), calls[|calls| - 1], keep).ok
    requires YamlFiles(names2, RunOn(Opened(loaded, disk), calls, keep).disk)
    ensures var end := RunOn(Opened(loaded, disk), calls, keep); var files := Files(names2, end.disk);
            && names2 != [] && !Panics(files) && AllDecodable(files)
            && (forall i: nat | i < |end.configs| :: end.configs[i].file in end.disk)
            && (Loaded(files, loaded2) ==>
                  |loaded2| == |end.configs|
                  && forall i: nat | i < |end.configs| :: Converted(loaded2[i]) == Reread(end.configs[i], end.disk))
  {
    var s, call := Opened(loaded, disk), calls[|calls| - 1];
    var mid, end := RunOn(s, calls[..|calls| - 1], keep), RunOn(s, calls, keep);
    LoadedLength(Files(names, disk), loaded);
    DecodableStays(Files(names, disk), loaded);
    OpenedValid(names, disk, loaded);
    OpenedComplete(names, disk, loaded);
    OpenedOpens(names, disk, loaded);
    hide Valid, Complete, Opens, SaveAll, Mark, Loaded, YamlFiles, NoLookalikes, Panics, AllDecodable, Stuck, Decodable;
    RunKeeps(s, calls[..|calls| - 1], keep);
    RunKeeps(s, calls, keep);
    RunStillOpens(s, calls, keep);
    MarkKeeps(mid, call.iface, call.change);
    SaveKeepsValid(Mark(mid, call.iface, call.change), call.envs, keep);
    CleanOpens(end, names2);
    AllAgree(end);
    if Loaded(Files(names2, end.disk), loaded2) { ReloadIsTheSame(end, names2, loaded2); }
  }

  lemma AllAgree(s: State)
    requires Valid(s) && forall i: nat | i < |s.configs| :: !s.configs[i].dirty
    ensures forall i: nat | i < |s.configs| :: s.configs[i].file in s.disk
  {
    hide TidyNames, SeparateKinds, EmptyIsEmpty, Decode;
  }
}
