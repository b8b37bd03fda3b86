// netplan.go: opening a directory, and any run of SetIface calls on it.
module NetplanRuns {
  import opened Text
  import opened Sorting
  import opened Mergo
  import opened NetplanLoader
  import opened NetplanLoaded
  import opened NetplanDocument
  import opened NetplanLifecycle
  import opened NetplanSaving
  import opened Retention

  // --------------------------------------------------------------------- opening

  // The names of a directory's YAML files, in order.
  ghost predicate YamlFiles(names: seq<string>, disk: Disk) {
    && Increasing(names)
    && forall n :: n in names <==> n in disk && !disk[n].isDir && IsYaml(n)
  }

  predicate Increasing(names: seq<string>) { forall i, j | 0 <= i < j < |names| :: StringLess(names[i], names[j]) }

  // No file is named like a backup of another. The loader does not check this, and
  // saving the one could prune the other.
  predicate NoLookalikes(names: seq<string>) {
    forall i: nat, j: nat | i < |names| && j < |names| :: !SuffixMatcher(names[i]).Matches(names[j])
  }

  function FileAt(disk: Disk, name: string): NpFile
    requires name in disk
  {
    NpFile(name, disk[name].content.network, disk[name].content.routes)
  }

  function Files(names: seq<string>, disk: Disk): (files: seq<NpFile>)
    requires forall k: nat | k < |names| :: names[k] in disk
    ensures |files| == |names| && forall k: nat | k < |names| :: files[k] == FileAt(disk, names[k])
  {
    seq(|names|, k requires 0 <= k < |names| => FileAt(disk, names[k]))
  }

  function Converted(c: NpConfig): Config { Config(c.file, Decode(c.network), c.empty, c.dirty) }

  function AllConverted(configs: seq<NpConfig>): (all: seq<Config>)
    ensures |all| == |configs| && forall k: nat | k < |configs| :: all[k] == Converted(configs[k])
  {
    seq(|configs|, k requires 0 <= k < |configs| => Converted(configs[k]))
  }

  predicate Decodable(c: NpConfig) { DecodableTable(c.network) }

  function Opened(loaded: seq<NpConfig>, disk: Disk): State { State(AllConverted(loaded), disk) }

  method OpenNetplan(names: seq<string>, disk: Disk, retention: int) returns (np: Netplan?, ghost loaded: seq<NpConfig>)
    requires YamlFiles(names, disk)
    ensures np != null ==> fresh(np) && Loaded(Files(names, disk), loaded)
    ensures np != null ==> np.Now() == Opened(loaded, disk) && np.retention == retention && Complete(np.Now())
    ensures np != null && NoLookalikes(names) ==> Valid(np.Now())
    ensures np == null <==> names == [] || Panics(Files(names, disk)) || !AllDecodable(Files(names, disk))
  {
    hide Loaded, Panics, Increasing, IsYaml, NoLookalikes, Complete, Valid;
    loaded := [];
    var files := Files(names, disk);
    var r := ReadNetplanConfigDirectory(files);
    if !r.Configs? { return null, []; }
    var configs: seq<Config> := [];
    DecodableStays(files, r.configs);
    LoadedLength(files, r.configs);
    for i := 0 to |r.configs|
      invariant |configs| == i && forall k: nat | k < i :: configs[k] == Converted(r.configs[k])
      invariant forall k: nat | k < i :: Decodable(r.configs[k])
    {
      if !Decodable(r.configs[i]) { return null, []; }
      configs := configs + [Converted(r.configs[i])];
    }
    assert configs == AllConverted(r.configs);
    OpenedComplete(names, disk, r.configs);
    if NoLookalikes(names) { OpenedValid(names, disk, r.configs); }
    np := new Netplan(configs, disk, retention);
    loaded := r.configs;
  }

  predicate AllDecodable(files: seq<NpFile>) {
    forall k: nat | k < |files| :: DecodableTable(files[k].network)
  }

  lemma DecodableStays(files: seq<NpFile>, configs: seq<NpConfig>)
    requires Loaded(files, configs)
    ensures forall k: nat | k < |files| :: Decodable(configs[k]) == DecodableTable(files[k].network)
  {
    forall k: nat | k < |files| ensures Decodable(configs[k]) == DecodableTable(files[k].network) {
      assert LoadedAt(files, k, configs[k]);
    }
  }

  lemma KindsAreTypes(t: string)
    requires t in KINDS
    ensures t in CONFIG_TYPES
  {}

  lemma OpenedValid(names: seq<string>, disk: Disk, loaded: seq<NpConfig>)
    requires YamlFiles(names, disk) && NoLookalikes(names) && Loaded(Files(names, disk), loaded)
    requires forall k: nat | k < |loaded| :: Decodable(loaded[k])
    ensures Valid(Opened(loaded, disk))
  {
    var files, all := Files(names, disk), AllConverted(loaded);
    OpenedNames(names, disk, loaded);
    LoadedFacts(files, loaded);
    OpenedSeparate(loaded);
    hide Loaded, TidyNames, YamlFiles, NoLookalikes, EmptyIsEmpty, Agrees, SeparateKinds, Separate, Decodable;
    forall i: nat | i < |all| ensures EmptyIsEmpty(all[i]) && (!all[i].dirty ==> Agrees(all[i], disk)) {
      OpenedAgrees(names, disk, loaded, i);
    }
  }

  lemma OpenedComplete(names: seq<string>, disk: Disk, loaded: seq<NpConfig>)
    requires YamlFiles(names, disk) && Loaded(Files(names, disk), loaded)
    ensures Complete(Opened(loaded, disk)) && FileNames(AllConverted(loaded)) == names
  {
    hide Increasing, IsYaml, Shares, Kept;
    var files, all := Files(names, disk), AllConverted(loaded);
    forall i: nat | i < |names| ensures all[i].file == names[i] { assert LoadedAt(files, i, loaded[i]); }
    forall n | n in names ensures IsTracked(all, n) {
      var i: nat :| i < |names| && names[i] == n;
      assert all[i].file == n;
    }
    assert FileNames(all) == names;
  }

  lemma OpenedSeparate(configs: seq<NpConfig>)
    requires forall t | t in CONFIG_TYPES :: Separate(configs, t)
    ensures SeparateKinds(AllConverted(configs))
  {
    var all := AllConverted(configs);
    hide Sec, OfKind;
    forall t, i, j, k | t in KINDS && 0 <= i < j < |all| && k in OfKind(all[i].network, t)
      ensures k !in OfKind(all[j].network, t)
    {
      KindsAreTypes(t);
      DecodeKinds(configs[i].network, t);
      DecodeKinds(configs[j].network, t);
      assert Separate(configs, t) && Has(configs[i].network, t, k);
    }
  }

  lemma OpenedNames(names: seq<string>, disk: Disk, configs: seq<NpConfig>)
    requires YamlFiles(names, disk) && NoLookalikes(names) && Loaded(Files(names, disk), configs)
    ensures var all := AllConverted(configs);
            |all| == |names| && TidyNames(all) && forall i: nat | i < |all| :: all[i].file == names[i]
  {
    hide Matcher.Matches, StringLess, IsYaml, Shares, MergedEntry, Kept;
    var files, all := Files(names, disk), AllConverted(configs);
    forall i: nat | i < |all| ensures all[i].file == names[i] && IsYaml(all[i].file) {
      assert LoadedAt(files, i, configs[i]);
      assert names[i] in names;
    }
    forall i, j | 0 <= i < j < |all| ensures all[i].file != all[j].file {
      assert StringLess(names[i], names[j]);
      StringLessLaws(names[i], names[i], names[i]);
    }
  }

  lemma OpenedAgrees(names: seq<string>, disk: Disk, configs: seq<NpConfig>, i: nat)
    requires YamlFiles(names, disk) && Loaded(Files(names, disk), configs) && i < |configs| && Decodable(configs[i])
    ensures var c := Converted(configs[i]); EmptyIsEmpty(c) && (!c.dirty ==> Agrees(c, disk))
  {
    hide Shares, MergedEntry, Kept, IsYaml, StringLess;
    var files, c := Files(names, disk), configs[i];
    assert LoadedAt(files, i, c);
    assert names[i] in names;
    forall t | t in KINDS ensures OfKind(Decode(c.network), t) == Sec(c.network, t) && t in CONFIG_TYPES {
      DecodeKinds(c.network, t);
      KindsAreTypes(t);
    }
    if !c.dirty { UnsharedFileLoadsClean(files, configs, i); }
  }

  // ---------------------------------------------------------------------- changing

  function Marked(c: Config, iface: string, change: Change): Config {
    if c.empty then c
    else c.(network := Changed(c.network, iface, change), dirty := c.dirty || Concerns(c.network, iface))
  }

  function AllMarked(configs: seq<Config>, iface: string, change: Change): (all: seq<Config>)
    ensures |all| == |configs| && forall i: nat | i < |configs| :: all[i] == Marked(configs[i], iface, change)
  {
    seq(|configs|, i requires 0 <= i < |configs| => Marked(configs[i], iface, change))
  }

  function Mark(s: State, iface: string, change: Change): State {
    State(AllMarked(s.configs, iface, change), s.disk)
  }

  datatype Call = Call(iface: string, change: Change, envs: Envs)

  // One SetIface call: mark and change every config that has the interface, and save.
  function CallOn(s: State, call: Call, keep: int): Result { SaveAll(Mark(s, call.iface, call.change), call.envs, keep) }

  method SetIface(np: Netplan, call: Call) returns (ok: bool)
    modifies np
    ensures Result(ok, np.Now()) == CallOn(old(np.Now()), call, np.retention)
    ensures Valid(old(np.Now())) ==> Valid(np.Now())
    ensures Valid(old(np.Now())) && Complete(old(np.Now())) ==> Complete(np.Now())
    ensures Valid(old(np.Now())) ==> (ok <==> AllSave(Mark(old(np.Now()), call.iface, call.change), call.envs))
    ensures Valid(old(np.Now())) && Calm(call) ==> (ok <==> !Stuck(old(np.Now())))
  {
    hide Changed, Concerns, SaveAll, Valid, Complete, Stuck, Calm, AllSave;
    ghost var s := np.Now();
    for i := 0 to |np.configs|
      invariant |np.configs| == |s.configs| && np.disk == s.disk
      invariant forall k: nat | k < |s.configs| ::
        np.configs[k] == if k < i then Marked(s.configs[k], call.iface, call.change) else s.configs[k]
    {
      var c := np.configs[i];
      if c.empty { continue; }
      var network, dirty := UpdateNetwork(c.network, call.iface, call.change);
      np.configs := np.configs[i := c.(network := network, dirty := c.dirty || dirty)];
    }
    assert np.Now() == Mark(s, call.iface, call.change);
    ok := np.Save(call.envs);
    CallPromises(s, call, np.retention);
  }

  // Nothing goes wrong during the call.
  ghost predicate Calm(call: Call) { forall file :: call.envs(file).fault.NoFault? }

  lemma MarkKeeps(s: State, iface: string, change: Change)
    ensures Valid(s) ==> Valid(Mark(s, iface, change)) && (Stuck(Mark(s, iface, change)) <==> Stuck(s))
    ensures FileNames(Mark(s, iface, change).configs) == FileNames(s.configs)
    ensures Complete(s) ==> Complete(Mark(s, iface, change))
  {
    hide Changed, Concerns, IsYaml, Increasing;
    var m := Mark(s, iface, change);
    assert forall i: nat | i < |s.configs| :: m.configs[i].file == s.configs[i].file;
    if Valid(s) {
      MarkedValid(s.configs, iface, change, s.disk);
      hide Valid;
      MarkedStuck(s, iface, change);
    }
  }

  lemma MarkedStuck(s: State, iface: string, change: Change)
    requires Valid(s)
    ensures Stuck(Mark(s, iface, change)) <==> Stuck(s)
  {
    hide Changed, Concerns, TidyNames, SeparateKinds, EmptyIsEmpty, Decode;
    var m := Mark(s, iface, change);
    if i: nat :| i < |m.configs| && m.configs[i].dirty && m.configs[i].file !in m.disk {
      assert s.configs[i].dirty && s.configs[i].file !in s.disk;
    }
    if i: nat :| i < |s.configs| && s.configs[i].dirty && s.configs[i].file !in s.disk {
      assert m.configs[i].dirty && m.configs[i].file !in m.disk;
    }
  }

  // A call during which nothing goes wrong succeeds if and only if no config waits for
  // a missing file.
  lemma CalmCallSucceedsIff(s: State, call: Call, keep: int)
    requires Valid(s) && Calm(call)
    ensures CallOn(s, call, keep).ok <==> !Stuck(s)
  {
    var m := Mark(s, call.iface, call.change);
    MarkKeeps(s, call.iface, call.change);
    SaveSucceedsIff(m, call.envs, keep);
    hide Valid, SaveAll, Mark;
  }

  lemma CallPromises(s: State, call: Call, keep: int)
    ensures Valid(s) ==> Valid(CallOn(s, call, keep).after)
    ensures Valid(s) && Complete(s) ==> Complete(CallOn(s, call, keep).after)
    ensures Valid(s) ==> (CallOn(s, call, keep).ok <==> AllSave(Mark(s, call.iface, call.change), call.envs))
    ensures Valid(s) && Calm(call) ==> (CallOn(s, call, keep).ok <==> !Stuck(s))
  {
    hide Valid, Complete, Calm, SaveAll, Mark, Stuck;
    var m := Mark(s, call.iface, call.change);
    if Valid(s) {
      MarkKeeps(s, call.iface, call.change);
      SaveKeepsValid(m, call.envs, keep);
      PromisesHold(m, call.envs, keep);
      if Complete(s) { SaveKeepsComplete(m, call.envs, keep); }
      if Calm(call) { CalmCallSucceedsIff(s, call, keep); }
    }
  }

  lemma MarkedValid(configs: seq<Config>, iface: string, change: Change, disk: Disk)
    requires TidyNames(configs) && SeparateKinds(configs)
    requires forall i: nat | i < |configs| :: EmptyIsEmpty(configs[i]) && (!configs[i].dirty ==> Agrees(configs[i], disk))
    ensures var all := AllMarked(configs, iface, change);
            TidyNames(all) && SeparateKinds(all)
            && forall i: nat | i < |all| :: EmptyIsEmpty(all[i]) && (!all[i].dirty ==> Agrees(all[i], disk))
  {
    var all := AllMarked(configs, iface, change);
    hide Concerns, Changed, IsYaml, Matcher.Matches, NoneLeft, OfKind, Decode;
    forall i: nat | i < |all|
      ensures all[i].file == configs[i].file
      ensures forall t | t in KINDS :: OfKind(all[i].network, t).Keys == OfKind(configs[i].network, t).Keys
      ensures EmptyIsEmpty(all[i]) && (!all[i].dirty ==> all[i].network == configs[i].network && !configs[i].dirty)
    {
      UnconcernedIsUnchanged(configs[i].network, iface, change);
    }
    forall t, i, j, k | t in KINDS && 0 <= i < j < |all| && k in OfKind(all[i].network, t)
      ensures k !in OfKind(all[j].network, t)
    {
      assert k in OfKind(configs[i].network, t);
    }
  }

  // -------------------------------------------------------------- nothing goes missing

  function FileNames(configs: seq<Config>): (names: seq<string>)
    ensures |names| == |configs| && forall i: nat | i < |configs| :: names[i] == configs[i].file
  {
    seq(|configs|, i requires 0 <= i < |configs| => configs[i].file)
  }

  // Every YAML file of the directory is tracked, in the order of the names.
  ghost predicate Complete(s: State) {
    && Increasing(FileNames(s.configs))
    && forall n :: n in s.disk && !s.disk[n].isDir && IsYaml(n) ==> IsTracked(s.configs, n)
  }

  lemma SameNamesComplete(s: State, t: State)
    requires Complete(s) && FileNames(t.configs) == FileNames(s.configs) && NoNewYaml(s.configs, s.disk, t.disk)
    ensures Complete(t)
  {
    hide IsYaml, Increasing;
    forall n | IsTracked(s.configs, n) ensures IsTracked(t.configs, n) {
      var i: nat :| i < |s.configs| && s.configs[i].file == n;
      assert FileNames(s.configs)[i] == FileNames(t.configs)[i];
    }
  }

  lemma CompactedComplete(configs: seq<Config>, disk: Disk)
    requires Complete(State(configs, disk))
    requires forall i: nat | i < |configs| && Removed(configs[i]) :: configs[i].file !in disk
    ensures Complete(State(Compacted(configs), disk))
  {
    hide StringLess, IsYaml, Compacted;
    var idx := CompactedIndex(configs);
    var kept := Compacted(configs);
    forall i, j | 0 <= i < j < |kept| ensures StringLess(kept[i].file, kept[j].file) {
      assert idx[i] < idx[j];
      assert StringLess(FileNames(configs)[idx[i]], FileNames(configs)[idx[j]]);
    }
    forall n | n in disk && !disk[n].isDir && IsYaml(n) ensures IsTracked(kept, n) {
      assert IsTracked(configs, n);
      var i: nat :| i < |configs| && configs[i].file == n;
      var k: nat :| k < |idx| && idx[k] == i;
      assert kept[k].file == n;
    }
  }

  lemma FlaggedNames(s: State, envs: Envs, keep: int)
    ensures FileNames(Flagged(s, envs, keep)) == FileNames(s.configs)
  {
    FlaggedFacts(s, envs, keep);
    hide Flagged;
  }

  // A save, whether it succeeds or fails, keeps every file tracked that it leaves.
  lemma SaveKeepsComplete(s: State, envs: Envs, keep: int)
    requires Valid(s) && Complete(s)
    ensures Complete(SaveAll(s, envs, keep).after)
  {
    assert TidyNames(s.configs);
    hide *;
    var r, cleaned := SaveAll(s, envs, keep), Flagged(s, envs, keep);
    FlaggedFacts(s, envs, keep);
    FlaggedNames(s, envs, keep);
    OthersAfter(s, envs, keep);
    SameNamesComplete(s, State(cleaned, r.after.disk));
    if r.ok {
      forall i: nat | i < |cleaned| && Removed(cleaned[i]) ensures cleaned[i].file !in r.after.disk {
        RemovedIsGone(s, envs, keep, i);
      }
      CompactedComplete(cleaned, r.after.disk);
    }
  }

  lemma RemovedIsGone(s: State, envs: Envs, keep: int, i: nat)
    requires TidyNames(s.configs) && SaveAll(s, envs, keep).ok && i < |s.configs| && Removed(Cleaned(s.configs[i]))
    ensures s.configs[i].file !in SaveAll(s, envs, keep).after.disk
  {
    OwnFileAfter(s, envs, keep, i);
    hide TidyNames, DiskAfter, FirstStop, NewContent;
  }

  // -------------------------------------------------------------------------- runs

  function RunOn(s: State, calls: seq<Call>, keep: int): State {
    if calls == [] then s else CallOn(RunOn(s, calls[..|calls| - 1], keep), calls[|calls| - 1], keep).after
  }

  lemma RunStep(s: State, calls: seq<Call>, keep: int, k: nat)
    requires k < |calls|
    ensures RunOn(s, calls[..k + 1], keep) == CallOn(RunOn(s, calls[..k], keep), calls[k], keep).after
  {
    hide CallOn;
    assert calls[..k + 1][..k] == calls[..k];
  }

  // Any run of calls, each of which may fail anywhere.
  method Run(np: Netplan, calls: seq<Call>) returns (oks: seq<bool>)
    modifies np
    ensures np.Now() == RunOn(old(np.Now()), calls, np.retention) && |oks| == |calls|
    ensures forall k: nat | k < |calls| ::
              oks[k] == CallOn(RunOn(old(np.Now()), calls[..k], np.retention), calls[k], np.retention).ok
    ensures Valid(old(np.Now())) ==> Valid(np.Now())
    ensures Valid(old(np.Now())) && Complete(old(np.Now())) ==> Complete(np.Now())
    ensures Valid(old(np.Now())) && Stuck(old(np.Now())) ==> Stuck(np.Now()) && forall k: nat | k < |calls| :: !oks[k]
  {
    hide CallOn, Valid, Complete, RunOn, Stuck;
    oks := [];
    ghost var s := np.Now();
    assert RunOn(s, [], np.retention) == s by { NoCalls(s, np.retention); }
    assert calls[..0] == [];
    for k := 0 to |calls|
      invariant np.Now() == RunOn(s, calls[..k], np.retention) && |oks| == k
      invariant forall l: nat | l < k :: oks[l] == CallOn(RunOn(s, calls[..l], np.retention), calls[l], np.retention).ok
    {
      var ok := SetIface(np, calls[k]);
      oks := oks + [ok];
      RunStep(s, calls, np.retention, k);
    }
    assert calls[..|calls|] == calls;
    if Valid(s) {
      RunKeeps(s, calls, np.retention);
      if Stuck(s) { StuckForGood(s, calls, np.retention); }
    }
  }

  lemma NoCalls(s: State, keep: int)
    ensures RunOn(s, [], keep) == s
  {}

  // In every reachable state clean configs agree with their files, and every YAML file
  // of the directory is tracked.
  lemma {:induction false} RunKeeps(s: State, calls: seq<Call>, keep: int)
    requires Valid(s)
    ensures Valid(RunOn(s, calls, keep)) && (Complete(s) ==> Complete(RunOn(s, calls, keep)))
  {
    hide CallOn, Valid, Complete;
    if calls != [] {
      var front := calls[..|calls| - 1];
      RunKeeps(s, front, keep);
      CallPromises(RunOn(s, front, keep), calls[|calls| - 1], keep);
    }
  }

  // The save of the call leaves a config waiting for a missing file: it fails after
  // removing an emptied file, or loses the file it fails on.
  ghost predicate Jams(s: State, call: Call, keep: int) {
    var m := Mark(s, call.iface, call.change);
    var n := Reached(m, call.envs, keep);
    && n < |m.configs|
    && ((exists j: nat | j < n :: Removed(m.configs[j]))
        || LeavesHole(m.disk, m.configs[n], call.envs(m.configs[n].file)))
  }

  lemma StuckAfterCallIff(s: State, call: Call, keep: int)
    requires Valid(s)
    ensures var r := CallOn(s, call, keep);
            (Stuck(r.after) <==> Stuck(s) || Jams(s, call, keep)) && (Stuck(s) ==> !r.ok)
  {
    var m := Mark(s, call.iface, call.change);
    MarkKeeps(s, call.iface, call.change);
    StuckAfterSaveIff(m, call.envs, keep);
    SaveSucceedsIff(m, call.envs, keep);
    hide Valid, Mark, LeavesHole, FirstStop, Removed;
  }

  // A run ends with a config waiting for a missing file if and only if it began so or
  // some call of it left one.
  lemma {:induction false} StuckAfterRunIff(s: State, calls: seq<Call>, keep: int)
    requires Valid(s)
    ensures Stuck(RunOn(s, calls, keep)) <==>
              Stuck(s) || exists k: nat | k < |calls| :: Jams(RunOn(s, calls[..k], keep), calls[k], keep)
  {
    hide CallOn, Valid, Stuck, Jams;
    if calls != [] {
      var n := |calls| - 1;
      var front := calls[..n];
      StuckAfterRunIff(s, front, keep);
      RunKeeps(s, front, keep);
      StuckAfterCallIff(RunOn(s, front, keep), calls[n], keep);
      assert forall k: nat | k < n :: front[..k] == calls[..k] && front[k] == calls[k];
    }
  }

  // From then on every call fails.
  lemma {:induction false} StuckForGood(s: State, calls: seq<Call>, keep: int)
    requires Valid(s) && Stuck(s)
    ensures Stuck(RunOn(s, calls, keep))
    ensures forall k: nat | k < |calls| :: !CallOn(RunOn(s, calls[..k], keep), calls[k], keep).ok
  {
    hide CallOn, Valid, Stuck, RunOn;
    StuckAfterRunIff(s, calls, keep);
    forall k: nat | k < |calls| ensures !CallOn(RunOn(s, calls[..k], keep), calls[k], keep).ok {
      StuckAfterRunIff(s, calls[..k], keep);
      RunKeeps(s, calls[..k], keep);
      StuckAfterCallIff(RunOn(s, calls[..k], keep), calls[k], keep);
    }
  }

  // --------------------------------------------------------------- the other files

  // No new file becomes tracked.
  ghost predicate SameOrFewer(before: seq<Config>, after: seq<Config>) {
    forall j: nat | j < |after| :: IsTracked(before, after[j].file)
  }

  predicate LeftAlone(configs: seq<Config>, name: string) {
    forall i: nat | i < |configs| :: !Touches(configs[i].file, name)
  }

  lemma FewerAfterSave(s: State, envs: Envs, keep: int)
    ensures SameOrFewer(s.configs, SaveAll(s, envs, keep).after.configs)
  {
    var r := SaveAll(s, envs, keep);
    hide Compacted, DiskAfter, FirstStop;
    if r.ok { CompactedFacts(CleanedAll(s.configs)); }
    forall j: nat | j < |r.after.configs| ensures IsTracked(s.configs, r.after.configs[j].file) {
      var i: nat :| i < |s.configs| && r.after.configs[j].file == s.configs[i].file;
    }
  }

  lemma CallKeepsOthers(s: State, call: Call, keep: int)
    ensures var after := CallOn(s, call, keep).after;
            && SameOrFewer(s.configs, after.configs) && NoNewYaml(s.configs, s.disk, after.disk)
            && forall name | LeftAlone(s.configs, name) :: SameAt(after.disk, s.disk, name)
  {
    var m := Mark(s, call.iface, call.change);
    OthersAfter(m, call.envs, keep);
    FewerAfterSave(m, call.envs, keep);
    hide SaveAll, Changed, Concerns, Touches, IsYaml;
    assert forall i: nat | i < |s.configs| :: m.configs[i].file == s.configs[i].file;
    forall n | IsTracked(m.configs, n) ensures IsTracked(s.configs, n) {
      var i: nat :| i < |m.configs| && m.configs[i].file == n;
    }
    forall name | LeftAlone(s.configs, name) ensures Spared(m.configs, name) {}
  }

  // Over any run, whatever fails, a file that no tracked file's saves touch is as it
  // was, no YAML file appears, and only tracked ones change.
  lemma {:induction false} RunLeavesOthersAlone(s: State, calls: seq<Call>, keep: int)
    ensures var after := RunOn(s, calls, keep);
            && SameOrFewer(s.configs, after.configs) && NoNewYaml(s.configs, s.disk, after.disk)
            && forall name | LeftAlone(s.configs, name) :: SameAt(after.disk, s.disk, name)
  {
    hide CallOn, Touches, IsYaml;
    if calls != [] {
      var front := calls[..|calls| - 1];
      RunLeavesOthersAlone(s, front, keep);
      var mid := RunOn(s, front, keep);
      CallKeepsOthers(mid, calls[|calls| - 1], keep);
      OthersCompose(s, mid, RunOn(s, calls, keep));
    }
  }

  lemma OthersCompose(a: State, b: State, c: State)
    requires SameOrFewer(a.configs, b.configs) && SameOrFewer(b.configs, c.configs)
    requires NoNewYaml(a.configs, a.disk, b.disk) && NoNewYaml(b.configs, b.disk, c.disk)
    requires forall name | LeftAlone(a.configs, name) :: SameAt(b.disk, a.disk, name)
    requires forall name | LeftAlone(b.configs, name) :: SameAt(c.disk, b.disk, name)
    ensures SameOrFewer(a.configs, c.configs) && NoNewYaml(a.configs, a.disk, c.disk)
    ensures forall name | LeftAlone(a.configs, name) :: SameAt(c.disk, a.disk, name)
  {
    hide Touches, IsYaml;
    forall n | IsTracked(b.configs, n) ensures IsTracked(a.configs, n) {
      var i: nat :| i < |b.configs| && b.configs[i].file == n;
    }
    forall name | LeftAlone(a.configs, name) ensures SameAt(c.disk, a.disk, name) {
      forall i: nat | i < |b.configs| ensures !Touches(b.configs[i].file, name) {
        var j: nat :| j < |a.configs| && a.configs[j].file == b.configs[i].file;
      }
      assert LeftAlone(b.configs, name) && SameAt(b.disk, a.disk, name);
    }
  }
}
