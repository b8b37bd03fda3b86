// netplan.go: how many backups a run of calls leaves of every file it saves.
module NetplanBackups {
  import opened Text
  import opened NetplanLifecycle
  import opened NetplanSaving
  import opened NetplanRuns
  import opened Retention

  // ---------------------------------------------------------------------- one save

  lemma PrunedListing(disk: Disk, c: Config, e: Env, keep: int)
    ensures Listing(PrunedDisk(disk, c, e, keep)) == PrunedBut(Listing(disk), SuffixMatcher(c.file), keep, e.stubborn)
  {
    hide Goes;
  }

  // A save that succeeds leaves at most "keep" backups of its file, and one that fails
  // adds a backup only where it loses the file.
  lemma OwnBackups(disk: Disk, c: Config, e: Env, keep: int)
    requires keep > 0 && e.stubborn == {}
    ensures var after := FileSave(disk, c, e, keep).disk;
            if Saves(disk, c, e) then |Backups(after, c.file)| <= keep
            else |Backups(after, c.file)| <= |Backups(disk, c.file)| + if LeavesHole(disk, c, e) then 1 else 0
  {
    if Saves(disk, c, e) {
      var placed := Placed(disk, c, e);
      PrunedListing(placed, c, e, keep);
      hide *;
      var after := PrunedDisk(placed, c, e, keep);
      SavedDisk(disk, c, e, keep);
      BackupsAre(after, c.file);
      NothingStubborn(Listing(placed), SuffixMatcher(c.file), keep, e.stubborn);
      PrunedKeepsNewest(Listing(placed), Listing(after), SuffixMatcher(c.file), keep);
    } else {
      AbandonedBackups(disk, c, e);
    }
  }

  lemma SavedDisk(disk: Disk, c: Config, e: Env, keep: int)
    requires Saves(disk, c, e)
    ensures FileSave(disk, c, e, keep).disk == PrunedDisk(Placed(disk, c, e), c, e, keep)
  {
    hide Placed, PrunedDisk;
  }

  lemma BackupsAre(disk: Disk, file: string)
    ensures Backups(disk, file) == Matching(Listing(disk), SuffixMatcher(file))
  {
    hide Matching, Listing;
  }

  lemma AbandonedBackups(disk: Disk, c: Config, e: Env)
    ensures |Backups(Abandoned(disk, c, e), c.file)| <=
            |Backups(disk, c.file)| + if LeavesHole(disk, c, e) then 1 else 0
  {
    StampedNames(c.file, e.tmpStamp, e.bakStamp);
    hide Stamped, Matcher.Matches, NewContent, Touches, IsYaml;
    var after, bak := Abandoned(disk, c, e), Stamped(c.file, ".bak.", e.bakStamp);
    if LeavesHole(disk, c, e) {
      var more := Backups(disk, c.file) + {Backup(bak, disk[c.file].mtime)};
      assert Backups(after, c.file) <= more;
      SubsetSize(Backups(after, c.file), more);
    } else {
      assert Backups(after, c.file) == Backups(disk, c.file);
    }
  }

  // ---------------------------------------------------------------- two files' backups

  predicate ApartFrom(a: string, b: string) {
    a != b && IsYaml(a) && IsYaml(b) && !SuffixMatcher(a).Matches(b) && !SuffixMatcher(b).Matches(a)
  }

  lemma YamlEnds(name: string)
    requires IsYaml(name)
    ensures |name| >= 5 && name[|name| - 1] == 'l'
  {
    assert name[|name| - 5..][4] == name[|name| - 1] && ".yaml"[4] == 'l';
  }

  // What a save of one file touches is no backup of the other.
  lemma TouchesNoOther(a: string, b: string, n: string)
    requires ApartFrom(a, b) && Touches(a, n)
    ensures !SuffixMatcher(b).Matches(n)
  {
    YamlEnds(a);
    YamlEnds(b);
    PrefixKind(n, a, ".bak.");
    PrefixKind(n, a, ".tmp.");
    PrefixKind(n, b, ".bak.");
    PrefixKind(a, b, ".bak.");
    PrefixKind(b, a, ".bak.");
    hide HasPrefix, IsYaml;
  }

  lemma OtherBackups(disk: Disk, c: Config, e: Env, keep: int, file: string)
    requires ApartFrom(c.file, file)
    ensures Backups(FileSave(disk, c, e, keep).disk, file) == Backups(disk, file)
  {
    OneFileSaved(disk, c, e, keep);
    forall n | Touches(c.file, n) ensures !SuffixMatcher(file).Matches(n) { TouchesNoOther(c.file, file, n); }
    hide ApartFrom, FileSave, Touches, Matcher.Matches, OwnFileSaved, OthersSaved;
    SameBackups(disk, FileSave(disk, c, e, keep).disk, file);
  }

  lemma SameBackups(a: Disk, b: Disk, file: string)
    requires forall n :: SuffixMatcher(file).Matches(n) ==> SameAt(a, b, n)
    ensures Backups(a, file) == Backups(b, file)
  {
    hide Matcher.Matches;
  }

  // --------------------------------------------------------------- saving all of them

  // Every tracked file is the one given or apart from it.
  predicate Stands(configs: seq<Config>, file: string) {
    forall i: nat | i < |configs| :: configs[i].file == file || ApartFrom(configs[i].file, file)
  }

  lemma TrackedStands(configs: seq<Config>, i: nat)
    requires TidyNames(configs) && i < |configs|
    ensures Stands(configs, configs[i].file)
  {
    hide Matcher.Matches, IsYaml;
  }

  // All backups that should go can be removed.
  ghost predicate Removable(envs: Envs) { forall file :: envs(file).stubborn == {} }

  lemma {:induction false} BackupsInTurn(s: State, envs: Envs, keep: int, n: nat, file: string)
    requires TidyNames(s.configs) && Stands(s.configs, file) && n <= |s.configs| && keep > 0 && Removable(envs)
    ensures var left := Backups(DiskAfter(s, envs, keep, n), file);
            && ((forall j: nat | j < n && s.configs[j].dirty :: s.configs[j].file != file) ==> left == Backups(s.disk, file))
            && forall j: nat | j < n && s.configs[j].dirty && s.configs[j].file == file ::
                 if Saves(s.disk, s.configs[j], envs(file)) then |left| <= keep
                 else |left| <= |Backups(s.disk, file)| + if LeavesHole(s.disk, s.configs[j], envs(file)) then 1 else 0
  {
    hide FileSave, Saves, LeavesHole, Backups, ApartFrom, Removable;
    if n > 0 {
      BackupsInTurn(s, envs, keep, n - 1, file);
      var disk, c := DiskAfter(s, envs, keep, n - 1), s.configs[n - 1];
      assert forall j: nat | j < n - 1 :: s.configs[j].file != c.file;
      if c.dirty {
        if c.file == file {
          RemovesAll(envs, file);
          OwnBackups(disk, c, envs(file), keep);
          OwnFileBefore(s, envs, keep, n - 1);
          SavesAlike(s.disk, disk, c, envs(file));
        } else {
          OtherBackups(disk, c, envs(c.file), keep, file);
        }
      }
    }
  }

  lemma RemovesAll(envs: Envs, file: string)
    requires Removable(envs)
    ensures envs(file).stubborn == {}
  {}

  lemma OwnFileBefore(s: State, envs: Envs, keep: int, j: nat)
    requires TidyNames(s.configs) && j < |s.configs|
    ensures SameAt(s.disk, DiskAfter(s, envs, keep, j), s.configs[j].file)
  {
    OwnTurn(s, envs, keep, j, j);
  }

  // The file was lost after it became a backup.
  predicate Lost(s: State, file: string) {
    exists i: nat | i < |s.configs| ::
      s.configs[i].file == file && s.configs[i].dirty && !s.configs[i].empty && file !in s.disk
  }

  ghost predicate Bounded(s: State, keep: int, file: string) {
    |Backups(s.disk, file)| <= keep + if Lost(s, file) then 1 else 0
  }

  // What a save fails on is still there, dirty or not.
  lemma LostAfter(s: State, envs: Envs, keep: int, i: nat)
    requires TidyNames(s.configs) && i < |s.configs| && s.configs[i].dirty && !s.configs[i].empty
    requires s.configs[i].file !in s.disk || (i == Reached(s, envs, keep) && LeavesHole(s.disk, s.configs[i], envs(s.configs[i].file)))
    ensures Lost(SaveAll(s, envs, keep).after, s.configs[i].file)
  {
    var r := SaveAll(s, envs, keep);
    OwnFileAfter(s, envs, keep, i);
    hide TidyNames, DiskAfter, FirstStop, NewContent, Compacted;
    assert r.after.configs[i] == s.configs[i];
  }

  lemma LostStays(s: State, envs: Envs, keep: int, file: string)
    requires TidyNames(s.configs)
    ensures Lost(s, file) ==> Lost(SaveAll(s, envs, keep).after, file)
  {
    hide TidyNames, SaveAll, Reached;
    if i: nat :| i < |s.configs| && s.configs[i].file == file && s.configs[i].dirty && !s.configs[i].empty
                 && file !in s.disk {
      LostAfter(s, envs, keep, i);
    }
  }

  lemma SaveKeepsBounded(s: State, envs: Envs, keep: int, file: string)
    requires TidyNames(s.configs) && Stands(s.configs, file) && keep > 0 && Removable(envs)
    requires Bounded(s, keep, file)
    ensures Bounded(SaveAll(s, envs, keep).after, keep, file)
  {
    var n := Reached(s, envs, keep);
    var m := if n == |s.configs| then n else n + 1;
    DiskWhenDone(s, envs, keep);
    BackupsInTurn(s, envs, keep, m, file);
    LostStays(s, envs, keep, file);
    hide TidyNames, SaveAll, Reached, Stands, Removable, Backups, Lost, Saves, DiskAfter;
    if j: nat :| j < m && s.configs[j].dirty && s.configs[j].file == file && !Saves(s.disk, s.configs[j], envs(file)) {
      OwnFileAfter(s, envs, keep, j);
      if LeavesHole(s.disk, s.configs[j], envs(file)) {
        LostAfter(s, envs, keep, j);
        NotLostYet(s, file);
      }
    }
  }

  lemma NotLostYet(s: State, file: string)
    requires file in s.disk
    ensures !Lost(s, file)
  {}

  // A config that a save gets past has at most "keep" backups of its file right after.
  lemma BoundedWhenSaved(s: State, envs: Envs, keep: int, j: nat)
    requires TidyNames(s.configs) && keep > 0 && Removable(envs) && j < Reached(s, envs, keep) && s.configs[j].dirty
    ensures |Backups(SaveAll(s, envs, keep).after.disk, s.configs[j].file)| <= keep
  {
    var n, file := Reached(s, envs, keep), s.configs[j].file;
    DiskWhenDone(s, envs, keep);
    TrackedStands(s.configs, j);
    OwnFileAfter(s, envs, keep, j);
    BackupsInTurn(s, envs, keep, if n == |s.configs| then n else n + 1, file);
    hide TidyNames, SaveAll, Reached, Stands, Removable, Backups, Saves, DiskAfter, OwnFileSaved;
  }

  // -------------------------------------------------------------------------- runs

  lemma CallKeepsBounded(s: State, call: Call, keep: int, file: string)
    requires Valid(s) && Stands(s.configs, file) && keep > 0 && Removable(call.envs) && Bounded(s, keep, file)
    ensures Bounded(CallOn(s, call, keep).after, keep, file)
  {
    var m := Mark(s, call.iface, call.change);
    MarkKeeps(s, call.iface, call.change);
    assert Lost(s, file) ==> Lost(m, file) by {
      if i: nat :| i < |s.configs| && s.configs[i].file == file && s.configs[i].dirty && !s.configs[i].empty
                   && file !in s.disk {
        assert m.configs[i].dirty;
      }
    }
    assert Stands(m.configs, file);
    hide SeparateKinds, TidyNames, SaveAll, Mark, Lost, Backups, Stands, Removable, Stuck, Complete;
    SaveKeepsBounded(m, call.envs, keep, file);
  }

  lemma StandsStill(before: seq<Config>, after: seq<Config>, file: string)
    requires Stands(before, file) && SameOrFewer(before, after)
    ensures Stands(after, file)
  {
    hide ApartFrom;
    forall j: nat | j < |after| ensures after[j].file == file || ApartFrom(after[j].file, file) {
      assert IsTracked(before, after[j].file);
      var i: nat :| i < |before| && before[i].file == after[j].file;
    }
  }

  // Over any run in which no removal fails, a file with at most "keep" backups keeps it
  // so, but for the backup it became when it was lost.
  lemma {:induction false} RunKeepsBounded(s: State, calls: seq<Call>, keep: int, file: string)
    requires Valid(s) && Stands(s.configs, file) && keep > 0 && Bounded(s, keep, file)
    requires forall k: nat | k < |calls| :: Removable(calls[k].envs)
    ensures Bounded(RunOn(s, calls, keep), keep, file)
  {
    hide Valid, Stands, Bounded, CallOn, Removable, SameOrFewer, NoNewYaml, LeftAlone, Complete;
    if calls != [] {
      var front := calls[..|calls| - 1];
      RunKeepsBounded(s, front, keep, file);
      RunKeeps(s, front, keep);
      RunLeavesOthersAlone(s, front, keep);
      StandsStill(s.configs, RunOn(s, front, keep).configs, file);
      CallKeepsBounded(RunOn(s, front, keep), calls[|calls| - 1], keep, file);
    }
  }

  // The k-th call of the run writes or removes the file of config j.
  predicate SavedBy(s: State, call: Call, keep: int, j: nat) {
    var m := Mark(s, call.iface, call.change);
    j < Reached(m, call.envs, keep) && m.configs[j].dirty
  }

  // Over any run in which no removal fails, every file that a call saved has at most
  // "keep" backups right after it and ever after, unless it was lost.
  lemma SavedStaysBounded(s: State, calls: seq<Call>, keep: int, k: nat, j: nat)
    requires Valid(s) && keep > 0 && k < |calls| && forall l: nat | l < |calls| :: Removable(calls[l].envs)
    requires SavedBy(RunOn(s, calls[..k], keep), calls[k], keep, j)
    ensures var end := RunOn(s, calls, keep);
            && j < |RunOn(s, calls[..k], keep).configs|
            && var file := RunOn(s, calls[..k], keep).configs[j].file;
            && |Backups(RunOn(s, calls[..k + 1], keep).disk, file)| <= keep
            && |Backups(end.disk, file)| <= keep + if Lost(end, file) then 1 else 0
  {
    var before, after := RunOn(s, calls[..k], keep), RunOn(s, calls[..k + 1], keep);
    var m := Mark(before, calls[k].iface, calls[k].change);
    var file := m.configs[j].file;
    RunKeeps(s, calls[..k], keep);
    RunKeeps(s, calls[..k + 1], keep);
    RunStep(s, calls, keep, k);
    MarkKeeps(before, calls[k].iface, calls[k].change);
    BoundedWhenSaved(m, calls[k].envs, keep, j);
    TrackedStands(before.configs, j);
    CallKeepsOthers(before, calls[k], keep);
    StandsStill(before.configs, after.configs, file);
    RunKeepsBounded(after, calls[k + 1..], keep, file);
    RunAgain(s, calls, keep, k + 1);
  }

  lemma {:induction false} RunAgain(s: State, calls: seq<Call>, keep: int, k: nat)
    requires k <= |calls|
    ensures RunOn(RunOn(s, calls[..k], keep), calls[k..], keep) == RunOn(s, calls, keep)
    decreases |calls|
  {
    hide CallOn;
    var rest := calls[k..];
    if k < |calls| {
      var front := calls[..|calls| - 1];
      RunAgain(s, front, keep, k);
      assert rest[..|rest| - 1] == front[k..] && front[..k] == calls[..k];
    } else {
      assert calls[..k] == calls;
    }
  }
}
