// netplan.go: Save over all tracked configs. When it succeeds, what it leaves on disk,
// and what it leaves behind when it fails.
module NetplanSaving {
  import opened Text
  import opened Mergo
  import opened NetplanLoader
  import opened NetplanLoaded
  import opened NetplanDocument
  import opened NetplanLifecycle
  import opened Retention

  datatype State = State(configs: seq<Config>, disk: Disk)

  // What the system does to the save of each file.
  type Envs = string -> Env

  function Cleaned(c: Config): Config { if c.empty then c else c.(dirty := false) }

  predicate Removed(c: Config) { c.dirty && c.empty }

  // What the compaction leaves.
  function Compacted(configs: seq<Config>): seq<Config> {
    if configs == [] then []
    else
      var front, last := Compacted(configs[..|configs| - 1]), configs[|configs| - 1];
      if Removed(last) then front else front + [last]
  }

  // The in-place filter: kept entries move down over dropped ones.
  method CompactInPlace(a: array<Config>) returns (kept: nat)
    modifies a
    ensures kept <= a.Length && a[..kept] == Compacted(old(a[..]))
  {
    kept := 0;
    for i := 0 to a.Length
      invariant kept <= i && a[..kept] == Compacted(old(a[..])[..i])
      invariant a[i..] == old(a[..])[i..]
    {
      var config := a[i];
      assert config == a[i..][0] == old(a[..])[i];
      assert old(a[..])[..i + 1][..i] == old(a[..])[..i];
      assert a[i + 1..] == a[i..][1..];
      if config.dirty && config.empty { continue; }
      a[kept] := config;
      kept := kept + 1;
    }
    assert old(a[..])[..a.Length] == old(a[..]);
  }

  function CleanedAll(configs: seq<Config>): seq<Config> {
    seq(|configs|, i requires 0 <= i < |configs| => Cleaned(configs[i]))
  }

  // ------------------------------------------------------------- saving all of them

  // The disk once the first n configs have been gone through.
  function DiskAfter(s: State, envs: Envs, keep: int, n: nat): Disk
    requires n <= |s.configs|
  {
    if n == 0 then s.disk
    else
      var disk, c := DiskAfter(s, envs, keep, n - 1), s.configs[n - 1];
      if c.dirty then FileSave(disk, c, envs(c.file), keep).disk else disk
  }

  predicate StopsAt(s: State, envs: Envs, keep: int, n: nat)
    requires n < |s.configs|
  {
    var c := s.configs[n];
    c.dirty && !Saves(DiskAfter(s, envs, keep, n), c, envs(c.file))
  }

  // The first config from i on whose save fails, or their number.
  function FirstStop(s: State, envs: Envs, keep: int, i: nat): (n: nat)
    requires i <= |s.configs|
    ensures i <= n <= |s.configs|
    ensures n < |s.configs| ==> StopsAt(s, envs, keep, n)
    ensures forall j: nat | i <= j < n :: !StopsAt(s, envs, keep, j)
    decreases |s.configs| - i
  {
    if i == |s.configs| || StopsAt(s, envs, keep, i) then i else FirstStop(s, envs, keep, i + 1)
  }

  datatype Result = Result(ok: bool, after: State)

  function SaveAll(s: State, envs: Envs, keep: int): Result {
    var n := FirstStop(s, envs, keep, 0);
    if n == |s.configs| then Result(true, State(Compacted(CleanedAll(s.configs)), DiskAfter(s, envs, keep, n)))
    else Result(false, State(CleanedAll(s.configs[..n]) + s.configs[n..], DiskAfter(s, envs, keep, n + 1)))
  }

  class Netplan {
    var configs: seq<Config>
    var disk: Disk
    const retention: int

    function Now(): State
      reads this
    {
      State(configs, disk)
    }

    constructor (configs0: seq<Config>, disk0: Disk, retention0: int)
      ensures configs == configs0 && disk == disk0 && retention == retention0
    {
      configs, disk, retention := configs0, disk0, retention0;
    }

    method Save(envs: Envs) returns (ok: bool)
      modifies this
      ensures Result(ok, Now()) == SaveAll(old(Now()), envs, retention)
      ensures Valid(old(Now())) ==> Valid(Now())
      ensures Valid(old(Now())) ==> (ok <==> AllSave(old(Now()), envs))
    {
      hide Abandoned, Placed, PrunedDisk, Saves, Valid, AllSave;
      ghost var s := Now();
      for i := 0 to |configs|
        invariant |configs| == |s.configs| && disk == DiskAfter(s, envs, retention, i)
        invariant forall j: nat | j < |configs| :: configs[j] == if j < i then Cleaned(s.configs[j]) else s.configs[j]
        invariant forall j: nat | j < i :: !StopsAt(s, envs, retention, j)
      {
        var config := configs[i];
        if !config.dirty { continue; }
        var saved, after := SaveConfig(disk, config, envs(config.file), retention);
        disk := after;
        if !saved {
          assert configs == CleanedAll(s.configs[..i]) + s.configs[i..];
          FirstStopIs(s, envs, retention, i);
          PromisesHold(s, envs, retention);
          return false;
        }
        configs := configs[i := Cleaned(config)];
      }
      var all := configs;
      var backing := new Config[|all|](i requires 0 <= i < |all| => all[i]);
      assert backing[..] == configs == CleanedAll(s.configs);
      var kept := CompactInPlace(backing);
      configs := backing[..kept];
      FirstStopIs(s, envs, retention, |s.configs|);
      PromisesHold(s, envs, retention);
      ok := true;
    }
  }

  ghost predicate Valid(s: State) {
    && TidyNames(s.configs) && SeparateKinds(s.configs)
    && forall i: nat | i < |s.configs| ::
         EmptyIsEmpty(s.configs[i]) && (!s.configs[i].dirty ==> Agrees(s.configs[i], s.disk))
  }

  lemma ValidIsTidy(s: State)
    requires Valid(s)
    ensures TidyNames(s.configs)
  {}

  // A config waits to be saved whose file is gone.
  predicate Stuck(s: State) { exists i: nat | i < |s.configs| :: s.configs[i].dirty && s.configs[i].file !in s.disk }

  lemma FirstStopIs(s: State, envs: Envs, keep: int, n: nat)
    requires n <= |s.configs| && (n < |s.configs| ==> StopsAt(s, envs, keep, n))
    requires forall j: nat | j < n :: !StopsAt(s, envs, keep, j)
    ensures FirstStop(s, envs, keep, 0) == n
  {
    hide StopsAt;
  }

  // ------------------------------------------------------------------ file by file

  lemma OthersSpared(configs: seq<Config>, i: nat, j: nat)
    requires TidyNames(configs) && i < |configs| && j < |configs| && i != j
    ensures !Touches(configs[i].file, configs[j].file)
  {
    if IsTemp(configs[i].file, configs[j].file) { TempIsNoYaml(configs[i].file, configs[j].file); }
    hide IsTemp, IsYaml, Matcher.Matches;
    assert configs[i].file != configs[j].file by {
      if i < j { assert configs[i].file != configs[j].file; } else { assert configs[j].file != configs[i].file; }
    }
  }

  // A tracked file changes in its own config's turn only.
  lemma {:induction false} OwnTurn(s: State, envs: Envs, keep: int, n: nat, j: nat)
    requires TidyNames(s.configs) && n <= |s.configs| && j < |s.configs|
    ensures var c := s.configs[j];
            if j < n && c.dirty then OwnFileSaved(s.disk, c, envs(c.file), DiskAfter(s, envs, keep, n))
            else SameAt(s.disk, DiskAfter(s, envs, keep, n), c.file)
  {
    hide TidyNames, FileSave, Touches, NewContent, Saves;
    if n > 0 {
      OwnTurn(s, envs, keep, n - 1, j);
      var disk, c := DiskAfter(s, envs, keep, n - 1), s.configs[n - 1];
      if c.dirty {
        OneFileSaved(disk, c, envs(c.file), keep);
        if j == n - 1 {
          SavesAlike(disk, s.disk, c, envs(c.file));
        } else {
          OthersSpared(s.configs, n - 1, j);
          assert SameAt(disk, DiskAfter(s, envs, keep, n), s.configs[j].file);
        }
      }
    }
  }

  lemma SavesAlike(a: Disk, b: Disk, c: Config, e: Env)
    requires SameAt(a, b, c.file)
    ensures Saves(a, c, e) <==> Saves(b, c, e)
    ensures LeavesHole(a, c, e) <==> LeavesHole(b, c, e)
  {}

  lemma StopsWhen(s: State, envs: Envs, keep: int, n: nat)
    requires TidyNames(s.configs) && n < |s.configs|
    ensures var c := s.configs[n];
            StopsAt(s, envs, keep, n) <==> c.dirty && !Saves(s.disk, c, envs(c.file))
  {
    OwnTurn(s, envs, keep, n, n);
    var c := s.configs[n];
    hide TidyNames;
    SavesAlike(s.disk, DiskAfter(s, envs, keep, n), c, envs(c.file));
  }

  // No dirty config's file is missing, and no fault strikes its save.
  predicate AllSave(s: State, envs: Envs) {
    forall i: nat | i < |s.configs| && s.configs[i].dirty :: Saves(s.disk, s.configs[i], envs(s.configs[i].file))
  }

  // A save succeeds exactly when no file to be saved is missing and none of its own
  // faults strikes.
  lemma SaveSucceedsIff(s: State, envs: Envs, keep: int)
    requires TidyNames(s.configs)
    ensures SaveAll(s, envs, keep).ok <==> AllSave(s, envs)
  {
    forall i: nat | i < |s.configs|
      ensures StopsAt(s, envs, keep, i) <==>
                s.configs[i].dirty && !Saves(s.disk, s.configs[i], envs(s.configs[i].file))
    {
      StopsWhen(s, envs, keep, i);
    }
    hide TidyNames, StopsAt, Saves;
  }

  // How far a save got: the configs before are done, and this one's failed.
  function Reached(s: State, envs: Envs, keep: int): nat { FirstStop(s, envs, keep, 0) }

  // What a save does to the file of every config.
  lemma OwnFileAfter(s: State, envs: Envs, keep: int, j: nat)
    requires TidyNames(s.configs) && j < |s.configs|
    ensures var c, n, after := s.configs[j], Reached(s, envs, keep), SaveAll(s, envs, keep).after.disk;
            && (if j <= n && c.dirty then OwnFileSaved(s.disk, c, envs(c.file), after) else SameAt(s.disk, after, c.file))
            && (j < n && c.dirty ==> Saves(s.disk, c, envs(c.file)))
            && (j == n ==> c.dirty && !Saves(s.disk, c, envs(c.file)))
  {
    var n := Reached(s, envs, keep);
    OwnTurn(s, envs, keep, if n == |s.configs| then n else n + 1, j);
    if j <= n { StopsWhen(s, envs, keep, j); }
    hide TidyNames, StopsAt, Saves, OwnFileSaved;
  }

  // What a failed save makes of a config: it waits for a file that is missing.
  predicate Waits(s: State, envs: Envs, keep: int, j: nat)
    requires j < |s.configs|
  {
    var c, n := s.configs[j], Reached(s, envs, keep);
    if j < n then Removed(c)
    else c.dirty && (c.file !in s.disk || (j == n && LeavesHole(s.disk, c, envs(c.file))))
  }

  lemma WaitsAfter(s: State, envs: Envs, keep: int, j: nat)
    requires TidyNames(s.configs) && j < |s.configs| && !SaveAll(s, envs, keep).ok
    ensures var after := SaveAll(s, envs, keep).after;
            && |after.configs| == |s.configs|
            && (after.configs[j].dirty && after.configs[j].file !in after.disk <==> Waits(s, envs, keep, j))
  {
    OwnFileAfter(s, envs, keep, j);
    hide TidyNames, FirstStop, DiskAfter, NewContent;
  }

  // After a save some config waits for a missing file if and only if one did before,
  // or the save failed after removing an emptied file, or lost the very file it
  // failed on.
  lemma StuckAfterSaveIff(s: State, envs: Envs, keep: int)
    requires TidyNames(s.configs)
    ensures var r, n := SaveAll(s, envs, keep), Reached(s, envs, keep);
            Stuck(r.after) <==>
            || Stuck(s)
            || (!r.ok && exists j: nat | j < n :: Removed(s.configs[j]))
            || (!r.ok && LeavesHole(s.disk, s.configs[n], envs(s.configs[n].file)))
  {
    var r, n := SaveAll(s, envs, keep), Reached(s, envs, keep);
    SaveSucceedsIff(s, envs, keep);
    if r.ok {
      CompactedFacts(CleanedAll(s.configs));
      hide TidyNames, FirstStop, DiskAfter, Compacted;
    } else {
      forall j: nat | j < |s.configs|
        ensures r.after.configs[j].dirty && r.after.configs[j].file !in r.after.disk <==> Waits(s, envs, keep, j)
      {
        WaitsAfter(s, envs, keep, j);
      }
      OwnFileAfter(s, envs, keep, n);
      StuckWhenWaiting(s, envs, keep);
      hide TidyNames, SaveAll, LeavesHole, Waits;
      assert |r.after.configs| == |s.configs| by { WaitsAfter(s, envs, keep, n); }
    }
  }

  lemma StuckWhenWaiting(s: State, envs: Envs, keep: int)
    requires TidyNames(s.configs) && Reached(s, envs, keep) < |s.configs|
    ensures var n := Reached(s, envs, keep);
            (exists j: nat | j < |s.configs| :: Waits(s, envs, keep, j)) <==>
            || Stuck(s)
            || (exists j: nat | j < n :: Removed(s.configs[j]))
            || LeavesHole(s.disk, s.configs[n], envs(s.configs[n].file))
  {
    var n := Reached(s, envs, keep);
    forall j: nat | j < |s.configs| ensures j < n && s.configs[j].dirty ==> s.configs[j].file in s.disk {
      OwnFileAfter(s, envs, keep, j);
    }
    OwnFileAfter(s, envs, keep, n);
    hide TidyNames, Reached, SaveAll;
    if Stuck(s) {
      var j: nat :| j < |s.configs| && s.configs[j].dirty && s.configs[j].file !in s.disk;
      assert Waits(s, envs, keep, j);
    }
    if j: nat :| j < n && Removed(s.configs[j]) { assert Waits(s, envs, keep, j); }
    if LeavesHole(s.disk, s.configs[n], envs(s.configs[n].file)) { assert Waits(s, envs, keep, n); }
  }

  // ------------------------------------------------------------- what the configs keep

  // Where each kept config was.
  ghost predicate Positions(configs: seq<Config>, kept: seq<Config>, idx: seq<nat>) {
    && |idx| == |kept|
    && (forall k: nat | k < |idx| :: idx[k] < |configs| && kept[k] == configs[idx[k]] && !Removed(configs[idx[k]]))
    && (forall k, l | 0 <= k < l < |idx| :: idx[k] < idx[l])
    && forall i: nat | i < |configs| && !Removed(configs[i]) :: i in idx
  }

  lemma {:induction false} CompactedIndex(configs: seq<Config>) returns (idx: seq<nat>)
    ensures Positions(configs, Compacted(configs), idx)
  {
    if configs == [] {
      idx := [];
    } else {
      var n := |configs| - 1;
      idx := CompactedIndex(configs[..n]);
      hide Positions;
      OnePosition(configs, Compacted(configs[..n]), idx);
      idx := if Removed(configs[n]) then idx else idx + [n];
    }
  }

  lemma OnePosition(configs: seq<Config>, kept: seq<Config>, idx: seq<nat>)
    requires configs != [] && Positions(configs[..|configs| - 1], kept, idx)
    ensures var n := |configs| - 1;
            if Removed(configs[n]) then Positions(configs, kept, idx) else Positions(configs, kept + [configs[n]], idx + [n])
  {
    hide Removed;
    var n := |configs| - 1;
    assert forall i: nat | i < n :: configs[..n][i] == configs[i];
    var all := idx + [n];
    assert all[|idx|] == n && forall k: nat | k < |idx| :: all[k] == idx[k];
    assert forall i :: i in all <==> i in idx || i == n;
  }

  // Cleaning flags changes no name and no entry.
  lemma KeptTidy(configs0: seq<Config>, configs: seq<Config>)
    requires |configs| == |configs0|
    requires forall i: nat | i < |configs| :: configs[i] == configs0[i] || configs[i] == Cleaned(configs0[i])
    ensures TidyNames(configs0) ==> TidyNames(configs)
    ensures SeparateKinds(configs0) ==> SeparateKinds(configs)
    ensures forall i: nat | i < |configs| :: EmptyIsEmpty(configs0[i]) ==> EmptyIsEmpty(configs[i])
  {
    hide IsYaml, Matcher.Matches, OfKind;
    assert forall i: nat | i < |configs| ::
        configs[i].file == configs0[i].file && configs[i].network == configs0[i].network;
  }

  lemma CompactedFacts(configs: seq<Config>)
    ensures TidyNames(configs) ==> TidyNames(Compacted(configs))
    ensures SeparateKinds(configs) ==> SeparateKinds(Compacted(configs))
    ensures forall k: nat | k < |Compacted(configs)| ::
              !Removed(Compacted(configs)[k]) && exists i: nat :: i < |configs| && Compacted(configs)[k] == configs[i]
  {
    hide IsYaml, Matcher.Matches, OfKind, Compacted;
    var idx := CompactedIndex(configs);
    var c := Compacted(configs);
    forall k: nat | k < |c| ensures !Removed(c[k]) && exists i: nat :: i < |configs| && c[k] == configs[i] {
      assert c[k] == configs[idx[k]];
    }
    if SeparateKinds(configs) {
      forall t, k, l, x | t in KINDS && 0 <= k < l < |c| && x in OfKind(c[k].network, t)
        ensures x !in OfKind(c[l].network, t)
      {
        assert idx[k] < idx[l];
      }
    }
    if TidyNames(configs) {
      forall k, l | 0 <= k < l < |c| ensures c[k].file != c[l].file { assert idx[k] < idx[l]; }
    }
  }

  lemma WrittenAgrees(c: Config, disk: Disk)
    requires c.file in disk && disk[c.file].content == Content(Some(Encode(c.network)), 0) && !disk[c.file].isDir
    ensures Agrees(c, disk)
  {
    DecodeEncode(c.network);
    hide Encode, Decode;
  }

  lemma CleanAgrees(s: State, envs: Envs, keep: int, j: nat)
    requires Valid(s) && j < |s.configs|
    ensures var c := if j < Reached(s, envs, keep) then Cleaned(s.configs[j]) else s.configs[j];
            !c.dirty ==> Agrees(c, SaveAll(s, envs, keep).after.disk)
  {
    var c := s.configs[j];
    OwnFileAfter(s, envs, keep, j);
    hide TidyNames, SeparateKinds, EmptyIsEmpty, FirstStop, DiskAfter, Decode, Encode;
    var after := SaveAll(s, envs, keep).after.disk;
    if j < Reached(s, envs, keep) && c.dirty && !c.empty {
      WrittenAgrees(Cleaned(c), after);
    }
  }

  lemma CompactedValid(configs: seq<Config>, disk: Disk)
    requires Valid(State(configs, disk))
    ensures Valid(State(Compacted(configs), disk))
    ensures (forall i: nat | i < |configs| :: configs[i].dirty ==> configs[i].empty) ==>
              forall k: nat | k < |Compacted(configs)| :: !Compacted(configs)[k].dirty
  {
    hide Agrees, TidyNames, SeparateKinds, EmptyIsEmpty, Compacted;
    CompactedFacts(configs);
  }

  // The configs with the flags cleared that a save gets to.
  function Flagged(s: State, envs: Envs, keep: int): seq<Config> {
    var n := Reached(s, envs, keep);
    CleanedAll(s.configs[..n]) + s.configs[n..]
  }

  lemma FlaggedFacts(s: State, envs: Envs, keep: int)
    ensures var r, cleaned, n := SaveAll(s, envs, keep), Flagged(s, envs, keep), Reached(s, envs, keep);
            && |cleaned| == |s.configs|
            && (forall i: nat | i < |cleaned| ::
                  cleaned[i] == (if i < n then Cleaned(s.configs[i]) else s.configs[i])
                  && (r.ok ==> i < n) && cleaned[i].file == s.configs[i].file)
            && r.after.configs == (if r.ok then Compacted(cleaned) else cleaned)
  {
    hide DiskAfter, Compacted, StopsAt;
    var cleaned := Flagged(s, envs, keep);
    if SaveAll(s, envs, keep).ok { assert cleaned == CleanedAll(s.configs); }
  }

  lemma FlaggedValid(s: State, envs: Envs, keep: int)
    requires Valid(s)
    ensures Valid(State(Flagged(s, envs, keep), SaveAll(s, envs, keep).after.disk))
  {
    var cleaned, disk := Flagged(s, envs, keep), SaveAll(s, envs, keep).after.disk;
    FlaggedFacts(s, envs, keep);
    hide Agrees, TidyNames, SeparateKinds, EmptyIsEmpty, SaveAll, Flagged;
    KeptTidy(s.configs, cleaned);
    forall j: nat | j < |cleaned| ensures !cleaned[j].dirty ==> Agrees(cleaned[j], disk) {
      CleanAgrees(s, envs, keep, j);
    }
  }

  // Whether a save succeeds or fails, every clean config agrees with its file.
  lemma SaveKeepsValid(s: State, envs: Envs, keep: int)
    requires Valid(s)
    ensures var r := SaveAll(s, envs, keep);
            Valid(r.after) && (r.ok ==> forall i: nat | i < |r.after.configs| :: !r.after.configs[i].dirty)
  {
    FlaggedFacts(s, envs, keep);
    FlaggedValid(s, envs, keep);
    hide Valid, SaveAll, Flagged, Reached, Compacted;
    if SaveAll(s, envs, keep).ok { CompactedValid(Flagged(s, envs, keep), SaveAll(s, envs, keep).after.disk); }
  }

  lemma PromisesHold(s: State, envs: Envs, keep: int)
    ensures Valid(s) ==>
              && Valid(SaveAll(s, envs, keep).after)
              && (SaveAll(s, envs, keep).ok <==> AllSave(s, envs))
  {
    hide SaveAll, Saves;
    if Valid(s) {
      SaveKeepsValid(s, envs, keep);
      SaveSucceedsIff(s, envs, keep);
    }
  }

  // ----------------------------------------------------------------- the other files

  // No dirty config touches the name.
  ghost predicate Spared(configs: seq<Config>, name: string) {
    forall j: nat | j < |configs| && configs[j].dirty :: !Touches(configs[j].file, name)
  }

  predicate IsTracked(configs: seq<Config>, n: string) { exists i: nat | i < |configs| :: configs[i].file == n }

  // No YAML file has appeared, and only tracked ones have changed.
  ghost predicate NoNewYaml(configs: seq<Config>, disk0: Disk, disk: Disk) {
    forall n :: IsYaml(n) && n in disk ==> n in disk0 && (disk[n] == disk0[n] || IsTracked(configs, n))
  }

  lemma {:induction false} OthersStay(s: State, envs: Envs, keep: int, n: nat)
    requires n <= |s.configs|
    ensures forall name :: Spared(s.configs, name) ==> SameAt(DiskAfter(s, envs, keep, n), s.disk, name)
    ensures NoNewYaml(s.configs, s.disk, DiskAfter(s, envs, keep, n))
  {
    hide FileSave, Touches, Prunes, NewContent, Saves, LeavesHole, IsYaml;
    if n > 0 {
      OthersStay(s, envs, keep, n - 1);
      var disk, c := DiskAfter(s, envs, keep, n - 1), s.configs[n - 1];
      if c.dirty {
        OneFileSaved(disk, c, envs(c.file), keep);
        OwnFileWasThere(disk, c, envs(c.file), keep);
        assert IsTracked(s.configs, c.file);
        forall name | Spared(s.configs, name) ensures SameAt(DiskAfter(s, envs, keep, n), s.disk, name) {
          assert SameAt(disk, s.disk, name) && !Touches(c.file, name);
        }
      }
    }
  }

  // Files that no dirty config touches stay, and no YAML file appears.
  lemma OthersAfter(s: State, envs: Envs, keep: int)
    ensures var after := SaveAll(s, envs, keep).after.disk;
            (forall name :: Spared(s.configs, name) ==> SameAt(after, s.disk, name)) && NoNewYaml(s.configs, s.disk, after)
  {
    hide *;
    var n := Reached(s, envs, keep);
    DiskWhenDone(s, envs, keep);
    OthersStay(s, envs, keep, if n == |s.configs| then n else n + 1);
  }

  lemma OwnFileWasThere(disk: Disk, c: Config, e: Env, keep: int)
    ensures c.file in FileSave(disk, c, e, keep).disk ==> c.file in disk
  {
    OneFileSaved(disk, c, e, keep);
    hide FileSave, Touches, Prunes, NewContent, IsYaml;
  }

  // A save that succeeds takes the top-level routes out of exactly those files that it
  // writes and that had some.
  lemma RoutesAreLost(s: State, envs: Envs, keep: int, j: nat)
    requires TidyNames(s.configs) && SaveAll(s, envs, keep).ok && j < |s.configs| && s.configs[j].file in s.disk
    ensures var c, after := s.configs[j], SaveAll(s, envs, keep).after.disk;
            c.file in after && after[c.file].content.routes != s.disk[c.file].content.routes <==>
            c.dirty && !c.empty && s.disk[c.file].content.routes > 0
  {
    OwnFileAfter(s, envs, keep, j);
    hide TidyNames, FirstStop, DiskAfter, Encode;
  }

  // Some config's turn takes the YAML file for an old backup.
  predicate PrunedInTurn(s: State, envs: Envs, keep: int, j: nat, name: string)
    requires j < |s.configs|
  {
    s.configs[j].dirty && Prunes(DiskAfter(s, envs, keep, j), s.configs[j], envs(s.configs[j].file), keep, name)
  }

  // Whatever the tracked files are called, a YAML file that no dirty config owns so far is gone
  // after n turns if and only if one of them took it for an old backup.
  lemma {:induction false} GoneWhenPruned(s: State, envs: Envs, keep: int, n: nat, name: string)
    requires n <= |s.configs| && IsYaml(name) && name in s.disk
    requires forall j: nat | j < n && s.configs[j].dirty :: s.configs[j].file != name
    ensures var disk := DiskAfter(s, envs, keep, n);
            && (name !in disk <==> exists j: nat | j < n :: PrunedInTurn(s, envs, keep, j, name))
            && (name in disk ==> disk[name] == s.disk[name])
  {
    hide FileSave, Prunes, IsYaml, OwnFileSaved, Touches;
    if n > 0 {
      GoneWhenPruned(s, envs, keep, n - 1, name);
      var disk, c := DiskAfter(s, envs, keep, n - 1), s.configs[n - 1];
      if c.dirty {
        OneFileSaved(disk, c, envs(c.file), keep);
        assert PrunedInTurn(s, envs, keep, n - 1, name) <==> Prunes(disk, c, envs(c.file), keep, name);
      }
    }
  }

  lemma StoppedPrunesNothing(s: State, envs: Envs, keep: int, n: nat, name: string)
    requires n < |s.configs| && StopsAt(s, envs, keep, n)
    ensures !PrunedInTurn(s, envs, keep, n, name)
  {
    hide DiskAfter, Goes, Stamped;
  }

  lemma GoneAfterSaveIff(s: State, envs: Envs, keep: int, name: string)
    requires IsYaml(name) && name in s.disk
    requires forall j: nat | j < |s.configs| && s.configs[j].dirty :: s.configs[j].file != name
    ensures name !in SaveAll(s, envs, keep).after.disk <==>
              exists j: nat | j < Reached(s, envs, keep) :: PrunedInTurn(s, envs, keep, j, name)
  {
    hide *;
    var n := Reached(s, envs, keep);
    DiskWhenDone(s, envs, keep);
    var m := if n == |s.configs| then n else n + 1;
    GoneWhenPruned(s, envs, keep, m, name);
    if n < |s.configs| { StoppedPrunesNothing(s, envs, keep, n, name); }
  }

  lemma DiskWhenDone(s: State, envs: Envs, keep: int)
    ensures var n := Reached(s, envs, keep);
            && n <= |s.configs| && (n < |s.configs| ==> StopsAt(s, envs, keep, n))
            && SaveAll(s, envs, keep).after.disk == DiskAfter(s, envs, keep, if n == |s.configs| then n else n + 1)
  {
    hide StopsAt, DiskAfter;
  }
}
