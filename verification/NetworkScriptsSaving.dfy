// networkScripts.go: the file moves of nsInterface.Save, any of which may fail. The new
// file is written aside, the old ones are moved to backups one by one, and the new one is
// moved in; only then does the interface track it.
module NetworkScriptsSaving {
  import opened Text

  type Disk = map<string, seq<string>>

  // A backup fault strikes the move of the old file at an index.
  datatype Fault = NoFault | OpenFault | BackupFault(at: nat) | PlaceFault

  datatype Env = Env(fault: Fault, tmpStamp: nat, bakStamp: nat)

  function TmpName(e: Env, file: string): string { ".tmp." + Numeral(e.tmpStamp, 10) + "." + file }

  function BakName(e: Env, file: string): string { ".bak." + Numeral(e.bakStamp, 10) + "." + file }

  // Only files named so are taken for configs.
  predicate IsConfig(name: string) { HasPrefix(name, "ifcfg-") }

  predicate Configs(names: seq<string>) {
    && (forall i: nat | i < |names| :: IsConfig(names[i]))
    && forall i, j | 0 <= i < j < |names| :: names[i] != names[j]
  }

  // ---------------------------------------------------------------------- the save

  // The disk once the first n files are backups.
  function Away(disk: Disk, names: seq<string>, e: Env, n: nat): Disk
    requires n <= |names|
  {
    if n == 0 then disk
    else
      var d, file := Away(disk, names, e, n - 1), names[n - 1];
      if file in d then d[BakName(e, file) := d[file]] - {file} else d
  }

  predicate StopsAt(disk: Disk, names: seq<string>, e: Env, n: nat)
    requires n < |names|
  {
    names[n] !in Away(disk, names, e, n) || e.fault == BackupFault(n)
  }

  function FirstStop(disk: Disk, names: seq<string>, e: Env, i: nat): (n: nat)
    requires i <= |names|
    ensures i <= n <= |names| && (n < |names| ==> StopsAt(disk, names, e, n))
    ensures forall j: nat | i <= j < n :: !StopsAt(disk, names, e, j)
    decreases |names| - i
  {
    if i == |names| || StopsAt(disk, names, e, i) then i else FirstStop(disk, names, e, i + 1)
  }

  datatype Outcome = Outcome(ok: bool, disk: Disk)

  function SaveTo(disk: Disk, names: seq<string>, config: string, text: seq<string>, e: Env): Outcome {
    if e.fault.OpenFault? then Outcome(false, disk)
    else
      var written := disk[TmpName(e, config) := text];
      var n := FirstStop(written, names, e, 0);
      var away := Away(written, names, e, n);
      if n < |names| || e.fault.PlaceFault? then Outcome(false, away)
      else Outcome(true, away[config := text] - {TmpName(e, config)})
  }

  // What the interface tracks afterwards.
  function TrackedAfter(names: seq<string>, config: string, ok: bool): seq<string> { if ok then [config] else names }

  method SaveFiles(disk0: Disk, names: seq<string>, config: string, text: seq<string>, e: Env)
    returns (ok: bool, disk: Disk, tracked: seq<string>)
    requires Configs(names) && IsConfig(config)
    ensures Outcome(ok, disk) == SaveTo(disk0, names, config, text, e) && tracked == TrackedAfter(names, config, ok)
  {
    hide TmpName, BakName, IsConfig;
    if e.fault.OpenFault? { return false, disk0, names; }
    var tmp := TmpName(e, config);
    disk := disk0[tmp := text];
    ghost var written := disk;
    for i := 0 to |names|
      invariant disk == Away(written, names, e, i)
      invariant forall j: nat | j < i :: !StopsAt(written, names, e, j)
    {
      var file := names[i];
      if e.fault == BackupFault(i) || file !in disk {
        FirstStopIs(written, names, e, i);
        return false, disk, names;
      }
      disk := disk[BakName(e, file) := disk[file]] - {file};
    }
    FirstStopIs(written, names, e, |names|);
    if e.fault.PlaceFault? { return false, disk, names; }
    TmpStays(written, names, e, |names|, config);
    NamesApart(e, config);
    disk := disk[config := disk[tmp]] - {tmp};
    return true, disk, [config];
  }

  lemma FirstStopIs(disk: Disk, names: seq<string>, e: Env, n: nat)
    requires n <= |names| && (n < |names| ==> StopsAt(disk, names, e, n))
    requires forall j: nat | j < n :: !StopsAt(disk, names, e, j)
    ensures FirstStop(disk, names, e, 0) == n
  {
    hide StopsAt;
  }

  // --------------------------------------------------------------------- the names

  lemma NamesApart(e: Env, config: string)
    ensures !IsConfig(TmpName(e, config)) && !IsConfig(BakName(e, config))
    ensures forall other :: TmpName(e, config) != BakName(e, other)
  {
    var t, b := TmpName(e, config), BakName(e, config);
    assert t[0] == '.' && b[0] == '.' && "ifcfg-"[0] == 'i';
    assert t[1] == 't';
    PrefixStarts(t, "ifcfg-");
    PrefixStarts(b, "ifcfg-");
    forall other ensures BakName(e, other)[1] == 'b' {}
  }

  lemma PrefixStarts(s: string, p: string)
    requires s != [] && p != []
    ensures HasPrefix(s, p) ==> s[0] == p[0]
  {
    if HasPrefix(s, p) { assert s[..|p|][0] == s[0]; }
  }

  lemma BackupsApart(e: Env, a: string, b: string)
    ensures BakName(e, a) == BakName(e, b) ==> a == b
  {
    var p := ".bak." + Numeral(e.bakStamp, 10) + ".";
    assert BakName(e, a)[|p|..] == a && BakName(e, b)[|p|..] == b;
  }

  // ------------------------------------------------------------------ file by file

  // A move leaves every name alone but the file's and its backup's.
  lemma {:induction false} AwayAt(disk: Disk, names: seq<string>, e: Env, n: nat, name: string)
    requires n <= |names| && Configs(names)
    ensures var d := Away(disk, names, e, n);
            && (name in names[..n] ==> name !in d)
            && (name !in names[..n] && (forall j: nat | j < n :: name != BakName(e, names[j])) ==>
                  (name in d <==> name in disk) && (name in d ==> d[name] == disk[name]))
  {
    hide IsConfig, BakName;
    if n > 0 {
      AwayAt(disk, names, e, n - 1, name);
      NamesApart(e, names[n - 1]);
      assert names[..n] == names[..n - 1] + [names[n - 1]];
      assert name in names[..n - 1] ==> IsConfig(name);
    }
  }

  lemma TmpStays(disk: Disk, names: seq<string>, e: Env, n: nat, config: string)
    requires n <= |names| && Configs(names)
    ensures var d, tmp := Away(disk, names, e, n), TmpName(e, config);
            (tmp in d <==> tmp in disk) && (tmp in d ==> d[tmp] == disk[tmp])
  {
    hide IsConfig, BakName, TmpName;
    NamesApart(e, config);
    AwayAt(disk, names, e, n, TmpName(e, config));
  }

  // The j-th file is where it was until its move, and then its content is in its backup.
  lemma {:induction false} OwnFileAway(disk: Disk, names: seq<string>, e: Env, n: nat, j: nat)
    requires n <= |names| && j < |names| && Configs(names)
    ensures var d, f := Away(disk, names, e, n), names[j];
            if j < n then f !in d && (f in disk ==> BakName(e, f) in d && d[BakName(e, f)] == disk[f])
            else (f in d <==> f in disk) && (f in d ==> d[f] == disk[f])
  {
    hide IsConfig, BakName;
    if n > 0 {
      var file := names[n - 1];
      OwnFileAway(disk, names, e, n - 1, j);
      NamesApart(e, file);
      NamesApart(e, names[j]);
      BackupsApart(e, file, names[j]);
      if j != n - 1 {
        assert file != names[j] by { if j < n - 1 { assert names[j] != names[n - 1]; } else { assert names[n - 1] != names[j]; } }
      }
    }
  }

  predicate AllThere(disk: Disk, names: seq<string>) { forall i: nat | i < |names| :: names[i] in disk }

  // The fault strikes, given so many old files.
  predicate Strikes(f: Fault, n: nat) {
    match f case NoFault => false case BackupFault(at) => at < n case _ => true
  }

  lemma StopsWhen(disk: Disk, names: seq<string>, e: Env, n: nat)
    requires Configs(names) && n < |names|
    ensures StopsAt(disk, names, e, n) <==> names[n] !in disk || e.fault == BackupFault(n)
  {
    OwnFileAway(disk, names, e, n, n);
    hide Away, Configs;
  }

  lemma Written(disk: Disk, names: seq<string>, config: string, text: seq<string>, e: Env)
    requires Configs(names)
    ensures var written := disk[TmpName(e, config) := text];
            && (AllThere(written, names) <==> AllThere(disk, names))
            && forall i: nat | i < |names| :: (names[i] in written <==> names[i] in disk)
                 && (names[i] in disk ==> written[names[i]] == disk[names[i]])
  {
    NamesApart(e, config);
    hide TmpName, IsConfig;
  }

  // --------------------------------------------------------------------- the theorems

  // A save succeeds if and only if no tracked file is missing and no fault strikes.
  lemma SaveSucceedsIff(disk: Disk, names: seq<string>, config: string, text: seq<string>, e: Env)
    requires Configs(names)
    ensures SaveTo(disk, names, config, text, e).ok <==> AllThere(disk, names) && !Strikes(e.fault, |names|)
  {
    var written := disk[TmpName(e, config) := text];
    Written(disk, names, config, text, e);
    forall i: nat | i < |names|
      ensures StopsAt(written, names, e, i) <==> names[i] !in written || e.fault == BackupFault(i)
    {
      StopsWhen(written, names, e, i);
    }
    hide Configs, StopsAt, Away, TmpName;
    if e.fault.BackupFault? && e.fault.at < |names| { assert StopsAt(written, names, e, e.fault.at); }
  }

  // A tracked file is missing afterwards if and only if one was before, or the save failed
  // after it had moved one away. From then on every save fails.
  lemma MissingAfterIff(disk: Disk, names: seq<string>, config: string, text: seq<string>, e: Env)
    requires Configs(names) && IsConfig(config)
    ensures var r := SaveTo(disk, names, config, text, e);
            && (!AllThere(r.disk, TrackedAfter(names, config, r.ok)) <==>
                  || !AllThere(disk, names)
                  || (e.fault.BackupFault? && 0 < e.fault.at < |names|)
                  || (e.fault.PlaceFault? && names != []))
            && (!AllThere(disk, names) ==> !r.ok)
  {
    var r, written := SaveTo(disk, names, config, text, e), disk[TmpName(e, config) := text];
    SaveSucceedsIff(disk, names, config, text, e);
    Written(disk, names, config, text, e);
    NamesApart(e, config);
    if !r.ok && !e.fault.OpenFault? {
      var n := FirstStop(written, names, e, 0);
      forall j: nat | j < |names| ensures names[j] in r.disk <==> j >= n && names[j] in disk {
        OwnFileAway(written, names, e, n, j);
      }
      StoppedWhere(written, names, e);
      hide Configs, StopsAt, Away, TmpName, FirstStop, SaveTo, IsConfig;
      if n > 0 { assert names[0] !in r.disk; }
      if j: nat :| j < |names| && names[j] !in disk { assert names[j] !in r.disk; }
    }
  }

  lemma StoppedWhere(disk: Disk, names: seq<string>, e: Env)
    requires Configs(names)
    ensures var n := FirstStop(disk, names, e, 0);
            && (AllThere(disk, names) && e.fault.BackupFault? && e.fault.at < |names| ==> n == e.fault.at)
            && (AllThere(disk, names) && !(e.fault.BackupFault? && e.fault.at < |names|) ==> n == |names|)
  {
    forall i: nat | i < |names|
      ensures StopsAt(disk, names, e, i) <==> names[i] !in disk || e.fault == BackupFault(i)
    {
      StopsWhen(disk, names, e, i);
    }
    hide Configs, StopsAt, Away;
  }

  // Whether it succeeds or fails, the content of every old file is still on disk, in its
  // place or as its backup.
  lemma NothingIsLost(disk: Disk, names: seq<string>, config: string, text: seq<string>, e: Env, j: nat)
    requires Configs(names) && IsConfig(config) && j < |names| && names[j] in disk
    ensures var d, f := SaveTo(disk, names, config, text, e).disk, names[j];
            || (f in d && d[f] == disk[f])
            || (BakName(e, f) in d && d[BakName(e, f)] == disk[f])
  {
    var written := disk[TmpName(e, config) := text];
    Written(disk, names, config, text, e);
    NamesApart(e, config);
    NamesApart(e, names[j]);
    OwnFileAway(written, names, e, FirstStop(written, names, e, 0), j);
    hide Configs, StopsAt, Away, TmpName, BakName, FirstStop;
  }

  // A config file that the interface does not track is overwritten, without a backup, if and
  // only if the save succeeds and it has the name that the interface's own should have.
  lemma OverwrittenIff(disk: Disk, names: seq<string>, config: string, text: seq<string>, e: Env, other: string)
    requires Configs(names) && IsConfig(config) && IsConfig(other) && other in disk && other !in names
    ensures var r := SaveTo(disk, names, config, text, e);
            && other in r.disk
            && (r.disk[other] == disk[other] <==> !(r.ok && other == config && text != disk[other]))
  {
    var written := disk[TmpName(e, config) := text];
    NamesApart(e, config);
    var n := FirstStop(written, names, e, 0);
    forall j: nat | j < n ensures other != BakName(e, names[j]) { NamesApart(e, names[j]); }
    AwayAt(written, names, e, n, other);
    assert other !in names[..n];
    hide Configs, StopsAt, Away, TmpName, BakName, FirstStop, IsConfig;
  }

  // One file, whose move succeeds while the new one cannot be put in its place.
  lemma FailedPlaceSticks(old_: seq<string>, text: seq<string>, e: Env, later: Env)
    requires e.fault == PlaceFault
    ensures var names, disk := ["ifcfg-eth0"], map["ifcfg-eth0" := old_];
            var after := SaveTo(disk, names, "ifcfg-eth0", text, e).disk;
            && SaveTo(disk, names, "ifcfg-eth0", text, e.(fault := NoFault)).ok
            && "ifcfg-eth0" !in after && !SaveTo(after, names, "ifcfg-eth0", text, later).ok
  {
    var names, disk := ["ifcfg-eth0"], map["ifcfg-eth0" := old_];
    var after := SaveTo(disk, names, "ifcfg-eth0", text, e).disk;
    assert "ifcfg-eth0"[..6] == "ifcfg-";
    assert Configs(names) && IsConfig("ifcfg-eth0") && names[0] in disk;
    hide IsConfig, SaveTo;
    SaveSucceedsIff(disk, names, "ifcfg-eth0", text, e.(fault := NoFault));
    SaveSucceedsIff(disk, names, "ifcfg-eth0", text, e);
    MissingAfterIff(disk, names, "ifcfg-eth0", text, e);
    SaveSucceedsIff(after, names, "ifcfg-eth0", text, later);
  }
}
