// netplan.go: the tracked configs of one directory, and the save of one of them, in
// which any write, move or removal may fail.
module NetplanLifecycle {
  import opened Text
  import opened Mergo
  import opened NetplanLoader
  import opened NetplanLoaded
  import opened NetplanDocument
  import opened Retention

  // ------------------------------------------------------------------- the directory

  datatype Content = Content(network: Option<Sections>, routes: nat)

  datatype Stored = Stored(content: Content, mtime: int, isDir: bool)

  type Disk = map<string, Stored>

  function Listing(disk: Disk): Directory { map n | n in disk :: File(disk[n].mtime, disk[n].isDir) }

  predicate IsYaml(name: string) { HasSuffix(name, ".yaml") }

  // The names Save gives its temporary files and backups end in a time stamp.
  function Stamped(file: string, kind: string, stamp: nat): string { file + kind + Numeral(stamp, 10) }

  // A temporary file of a save of the file.
  predicate IsTemp(file: string, name: string) {
    HasPrefix(name, file + ".tmp.") && forall i | |file| + 5 <= i < |name| :: IsDigit(name[i])
  }

  // A name that saving a file may write, move or prune.
  predicate Touches(file: string, name: string) {
    name == file || SuffixMatcher(file).Matches(name) || IsTemp(file, name)
  }

  ghost predicate SameAt(a: Disk, b: Disk, name: string) {
    (name in a <==> name in b) && (name in a ==> a[name] == b[name])
  }

  ghost predicate SameOff(a: Disk, b: Disk, file: string) { forall n :: !Touches(file, n) ==> SameAt(a, b, n) }

  lemma StampedName(file: string, kind: string, stamp: nat)
    requires |kind| == 5
    ensures var s := Stamped(file, kind, stamp);
            && HasPrefix(s, file + kind) && !IsYaml(s) && |s| > |file| + 5 && s[..|file|] == file
            && s[|file|..|file| + 5] == kind && forall i | |file| + 5 <= i < |s| :: IsDigit(s[i])
  {
    var s, digits := Stamped(file, kind, stamp), Numeral(stamp, 10);
    hide Numeral;
    assert s[..|file| + 5] == file + kind;
    assert forall i | |file| + 5 <= i < |s| :: s[i] == digits[i - |file| - 5];
    assert s[|s| - 5..][4] == s[|s| - 1] && ".yaml"[4] == 'l';
  }

  // The names of a save are those of its own file, and apart.
  lemma StampedNames(file: string, tmpStamp: nat, bakStamp: nat)
    ensures var tmp, bak := Stamped(file, ".tmp.", tmpStamp), Stamped(file, ".bak.", bakStamp);
            && Touches(file, tmp) && Touches(file, bak) && !IsYaml(tmp) && !IsYaml(bak) && tmp != bak && tmp != file
            && bak != file && SuffixMatcher(file).Matches(bak)
            && !SuffixMatcher(file).Matches(tmp) && !SuffixMatcher(file).Matches(file)
  {
    StampedName(file, ".tmp.", tmpStamp);
    StampedName(file, ".bak.", bakStamp);
    hide Stamped, IsYaml;
    var tmp := Stamped(file, ".tmp.", tmpStamp);
    assert ".tmp."[1] != ".bak."[1];
    PrefixKind(tmp, file, ".bak.");
  }

  lemma PrefixKind(name: string, file: string, kind: string)
    ensures HasPrefix(name, file + kind) <==>
              |file| + |kind| <= |name| && name[..|file|] == file && name[|file|..|file| + |kind|] == kind
  {
    if |file| + |kind| <= |name| {
      var p := name[..|file| + |kind|];
      assert p == p[..|file|] + p[|file|..];
      assert name[..|file|] == p[..|file|] && name[|file|..|file| + |kind|] == p[|file|..];
    }
  }

  // ------------------------------------------------------------------- the configs

  datatype Config = Config(file: string, network: Network, empty: bool, dirty: bool)

  // The file on disk holds what the config holds.
  predicate Agrees(c: Config, disk: Disk) {
    && c.file in disk && !disk[c.file].isDir && Decode(disk[c.file].content.network) == c.network
    && DecodableTable(disk[c.file].content.network)
  }

  // The tracked files are distinct YAML files, none named like a backup of another.
  predicate TidyNames(configs: seq<Config>) {
    && (forall i: nat | i < |configs| :: IsYaml(configs[i].file))
    && (forall i, j | 0 <= i < j < |configs| :: configs[i].file != configs[j].file)
    && (forall i: nat, j: nat | i < |configs| && j < |configs| :: !SuffixMatcher(configs[i].file).Matches(configs[j].file))
  }

  ghost predicate SeparateKinds(configs: seq<Config>) {
    forall t, i, j, k | t in KINDS && 0 <= i < j < |configs| && k in OfKind(configs[i].network, t) ::
      k !in OfKind(configs[j].network, t)
  }

  predicate EmptyIsEmpty(c: Config) { c.empty ==> NoneLeft(c.network) }

  // ------------------------------------------------------------------ saving one file

  // What may go wrong while a file is saved. A failed write may leave a part behind.
  datatype Fault = NoFault | WriteFault(partly: Option<Content>) | BackupFault | PlaceFault

  // One save as the system lets it happen: its fault, its time stamps, the clock, and
  // the backups that cannot be removed.
  datatype Env = Env(fault: Fault, tmpStamp: nat, bakStamp: nat, now: int, stubborn: set<string>)

  datatype Outcome = Outcome(ok: bool, disk: Disk)

  function NewContent(c: Config): Content { Content(Some(Encode(c.network)), 0) }

  function PrunedDisk(disk: Disk, c: Config, e: Env, keep: int): Disk {
    var left := PrunedBut(Listing(disk), SuffixMatcher(c.file), keep, e.stubborn);
    map n | n in disk && n in left :: disk[n]
  }

  // The old file is now the backup, and the new one is in its place.
  function Placed(disk: Disk, c: Config, e: Env): Disk
    requires c.file in disk
  {
    var tmp, bak := Stamped(c.file, ".tmp.", e.tmpStamp), Stamped(c.file, ".bak.", e.bakStamp);
    if c.empty then disk[bak := disk[c.file]] - {c.file}
    else disk[bak := disk[c.file]][c.file := Stored(NewContent(c), e.now, false)] - {tmp}
  }

  // What a save leaves that fails. Only the last fault costs the file its place.
  function Abandoned(disk: Disk, c: Config, e: Env): Disk {
    var tmp, bak := Stamped(c.file, ".tmp.", e.tmpStamp), Stamped(c.file, ".bak.", e.bakStamp);
    var written := disk[tmp := Stored(NewContent(c), e.now, false)];
    if !c.empty && e.fault.WriteFault? then
      if e.fault.partly.None? then disk else disk[tmp := Stored(e.fault.partly.value, e.now, false)]
    else if LeavesHole(disk, c, e) then written[bak := disk[c.file]] - {c.file}
    else if c.empty then disk
    else written
  }

  // No step fails. A config that is removed is neither written nor put in place.
  predicate Saves(disk: Disk, c: Config, e: Env) {
    && c.file in disk
    && match e.fault case NoFault => true case BackupFault => false case _ => c.empty
  }

  // The file has become a backup and nothing has taken its place.
  predicate LeavesHole(disk: Disk, c: Config, e: Env) { c.file in disk && !c.empty && e.fault.PlaceFault? }

  function FileSave(disk: Disk, c: Config, e: Env, keep: int): Outcome {
    if Saves(disk, c, e) then Outcome(true, PrunedDisk(Placed(disk, c, e), c, e, keep))
    else Outcome(false, Abandoned(disk, c, e))
  }

  // One dirty config's share of Save, one step at a time. Moving a file that is not
  // there always fails.
  method SaveConfig(disk0: Disk, config: Config, e: Env, retention: int) returns (ok: bool, disk: Disk)
    ensures Outcome(ok, disk) == FileSave(disk0, config, e, retention)
  {
    hide Encode, PrunedBut;
    disk := disk0;
    var tmp, bak := Stamped(config.file, ".tmp.", e.tmpStamp), Stamped(config.file, ".bak.", e.bakStamp);
    StampedNames(config.file, e.tmpStamp, e.bakStamp);
    hide Stamped, Touches, IsYaml, Matcher.Matches;
    if !config.empty {
      if e.fault.WriteFault? {
        if e.fault.partly.Some? { disk := disk[tmp := Stored(e.fault.partly.value, e.now, false)]; }
        return false, disk;
      }
      disk := disk[tmp := Stored(NewContent(config), e.now, false)];
    }
    if e.fault.BackupFault? || config.file !in disk { return false, disk; }
    disk := disk[bak := disk[config.file]] - {config.file};
    if !config.empty {
      if e.fault.PlaceFault? { return false, disk; }
      disk := disk[config.file := disk[tmp]] - {tmp};
    }
    assert disk == Placed(disk0, config, e);
    var listing := PruneBackups(Listing(disk), SuffixMatcher(config.file), retention, e.stubborn);
    disk := map n | n in disk && n in listing :: disk[n];
    ok := true;
  }

  // ----------------------------------------------------------- what saving one does

  // The backups of a file.
  function Backups(disk: Disk, file: string): set<Backup> { Matching(Listing(disk), SuffixMatcher(file)) }

  // A backup goes when the one just made and the others make "keep" newer ones.
  predicate Prunes(disk: Disk, c: Config, e: Env, keep: int, n: string) {
    && Saves(disk, c, e) && keep > 0 && n !in e.stubborn
    && Goes(Listing(disk[Stamped(c.file, ".bak.", e.bakStamp) := disk[c.file]]), SuffixMatcher(c.file), keep, n)
  }

  // Its own file is written, removed, lost or left alone.
  ghost predicate OwnFileSaved(disk: Disk, c: Config, e: Env, after: Disk) {
    if Saves(disk, c, e) then
      if c.empty then c.file !in after
      else c.file in after && after[c.file].content == NewContent(c) && !after[c.file].isDir
    else if LeavesHole(disk, c, e) then c.file !in after
    else SameAt(disk, after, c.file)
  }

  // Other YAML files stay as they are, unless they pass for old backups of the file.
  ghost predicate OthersSaved(disk: Disk, c: Config, e: Env, keep: int, after: Disk) {
    forall n :: IsYaml(n) && n != c.file ==>
      && (n in after <==> n in disk && !Prunes(disk, c, e, keep, n))
      && (n in after ==> after[n] == disk[n])
  }

  // Neither the new file nor its temporary one passes for a backup.
  lemma PlacedBackups(disk: Disk, c: Config, e: Env)
    requires c.file in disk
    ensures Backups(Placed(disk, c, e), c.file) ==
            Backups(disk[Stamped(c.file, ".bak.", e.bakStamp) := disk[c.file]], c.file)
  {
    StampedNames(c.file, e.tmpStamp, e.bakStamp);
    hide Stamped, Matcher.Matches, Encode;
  }

  lemma PlacedPrunes(disk: Disk, c: Config, e: Env, keep: int, n: string)
    requires Saves(disk, c, e) && !IsTemp(c.file, n) && n != c.file
    ensures n in PrunedDisk(Placed(disk, c, e), c, e, keep) <==>
              n in disk[Stamped(c.file, ".bak.", e.bakStamp) := disk[c.file]] && !Prunes(disk, c, e, keep, n)
  {
    StampedName(c.file, ".tmp.", e.tmpStamp);
    PlacedBackups(disk, c, e);
    hide Stamped, Matcher.Matches, Encode;
  }

  lemma TempIsNoYaml(file: string, n: string)
    requires IsTemp(file, n)
    ensures !IsYaml(n) && n != file
  {
    PrefixKind(n, file, ".tmp.");
    if |n| == |file| + 5 { assert n[|n| - 1] == n[|file|..|file| + 5][4]; }
    assert |n| >= 5 ==> n[|n| - 5..][4] == n[|n| - 1];
  }

  lemma OneFileSaved(disk: Disk, c: Config, e: Env, keep: int)
    ensures var after := FileSave(disk, c, e, keep).disk;
            SameOff(disk, after, c.file) && OwnFileSaved(disk, c, e, after) && OthersSaved(disk, c, e, keep, after)
  {
    forall n | IsTemp(c.file, n) ensures !IsYaml(n) { TempIsNoYaml(c.file, n); }
    if Saves(disk, c, e) {
      OwnFilePlaced(disk, c, e, keep);
      OthersPlaced(disk, c, e, keep);
    } else {
      StampedNames(c.file, e.tmpStamp, e.bakStamp);
      hide Encode, Stamped, Prunes, Matcher.Matches, IsTemp, IsYaml;
    }
  }

  lemma OthersPlaced(disk: Disk, c: Config, e: Env, keep: int)
    requires Saves(disk, c, e) && forall n :: IsTemp(c.file, n) ==> !IsYaml(n)
    ensures var after := FileSave(disk, c, e, keep).disk;
            SameOff(disk, after, c.file) && OthersSaved(disk, c, e, keep, after)
  {
    var after := FileSave(disk, c, e, keep).disk;
    StampedNames(c.file, e.tmpStamp, e.bakStamp);
    forall n | !IsTemp(c.file, n) && n != c.file
      ensures n in after <==>
                n in disk[Stamped(c.file, ".bak.", e.bakStamp) := disk[c.file]] && !Prunes(disk, c, e, keep, n)
    {
      PlacedPrunes(disk, c, e, keep, n);
    }
    assert forall n :: Prunes(disk, c, e, keep, n) ==> Touches(c.file, n);
    hide Encode, Stamped, Prunes, Matcher.Matches, IsTemp, IsYaml, PrunedBut;
  }

  lemma OwnFilePlaced(disk: Disk, c: Config, e: Env, keep: int)
    requires Saves(disk, c, e)
    ensures OwnFileSaved(disk, c, e, FileSave(disk, c, e, keep).disk)
  {
    StampedNames(c.file, e.tmpStamp, e.bakStamp);
    hide Stamped, Matcher.Matches, Encode;
  }
}
