// What loading a directory of netplan files gives: every entry in one place, merged
// from all the files that define it.
module NetplanLoaded {
  import opened Text
  import opened Mergo
  import opened NetplanLoader

  // Some file of the list defines the entry.
  predicate Defined(files: seq<NpFile>, t: string, k: string) {
    exists j: nat | j < |files| :: Has(files[j].network, t, k)
  }

  // The entry merged over all files in order, the first non-empty values winning.
  function MergedEntry(files: seq<NpFile>, t: string, k: string): (r: Option<Doc>)
    ensures r.Some? <==> Defined(files, t, k)
  {
    if files == [] then None
    else
      var front, last := files[..|files| - 1], files[|files| - 1];
      DefinedStep(files, |files| - 1, t, k);
      assert files[..|files|] == files;
      if !Has(last.network, t, k) then MergedEntry(front, t, k)
      else
        var entry := Sec(last.network, t)[k];
        match MergedEntry(front, t, k) case None => Some(entry) case Some(first) => Some(MergeDoc(first, entry))
  }

  lemma DefinedStep(files: seq<NpFile>, n: nat, t: string, k: string)
    requires n < |files|
    ensures Defined(files[..n + 1], t, k) <==> Defined(files[..n], t, k) || Has(files[n].network, t, k)
  {
    hide Has;
    var a, b := files[..n + 1], files[..n];
    assert a[n] == files[n] && forall j: nat | j < n :: a[j] == b[j];
  }

  // The entries of file i that no earlier file defines, with their merged values.
  function Kept(files: seq<NpFile>, i: nat, t: string): Section
    requires i < |files|
  {
    map k | k in Sec(files[i].network, t) && !Defined(files[..i], t, k) ::
      assert Has(files[i].network, t, k); MergedEntry(files, t, k).value
  }

  // File i shares an entry with another file.
  ghost predicate Shares(files: seq<NpFile>, i: nat)
    requires i < |files|
  {
    exists t, k, j: nat :: t in CONFIG_TYPES && Shared(files, i, j, t, k)
  }

  predicate Shared(files: seq<NpFile>, i: nat, j: nat, t: string, k: string)
    requires i < |files|
  {
    j < |files| && j != i && Has(files[i].network, t, k) && Has(files[j].network, t, k)
  }

  ghost predicate LoadedAt(files: seq<NpFile>, i: nat, c: NpConfig)
    requires i < |files|
  {
    && c.file == files[i].file && c.routes == files[i].routes && c.network.Some? == files[i].network.Some?
    && (c.network.Some? ==> c.network.value.Keys == files[i].network.value.Keys)
    && (forall t :: Sec(c.network, t) == if t in CONFIG_TYPES then Kept(files, i, t) else Sec(files[i].network, t))
    && (c.dirty <==> Shares(files, i))
    && (c.empty <==> c.routes == 0 && NoEntries(c.network))
  }

  ghost predicate Loaded(files: seq<NpFile>, configs: seq<NpConfig>) {
    |configs| == |files| && forall i: nat | i < |files| :: LoadedAt(files, i, configs[i])
  }

  // A file with top-level routes but no network table before one with a section.
  predicate Panics(files: seq<NpFile>) {
    exists j: nat | j < |files| :: PanicsAt(files, j)
  }

  predicate PanicsAt(files: seq<NpFile>, j: nat)
    requires j < |files|
  {
    files[j].network.Some? && HasTypes(files[j].network.value) && RoutesOnly(files[..j])
  }

  predicate RoutesOnly(files: seq<NpFile>) {
    exists i: nat | i < |files| :: files[i].network.None? && files[i].routes > 0
  }

  datatype LoadResult = NoConfigs | Panic | Configs(configs: seq<NpConfig>)

  method CountEntries(network: Sections, routes: nat) returns (empty: bool)
    ensures empty <==> routes == 0 && NoEntries(Some(network))
  {
    var configCount, types := 0, CONFIG_TYPES;
    for a := 0 to |types|
      invariant configCount >= 0
      invariant configCount == 0 <==> forall b: nat | b < a :: Sec(Some(network), types[b]) == map[]
    {
      if types[a] !in network { continue; }
      var section := network[types[a]];
      assert section != map[] ==> section.Keys != {};
      configCount := configCount + |section|;
    }
    assert NoEntries(Some(network)) <==> forall b: nat | b < |types| :: Sec(Some(network), types[b]) == map[];
    return configCount + routes == 0;
  }

  method ReadNetplanConfigDirectory(files: seq<NpFile>) returns (r: LoadResult)
    ensures r.NoConfigs? <==> files == []
    ensures r.Panic? <==> Panics(files)
    ensures r.Configs? ==> Loaded(files, r.configs)
  {
    hide LoadedAt, PanicsAt, HasTypes, Separate, Settled, LeftOver, MergedInto, NoEntries;
    var configs: seq<NpConfig> := [];
    for n := 0 to |files|
      invariant Loaded(files[..n], configs)
      invariant forall j: nat | j < n :: !PanicsAt(files, j)
    {
      var file := files[n];
      LoadedFacts(files[..n], configs);
      var config := NpConfig(file.file, file.network, file.routes, file.routes == 0, false);
      ghost var prior := configs;
      if file.network.Some? {
        var ok;
        ok, configs, config := MergeFile(configs, file);
        PanicsWhen(files, n, prior);
        if !ok { return Panic; }
        var empty := CountEntries(config.network.value, config.routes);
        config := config.(empty := empty);
        FileAdded(files, n, prior, configs, config);
      } else {
        PanicsWhen(files, n, prior);
        BareAdded(files, n, prior, config);
      }
      configs := configs + [config];
    }
    assert files[..|files|] == files;
    if |configs| == 0 { return NoConfigs; }
    return Configs(configs);
  }

  lemma LoadedFacts(files: seq<NpFile>, configs: seq<NpConfig>)
    requires Loaded(files, configs)
    ensures forall t | t in CONFIG_TYPES :: Separate(configs, t)
    ensures forall i: nat | i < |configs| :: Settled(configs[i])
    ensures Broken(configs) <==> RoutesOnly(files)
  {
    hide MergedEntry, Shares;
    forall t, i, j, k | t in CONFIG_TYPES && 0 <= i < j < |configs| && Has(configs[i].network, t, k)
      ensures !Has(configs[j].network, t, k)
    {
      assert LoadedAt(files, i, configs[i]) && LoadedAt(files, j, configs[j]);
      assert files[..j][i] == files[i] && Has(files[i].network, t, k);
      assert Defined(files[..j], t, k);
    }
    forall i: nat | i < |configs|
      ensures Settled(configs[i])
      ensures !configs[i].empty && configs[i].network.None? <==> files[i].network.None? && files[i].routes > 0
    {
      assert LoadedAt(files, i, configs[i]);
    }
  }

  lemma PanicsWhen(files: seq<NpFile>, n: nat, configs: seq<NpConfig>)
    requires n < |files| && Loaded(files[..n], configs)
    ensures PanicsAt(files, n) <==> files[n].network.Some? && HasTypes(files[n].network.value) && Broken(configs)
  {
    hide HasTypes, LoadedAt;
    LoadedFacts(files[..n], configs);
  }

  // An entry is in some config exactly when some file defines it: the first that does.
  lemma {:induction false} ClaimedWhenDefined(files: seq<NpFile>, configs: seq<NpConfig>, t: string, k: string, i: nat)
    requires Loaded(files, configs) && t in CONFIG_TYPES && i <= |files|
    ensures Claimed(configs[..i], t, k) <==> Defined(files[..i], t, k)
  {
    hide MergedEntry, Shares, Claimed, Defined;
    if i > 0 {
      ClaimedWhenDefined(files, configs, t, k, i - 1);
      ClaimedStep(configs, t, k, i - 1);
      DefinedStep(files, i - 1, t, k);
      assert LoadedAt(files, i - 1, configs[i - 1]);
    } else {
      assert configs[..0] == [] && files[..0] == [];
      NothingDefined(t, k);
    }
  }

  lemma NothingDefined(t: string, k: string)
    ensures !Claimed([], t, k) && !Defined([], t, k)
  {}

  // ------------------------------------------------------------ one file more

  lemma KeptStep(files: seq<NpFile>, n: nat, i: nat, t: string)
    requires i < n < |files|
    ensures Kept(files[..n + 1], i, t) == MergedSection(Kept(files[..n], i, t), Sec(files[n].network, t))
  {
    hide Defined, MergeDoc;
    var a, b := files[..n + 1], files[..n];
    assert a[..i] == b[..i] == files[..i] && a[..n] == b && a[n] == files[n];
    forall k | k in Sec(files[i].network, t) ensures MergedEntry(b, t, k).Some? {
      assert Defined(b, t, k) by { DefinedBy(b, i, t, k); }
    }
  }

  lemma DefinedBy(files: seq<NpFile>, i: nat, t: string, k: string)
    requires i < |files| && Has(files[i].network, t, k)
    ensures Defined(files, t, k)
  {}

  lemma KeptLast(files: seq<NpFile>, n: nat, configs: seq<NpConfig>, t: string)
    requires n < |files| && Loaded(files[..n], configs) && t in CONFIG_TYPES
    ensures Kept(files[..n + 1], n, t) == Unclaimed(Sec(files[n].network, t), configs, t)
  {
    hide Defined, MergeDoc, Claimed, Loaded;
    var a := files[..n + 1];
    assert a[..n] == files[..n] && a[n] == files[n];
    assert configs[..n] == configs by { assert |configs| == n by { LoadedLength(files[..n], configs); } }
    assert files[..n][..n] == files[..n];
    forall k ensures Claimed(configs, t, k) <==> Defined(files[..n], t, k) {
      ClaimedWhenDefined(files[..n], configs, t, k, n);
    }
  }

  lemma LoadedLength(files: seq<NpFile>, configs: seq<NpConfig>)
    requires Loaded(files, configs)
    ensures |configs| == |files|
  {}

  // File i shares an entry with a file of the longer list exactly when it did before, or
  // an entry it still holds is in the new file.
  lemma SharesStep(files: seq<NpFile>, n: nat, i: nat)
    requires i < n < |files|
    ensures Shares(files[..n + 1], i) <==>
              Shares(files[..n], i)
              || exists t | t in CONFIG_TYPES :: exists k :: k in Kept(files[..n], i, t) && k in Sec(files[n].network, t)
  {
    hide MergedEntry;
    var a, b, f := files[..n + 1], files[..n], files[n].network;
    assert a[n] == files[n] && forall j: nat | j < n :: a[j] == b[j];
    assert a[..i] == b[..i];
    if Shares(a, i) {
      var t, k, j: nat :| t in CONFIG_TYPES && Shared(a, i, j, t, k);
      if j < n {
        assert Shared(b, i, j, t, k);
      } else if Defined(b[..i], t, k) {
        var m: nat :| m < i && Has(b[..i][m].network, t, k);
        assert Shared(b, i, m, t, k);
      } else {
        assert k in Kept(b, i, t) && k in Sec(f, t);
      }
    }
    if Shares(b, i) {
      var t, k, j: nat :| t in CONFIG_TYPES && Shared(b, i, j, t, k);
      assert Shared(a, i, j, t, k);
    }
    if t, k :| t in CONFIG_TYPES && k in Kept(b, i, t) && k in Sec(f, t) {
      assert Shared(a, i, n, t, k);
    }
  }

  lemma OverlapWhenShared(files: seq<NpFile>, n: nat, configs: seq<NpConfig>)
    requires n < |files| && Loaded(files[..n], configs) && Shares(files[..n + 1], n)
    ensures exists t | t in CONFIG_TYPES :: AnyOverlap(configs, t, Sec(files[n].network, t))
  {
    hide MergedEntry, LoadedAt;
    var a, b, f := files[..n + 1], files[..n], files[n].network;
    assert a[n] == files[n] && forall j: nat | j < n :: a[j] == b[j];
    assert configs[..n] == configs && b[..n] == b;
    var t, k, j: nat :| t in CONFIG_TYPES && Shared(a, n, j, t, k);
    DefinedBy(b, j, t, k);
    ClaimedWhenDefined(b, configs, t, k, n);
    assert AnyOverlap(configs, t, Sec(f, t));
  }

  lemma SharedWhenOverlap(files: seq<NpFile>, n: nat, configs: seq<NpConfig>, t: string)
    requires n < |files| && Loaded(files[..n], configs) && t in CONFIG_TYPES
    requires AnyOverlap(configs, t, Sec(files[n].network, t))
    ensures Shares(files[..n + 1], n)
  {
    hide MergedEntry, LoadedAt;
    var a, b, f := files[..n + 1], files[..n], files[n].network;
    assert a[n] == files[n] && forall j: nat | j < n :: a[j] == b[j];
    assert configs[..n] == configs && b[..n] == b;
    var i: nat :| i < |configs| && Overlap(configs[i].network, t, Sec(f, t));
    var k :| k in Sec(configs[i].network, t) && k in Sec(f, t);
    assert Claimed(configs, t, k);
    ClaimedWhenDefined(b, configs, t, k, n);
    var j: nat :| j < n && Has(b[j].network, t, k);
    assert Shared(a, n, j, t, k);
  }

  lemma SharesLast(files: seq<NpFile>, n: nat, configs: seq<NpConfig>)
    requires n < |files| && Loaded(files[..n], configs)
    ensures Shares(files[..n + 1], n) <==> exists t | t in CONFIG_TYPES :: AnyOverlap(configs, t, Sec(files[n].network, t))
  {
    hide Loaded, Shares, AnyOverlap;
    if Shares(files[..n + 1], n) { OverlapWhenShared(files, n, configs); }
    if t :| t in CONFIG_TYPES && AnyOverlap(configs, t, Sec(files[n].network, t)) {
      SharedWhenOverlap(files, n, configs, t);
    }
  }

  lemma PriorSections(files: seq<NpFile>, n: nat, i: nat, before: NpConfig, after: NpConfig)
    requires i < n < |files| && LoadedAt(files[..n], i, before)
    requires MergedInto(CONFIG_TYPES, before, after, files[n].network)
    ensures forall t :: Sec(after.network, t) ==
              if t in CONFIG_TYPES then Kept(files[..n + 1], i, t) else Sec(files[i].network, t)
    ensures NoEntries(after.network) <==> NoEntries(before.network)
  {
    hide MergedEntry, MergeDoc, Shares, Defined, Overlap;
    forall t | t in CONFIG_TYPES
      ensures Sec(after.network, t) == Kept(files[..n + 1], i, t)
      ensures Sec(after.network, t) == map[] <==> Sec(before.network, t) == map[]
    {
      KeptStep(files, n, i, t);
      assert Sec(after.network, t).Keys == Sec(before.network, t).Keys;
    }
    assert files[..n][i] == files[i];
  }

  lemma PriorDirty(files: seq<NpFile>, n: nat, i: nat, before: NpConfig, after: NpConfig)
    requires i < n < |files| && LoadedAt(files[..n], i, before)
    requires MergedInto(CONFIG_TYPES, before, after, files[n].network)
    ensures after.dirty <==> Shares(files[..n + 1], i)
  {
    hide MergedEntry, MergeDoc, Shares, MergedSection, NoEntries, Kept;
    SharesStep(files, n, i);
    var f := files[n].network;
    assert forall t | t in CONFIG_TYPES ::
        Overlap(before.network, t, Sec(f, t)) <==> exists k :: k in Kept(files[..n], i, t) && k in Sec(f, t);
  }

  lemma PriorStep(files: seq<NpFile>, n: nat, i: nat, before: NpConfig, after: NpConfig)
    requires i < n < |files| && LoadedAt(files[..n], i, before)
    requires MergedInto(CONFIG_TYPES, before, after, files[n].network)
    ensures LoadedAt(files[..n + 1], i, after)
  {
    PriorSections(files, n, i, before, after);
    PriorDirty(files, n, i, before, after);
    hide Kept, Shares, MergedSection, NoEntries, Overlap, Sec;
    assert files[..n + 1][i] == files[..n][i] == files[i];
  }

  lemma FileAdded(files: seq<NpFile>, n: nat, prior: seq<NpConfig>, configs: seq<NpConfig>, config: NpConfig)
    requires n < |files| && files[n].network.Some? && Loaded(files[..n], prior) && |configs| == |prior|
    requires exists dirty :: LeftOver(CONFIG_TYPES, prior, files[n].network.value, config.(empty := dirty))
    requires config.file == files[n].file && config.routes == files[n].routes
    requires config.empty <==> config.routes == 0 && NoEntries(config.network)
    requires forall i: nat | i < |prior| :: MergedInto(CONFIG_TYPES, prior[i], configs[i], files[n].network)
    ensures Loaded(files[..n + 1], configs + [config])
  {
    hide MergedInto, NoEntries, Kept, Shares, Unclaimed, AnyOverlap;
    var a, all := files[..n + 1], configs + [config];
    SharesLast(files, n, prior);
    forall t | t in CONFIG_TYPES ensures Sec(config.network, t) == Kept(a, n, t) {
      KeptLast(files, n, prior, t);
    }
    assert LoadedAt(a, n, config);
    hide LoadedAt;
    forall i: nat | i < n ensures LoadedAt(a, i, all[i]) {
      PriorStep(files, n, i, prior[i], configs[i]);
    }
  }

  lemma BareAdded(files: seq<NpFile>, n: nat, prior: seq<NpConfig>, config: NpConfig)
    requires n < |files| && files[n].network.None? && Loaded(files[..n], prior)
    requires config == NpConfig(files[n].file, None, files[n].routes, files[n].routes == 0, false)
    ensures Loaded(files[..n + 1], prior + [config])
  {
    hide MergedEntry, MergeDoc, Shares;
    var a, all := files[..n + 1], prior + [config];
    assert !Shares(a, n) by { SharesLast(files, n, prior); NoOverlap(prior); }
    assert LoadedAt(a, n, config);
    hide LoadedAt, Kept, NoEntries;
    forall i: nat | i < n ensures LoadedAt(a, i, all[i]) {
      NothingMerged(prior[i]);
      PriorStep(files, n, i, prior[i], prior[i]);
    }
  }

  lemma NoOverlap(configs: seq<NpConfig>)
    ensures forall t :: !AnyOverlap(configs, t, Sec(None, t))
  {}

  lemma NothingMerged(config: NpConfig)
    ensures MergedInto(CONFIG_TYPES, config, config, None)
  {
    assert forall t :: MergedSection(Sec(config.network, t), map[]) == Sec(config.network, t);
  }

  // ------------------------------------------------- against merging whole files

  // A network table as the nested document it was decoded from.
  function AsValue(n: Sections): Value {
    Table(map t | t in n :: Table(map k | k in n[t] :: Table(n[t][k])))
  }

  // mergo.Merge over the network tables of all the files, as if they were one file.
  function MergeAll(files: seq<NpFile>): Value {
    if files == [] then Table(map[])
    else
      var front, last := MergeAll(files[..|files| - 1]), files[|files| - 1];
      if last.network.None? then front else MergeValue(front, AsValue(last.network.value))
  }

  predicate ShapedEntry(v: Value) { v.Table? }

  predicate ShapedSection(v: Value) { v.Table? && forall k | k in v.entries :: ShapedEntry(v.entries[k]) }

  predicate Shaped(v: Value) { v.Table? && forall t | t in v.entries :: ShapedSection(v.entries[t]) }

  function EntryAt(v: Value, t: string, k: string): Option<Doc> {
    match Find(v, [t, k]) case Some(Table(entries)) => Some(entries) case _ => None
  }

  lemma FindTwo(v: Value, t: string, k: string)
    requires Shaped(v)
    ensures EntryAt(v, t, k) ==
            if t in v.entries && k in v.entries[t].entries then Some(v.entries[t].entries[k].entries) else None
  {
    assert [t, k][1..] == [k] && [k][1..] == [];
    if t in v.entries && k in v.entries[t].entries {
      var s := v.entries[t];
      assert ShapedSection(s) && ShapedEntry(s.entries[k]);
      assert Find(s, [k]) == Find(s.entries[k], []);
    } else if t in v.entries {
      assert ShapedSection(v.entries[t]);
      assert Find(v.entries[t], [k]) == None;
    }
  }

  lemma AsValueShape(n: Sections, t: string, k: string)
    ensures Shaped(AsValue(n))
    ensures EntryAt(AsValue(n), t, k) == if Has(Some(n), t, k) then Some(n[t][k]) else None
  {
    FindTwo(AsValue(n), t, k);
  }

  lemma MergedShape(a: Value, b: Value, t: string, k: string)
    requires Shaped(a) && Shaped(b)
    ensures Shaped(MergeValue(a, b))
    ensures var x, y := EntryAt(a, t, k), EntryAt(b, t, k);
            EntryAt(MergeValue(a, b), t, k) ==
            if x.None? then y else if y.None? then x else Some(MergeDoc(x.value, y.value))
  {
    var m := MergeValue(a, b);
    forall u | u in m.entries ensures ShapedSection(m.entries[u]) {
      if u in a.entries && u in b.entries { SectionShape(a.entries[u], b.entries[u]); }
    }
    FindTwo(a, t, k);
    FindTwo(b, t, k);
    FindTwo(m, t, k);
    if t in a.entries && t in b.entries { SectionShape(a.entries[t], b.entries[t]); }
  }

  lemma SectionShape(a: Value, b: Value)
    requires ShapedSection(a) && ShapedSection(b)
    ensures ShapedSection(MergeValue(a, b))
    ensures MergeValue(a, b).entries.Keys == a.entries.Keys + b.entries.Keys
    ensures forall k | k in a.entries.Keys + b.entries.Keys ::
              MergeValue(a, b).entries[k] == if k !in b.entries then a.entries[k] else if k !in a.entries then b.entries[k]
                                             else Table(MergeDoc(a.entries[k].entries, b.entries[k].entries))
  {
    forall k | k in a.entries && k in b.entries
      ensures MergeValue(a.entries[k], b.entries[k]) == Table(MergeDoc(a.entries[k].entries, b.entries[k].entries))
    {
      assert ShapedEntry(a.entries[k]) && ShapedEntry(b.entries[k]);
      assert a.entries[k] == Table(a.entries[k].entries) && b.entries[k] == Table(b.entries[k].entries);
    }
  }

  lemma {:induction false} MergedEntryIsMergo(files: seq<NpFile>, t: string, k: string)
    ensures Shaped(MergeAll(files)) && MergedEntry(files, t, k) == EntryAt(MergeAll(files), t, k)
  {
    hide MergeValue, AsValue, EntryAt, MergeDoc, Shaped;
    if files == [] {
      EmptyShape(t, k);
    } else {
      var front, last := files[..|files| - 1], files[|files| - 1];
      MergedEntryIsMergo(front, t, k);
      if last.network.Some? {
        AsValueShape(last.network.value, t, k);
        MergedShape(MergeAll(front), AsValue(last.network.value), t, k);
      }
    }
  }

  lemma EmptyShape(t: string, k: string)
    ensures Shaped(Table(map[])) && EntryAt(Table(map[]), t, k) == None
  {
    FindTwo(Table(map[]), t, k);
  }

  // After loading, every entry any file defines is in exactly one config, that of the
  // first file that defines it, and its value is the one it has when mergo merges the
  // network tables of all files into one.
  lemma EveryEntryOnceAndMerged(files: seq<NpFile>, configs: seq<NpConfig>, t: string, k: string)
    requires Loaded(files, configs) && t in CONFIG_TYPES
    ensures Defined(files, t, k) <==> exists i: nat | i < |configs| :: Has(configs[i].network, t, k)
    ensures EntryAt(MergeAll(files), t, k).Some? <==> Defined(files, t, k)
    ensures forall i: nat | i < |configs| && Has(configs[i].network, t, k) ::
              && Has(files[i].network, t, k) && !Defined(files[..i], t, k)
              && (forall j: nat | j < |configs| && j != i :: !Has(configs[j].network, t, k))
              && Some(Sec(configs[i].network, t)[k]) == EntryAt(MergeAll(files), t, k)
  {
    hide Shares, EntryAt, MergeAll, MergedEntry;
    LoadedFacts(files, configs);
    MergedEntryIsMergo(files, t, k);
    ClaimedWhenDefined(files, configs, t, k, |files|);
    assert configs[..|files|] == configs && files[..|files|] == files;
    assert Claimed(configs, t, k) <==> exists i: nat | i < |configs| :: Has(configs[i].network, t, k);
    hide Claimed, Defined;
    forall i: nat | i < |configs| && Has(configs[i].network, t, k)
      ensures Has(files[i].network, t, k) && !Defined(files[..i], t, k)
      ensures Some(Sec(configs[i].network, t)[k]) == EntryAt(MergeAll(files), t, k)
    {
      assert LoadedAt(files, i, configs[i]);
    }
  }

  lemma {:induction false} OnlyDefinition(files: seq<NpFile>, i: nat, t: string, k: string)
    requires i < |files| && Has(files[i].network, t, k)
    requires forall j: nat | j < |files| && j != i :: !Has(files[j].network, t, k)
    ensures MergedEntry(files, t, k) == Some(Sec(files[i].network, t)[k])
  {
    hide MergeDoc, Sec;
    var front := files[..|files| - 1];
    if i < |files| - 1 {
      OnlyDefinition(front, i, t, k);
    } else {
      assert !Defined(front, t, k);
    }
  }

  lemma NothingShared(files: seq<NpFile>, i: nat, t: string)
    requires i < |files| && !Shares(files, i) && t in CONFIG_TYPES
    ensures Kept(files, i, t) == Sec(files[i].network, t)
  {
    hide MergedEntry, Sec;
    forall k | k in Sec(files[i].network, t)
      ensures !Defined(files[..i], t, k) && MergedEntry(files, t, k) == Some(Sec(files[i].network, t)[k])
    {
      forall j: nat | j < |files| && j != i ensures !Has(files[j].network, t, k) {
        assert !Shared(files, i, j, t, k);
      }
      OnlyDefinition(files, i, t, k);
      assert forall j: nat | j < i :: files[..i][j] == files[j];
    }
  }

  // A file that shares no entry loads as it is, and is not dirty.
  lemma UnsharedFileLoadsClean(files: seq<NpFile>, configs: seq<NpConfig>, i: nat)
    requires Loaded(files, configs) && i < |files| && !Shares(files, i)
    ensures !configs[i].dirty && configs[i].network == files[i].network
  {
    hide MergedEntry, Shares, Kept, NoEntries;
    assert LoadedAt(files, i, configs[i]);
    forall t ensures Sec(configs[i].network, t) == Sec(files[i].network, t) {
      if t in CONFIG_TYPES { NothingShared(files, i, t); }
    }
    SameNetwork(configs[i].network, files[i].network);
  }

  lemma SameNetwork(a: Option<Sections>, b: Option<Sections>)
    requires a.Some? == b.Some? && (a.Some? ==> a.value.Keys == b.value.Keys)
    requires forall t :: Sec(a, t) == Sec(b, t)
    ensures a == b
  {
    if a.Some? {
      forall t | t in a.value ensures a.value[t] == b.value[t] { assert Sec(a, t) == Sec(b, t); }
      assert a.value == b.value;
    }
  }
}
