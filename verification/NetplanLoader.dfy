// netplan.go: readNetplanConfigDirectory, which moves every entry that several
// files define into the first of them.
module NetplanLoader {
  import opened Text
  import opened Mergo

  // An entry is one interface's table; a section holds the entries of one type.
  type Section = map<string, Doc>

  type Sections = map<string, Section>

  // One decoded file: its network table (only the values that are tables matter to
  // the loader) and the number of top-level routes.
  datatype NpFile = NpFile(file: string, network: Option<Sections>, routes: nat)

  datatype NpConfig = NpConfig(file: string, network: Option<Sections>, routes: nat, empty: bool, dirty: bool)

  const CONFIG_TYPES: seq<string> := ["ethernets", "wifis", "bridges", "bonds", "vlans", "routes"]

  function Sec(network: Option<Sections>, t: string): Section {
    if network.Some? && t in network.value then network.value[t] else map[]
  }

  predicate Has(network: Option<Sections>, t: string, k: string) { k in Sec(network, t) }

  predicate NoEntries(network: Option<Sections>) { forall t | t in CONFIG_TYPES :: Sec(network, t) == map[] }

  // ------------------------------------------------------------- one prior section

  function MergedSection(thisC: Section, c: Section): Section {
    map k | k in thisC :: if k in c then MergeDoc(thisC[k], c[k]) else thisC[k]
  }

  method MergeSection(thisC0: Section, c0: Section) returns (thisC: Section, c: Section, merged: bool)
    ensures thisC == MergedSection(thisC0, c0) && c == c0 - thisC0.Keys
    ensures merged <==> exists k :: k in thisC0 && k in c0
  {
    hide MergeDoc;
    thisC, c, merged := thisC0, c0, false;
    var left := thisC0.Keys;
    while left != {}
      invariant left <= thisC0.Keys && thisC.Keys == thisC0.Keys && c == c0 - (thisC0.Keys - left)
      invariant forall k | k in thisC0 ::
        thisC[k] == if k in c0 && k !in left then MergeDoc(thisC0[k], c0[k]) else thisC0[k]
      invariant merged <==> exists k :: k in thisC0 && k in c0 && k !in left
      decreases left
    {
      var key :| key in left;
      left := left - {key};
      if key !in c { continue; }
      thisC := thisC[key := MergeDoc(thisC[key], c[key])];
      c := c - {key};
      merged := true;
    }
  }

  // -------------------------------------------------------------- all prior configs

  predicate Overlap(network: Option<Sections>, t: string, c: Section) { exists k :: k in Sec(network, t) && k in c }

  function MergedConfig(config: NpConfig, t: string, c: Section): NpConfig {
    if config.network.Some? && t in config.network.value && Overlap(config.network, t, c) then
      config.(network := Some(config.network.value[t := MergedSection(config.network.value[t], c)]), dirty := true)
    else config
  }

  predicate Claimed(configs: seq<NpConfig>, t: string, k: string) {
    exists i: nat | i < |configs| :: Has(configs[i].network, t, k)
  }

  function Unclaimed(c: Section, configs: seq<NpConfig>, t: string): Section {
    map k | k in c && !Claimed(configs, t, k) :: c[k]
  }

  // No entry is in two configs.
  ghost predicate Separate(configs: seq<NpConfig>, t: string) {
    forall i, j, k | 0 <= i < j < |configs| && Has(configs[i].network, t, k) :: !Has(configs[j].network, t, k)
  }

  // A config marked empty holds nothing, and the others hold a network table.
  predicate Settled(config: NpConfig) { config.empty ==> NoEntries(config.network) }

  predicate Broken(configs: seq<NpConfig>) {
    exists i: nat | i < |configs| :: !configs[i].empty && configs[i].network.None?
  }

  // One prior config that is not empty.
  method MergeInto(config: NpConfig, t: string, c: Section) returns (after: NpConfig, rest: Section, merged: bool)
    requires config.network.Some?
    ensures after == MergedConfig(config, t, c) && rest == c - Sec(config.network, t).Keys
    ensures merged <==> Overlap(config.network, t, c)
  {
    hide MergeDoc, MergedSection;
    if t !in config.network.value { return config, c, false; }
    var thisC;
    thisC, rest, merged := MergeSection(config.network.value[t], c);
    if !merged { return config, rest, false; }
    after := config.(network := Some(config.network.value[t := thisC]), dirty := true);
  }

  // The loop over the prior configs, for one type. It fails on a config that is not
  // empty and has no network table, where the source's type assertion panics.
  method MergeType(configs0: seq<NpConfig>, t: string, c0: Section)
    returns (ok: bool, configs: seq<NpConfig>, c: Section, merged: bool)
    requires t in CONFIG_TYPES && Separate(configs0, t) && forall i: nat | i < |configs0| :: Settled(configs0[i])
    ensures ok <==> !Broken(configs0)
    ensures ok ==> |configs| == |configs0| && c == Unclaimed(c0, configs0, t)
    ensures ok ==> forall i: nat | i < |configs0| :: configs[i] == MergedConfig(configs0[i], t, c0)
    ensures ok ==> (merged <==> AnyOverlap(configs0, t, c0))
  {
    hide MergedConfig, Overlap, Unclaimed, Claimed, Settled, Separate;
    configs, c, merged := configs0, c0, false;
    NothingClaimed(t, c0);
    assert configs0[..0] == [];
    for i := 0 to |configs0|
      invariant |configs| == |configs0| && c == Unclaimed(c0, configs0[..i], t)
      invariant forall j: nat | j < i :: configs[j] == MergedConfig(configs0[j], t, c0)
      invariant forall j: nat | i <= j < |configs0| :: configs[j] == configs0[j]
      invariant merged <==> AnyOverlap(configs0[..i], t, c0)
      invariant forall j: nat | j < i :: configs0[j].empty || configs0[j].network.Some?
    {
      SeeOne(configs0, t, c0, i);
      OverlapStep(configs0, t, c0, i);
      if configs[i].empty { continue; }
      if configs[i].network.None? { return false, configs, c, merged; }
      var after, rest, some := MergeInto(configs[i], t, c);
      configs := configs[i := after];
      c := rest;
      merged := merged || some;
    }
    assert configs0[..|configs0|] == configs0;
    ok := true;
  }

  predicate AnyOverlap(configs: seq<NpConfig>, t: string, c: Section) {
    exists i: nat | i < |configs| :: Overlap(configs[i].network, t, c)
  }

  lemma OverlapStep(configs: seq<NpConfig>, t: string, c: Section, i: nat)
    requires i < |configs|
    ensures AnyOverlap(configs[..i + 1], t, c) <==> AnyOverlap(configs[..i], t, c) || Overlap(configs[i].network, t, c)
  {
    hide Overlap;
    var a, b := configs[..i + 1], configs[..i];
    assert a[i] == configs[i] && forall j: nat | j < i :: a[j] == b[j];
  }

  lemma NothingClaimed(t: string, c: Section)
    ensures Unclaimed(c, [], t) == c && !AnyOverlap([], t, c)
  {}

  lemma ClaimedStep(configs: seq<NpConfig>, t: string, k: string, i: nat)
    requires i < |configs|
    ensures Claimed(configs[..i + 1], t, k) <==> Claimed(configs[..i], t, k) || Has(configs[i].network, t, k)
  {
    hide Has;
    var a, b := configs[..i + 1], configs[..i];
    assert a[i] == configs[i] && forall j: nat | j < i :: a[j] == b[j];
  }

  lemma ClaimedOnce(configs: seq<NpConfig>, t: string, k: string, i: nat)
    requires Separate(configs, t) && i < |configs| && Has(configs[i].network, t, k)
    ensures !Claimed(configs[..i], t, k)
  {
    hide Has;
    assert forall j: nat | j < i :: configs[..i][j] == configs[j];
  }

  // What passing config i does to the entries still to place.
  lemma SeeOne(configs: seq<NpConfig>, t: string, c: Section, i: nat)
    requires t in CONFIG_TYPES && Separate(configs, t) && i < |configs| && Settled(configs[i])
    ensures var left, config := Unclaimed(c, configs[..i], t), configs[i];
            && Unclaimed(c, configs[..i + 1], t) == left - Sec(config.network, t).Keys
            && MergedConfig(config, t, left) == MergedConfig(config, t, c)
            && (Overlap(config.network, t, left) <==> Overlap(config.network, t, c))
            && (config.empty ==> left - Sec(config.network, t).Keys == left && MergedConfig(config, t, c) == config
                                 && !Overlap(config.network, t, c))
  {
    hide MergeDoc, Claimed, Separate;
    var left, s := Unclaimed(c, configs[..i], t), Sec(configs[i].network, t);
    forall k
      ensures Claimed(configs[..i + 1], t, k) <==> Claimed(configs[..i], t, k) || k in s
      ensures k in s ==> !Claimed(configs[..i], t, k)
    {
      ClaimedStep(configs, t, k, i);
      if k in s { ClaimedOnce(configs, t, k, i); }
    }
    assert forall k | k in s :: k in left <==> k in c;
    assert MergedSection(s, left) == MergedSection(s, c);
  }

  // --------------------------------------------------------------------- one file

  // A prior config after the types given have been merged into it.
  ghost predicate MergedInto(types: seq<string>, before: NpConfig, after: NpConfig, f: Option<Sections>) {
    && after.file == before.file && after.routes == before.routes && after.empty == before.empty
    && after.network.Some? == before.network.Some?
    && (before.network.Some? ==> after.network.value.Keys == before.network.value.Keys)
    && (forall t :: Sec(after.network, t) ==
          if t in types then MergedSection(Sec(before.network, t), Sec(f, t)) else Sec(before.network, t))
    && (after.dirty <==> before.dirty || exists t | t in types :: Overlap(before.network, t, Sec(f, t)))
  }

  // What the file itself is left with.
  ghost predicate LeftOver(types: seq<string>, configs: seq<NpConfig>, f: Sections, config: NpConfig) {
    && config.network.Some? && config.network.value.Keys == f.Keys
    && (forall t :: Sec(config.network, t) ==
          if t in types then Unclaimed(Sec(Some(f), t), configs, t) else Sec(Some(f), t))
    && (config.dirty <==> exists t | t in types :: AnyOverlap(configs, t, Sec(Some(f), t)))
  }

  predicate HasTypes(f: Sections) { exists t | t in CONFIG_TYPES :: t in f }

  method MergeFile(configs0: seq<NpConfig>, file: NpFile)
    returns (ok: bool, configs: seq<NpConfig>, config: NpConfig)
    requires file.network.Some? && forall t | t in CONFIG_TYPES :: Separate(configs0, t)
    requires forall i: nat | i < |configs0| :: Settled(configs0[i])
    ensures ok <==> !(HasTypes(file.network.value) && Broken(configs0))
    ensures ok ==> |configs| == |configs0| && LeftOver(CONFIG_TYPES, configs0, file.network.value, config)
    ensures ok ==> config.file == file.file && config.routes == file.routes && config.network.Some?
    ensures ok ==> forall i: nat | i < |configs0| :: MergedInto(CONFIG_TYPES, configs0[i], configs[i], file.network)
  {
    hide Separate, Settled, Unclaimed, MergedConfig, Broken, Overlap, AnyOverlap, MergedInto, LeftOver, MergedSection,
         HasTypes;
    configs, config := configs0, NpConfig(file.file, file.network, file.routes, false, false);
    ghost var f := file.network.value;
    Untouched(configs0, f, config);
    var types := CONFIG_TYPES;
    for a := 0 to |types|
      invariant types == CONFIG_TYPES && |configs| == |configs0| && LeftOver(types[..a], configs0, f, config)
      invariant config.file == file.file && config.routes == file.routes && !config.empty && config.network.Some?
      invariant forall i: nat | i < |configs0| :: MergedInto(types[..a], configs0[i], configs[i], file.network)
      invariant (exists b: nat | b < a :: types[b] in f) ==> !Broken(configs0)
    {
      var t := types[a];
      NotYet(types, a, configs0, configs, f, config);
      SameFacts(t, configs0, configs, map[]);
      if t !in config.network.value { continue; }
      var some, after, c, merged := MergeType(configs, t, config.network.value[t]);
      if !some {
        HasOne(f, t);
        return false, configs, config;
      }
      TypeDone(types, a, configs0, configs, after, f, config, c, merged);
      configs := after;
      config := config.(network := Some(config.network.value[t := c]), dirty := config.dirty || merged);
    }
    assert types[..|types|] == types;
    HasSome(f);
    ok := true;
  }

  lemma HasOne(f: Sections, t: string)
    requires t in CONFIG_TYPES && t in f
    ensures HasTypes(f)
  {}

  lemma HasSome(f: Sections)
    ensures HasTypes(f) ==> exists b: nat | b < |CONFIG_TYPES| :: CONFIG_TYPES[b] in f
  {}

  lemma Untouched(configs: seq<NpConfig>, f: Sections, config: NpConfig)
    requires config.network == Some(f) && !config.dirty
    ensures LeftOver(CONFIG_TYPES[..0], configs, f, config)
    ensures forall i: nat | i < |configs| :: MergedInto(CONFIG_TYPES[..0], configs[i], configs[i], Some(f))
  {}

  // The section being merged is still as it was before the file.
  ghost predicate SameSections(t: string, configs0: seq<NpConfig>, configs: seq<NpConfig>) {
    && |configs| == |configs0|
    && forall i: nat | i < |configs0| ::
         && Sec(configs[i].network, t) == Sec(configs0[i].network, t)
         && configs[i].network.Some? == configs0[i].network.Some? && configs[i].empty == configs0[i].empty
  }

  lemma SameFacts(t: string, configs0: seq<NpConfig>, configs: seq<NpConfig>, c: Section)
    requires SameSections(t, configs0, configs)
    ensures Separate(configs0, t) ==> Separate(configs, t)
    ensures Broken(configs) == Broken(configs0)
    ensures Unclaimed(c, configs, t) == Unclaimed(c, configs0, t)
    ensures AnyOverlap(configs, t, c) <==> AnyOverlap(configs0, t, c)
  {
    hide Sec;
    assert forall k :: Claimed(configs, t, k) <==> Claimed(configs0, t, k);
  }

  lemma MergedStep(types: seq<string>, t: string, before: NpConfig, mid: NpConfig, f: Option<Sections>)
    requires MergedInto(types, before, mid, f) && t !in types && t in CONFIG_TYPES && Settled(before)
    ensures MergedInto(types + [t], before, MergedConfig(mid, t, Sec(f, t)), f)
    ensures Sec(f, t) == map[] ==> MergedConfig(mid, t, Sec(f, t)) == mid
    ensures Settled(mid)
  {
    assert Sec(mid.network, t) == Sec(before.network, t);
    MergedConfigSections(mid, t, Sec(f, t));
    StillSettled(types, before, mid, f);
    hide MergedSection, MergedConfig, Settled;
    assert forall u :: u in types + [t] <==> u in types || u == t;
  }

  lemma MergedConfigSections(config: NpConfig, t: string, c: Section)
    ensures var after := MergedConfig(config, t, c);
            && after.file == config.file && after.routes == config.routes && after.empty == config.empty
            && after.network.Some? == config.network.Some?
            && (config.network.Some? ==> after.network.value.Keys == config.network.value.Keys)
            && Sec(after.network, t) == MergedSection(Sec(config.network, t), c)
            && (forall u | u != t :: Sec(after.network, u) == Sec(config.network, u))
            && (after.dirty <==> config.dirty || Overlap(config.network, t, c))
    ensures c == map[] ==> MergedConfig(config, t, c) == config
  {
    hide MergeDoc;
    if !Overlap(config.network, t, c) { assert MergedSection(Sec(config.network, t), c) == Sec(config.network, t); }
  }

  lemma StillSettled(types: seq<string>, before: NpConfig, mid: NpConfig, f: Option<Sections>)
    requires MergedInto(types, before, mid, f) && Settled(before)
    ensures Settled(mid)
  {
    hide MergeDoc;
  }

  lemma LeftStep(types: seq<string>, t: string, configs0: seq<NpConfig>, f: Sections, config: NpConfig, c: Section,
                 merged: bool)
    requires LeftOver(types, configs0, f, config) && t !in types && t in f
    requires c == Unclaimed(f[t], configs0, t) && (merged <==> AnyOverlap(configs0, t, f[t]))
    ensures LeftOver(types + [t], configs0, f,
              config.(network := Some(config.network.value[t := c]), dirty := config.dirty || merged))
  {
    hide Unclaimed, AnyOverlap;
    assert forall u :: u in types + [t] <==> u in types || u == t;
  }

  lemma LeftSkip(types: seq<string>, t: string, configs0: seq<NpConfig>, f: Sections, config: NpConfig)
    requires LeftOver(types, configs0, f, config) && t !in f
    ensures LeftOver(types + [t], configs0, f, config)
  {
    assert forall u :: u in types + [t] <==> u in types || u == t;
    assert Unclaimed(map[], configs0, t) == map[] && !AnyOverlap(configs0, t, map[]);
    hide Unclaimed, AnyOverlap;
  }

  lemma TypesStep(types: seq<string>, a: nat)
    requires types == CONFIG_TYPES && a < |types|
    ensures types[..a + 1] == types[..a] + [types[a]] && types[a] !in types[..a] && types[a] in CONFIG_TYPES
  {}

  lemma NotYet(types: seq<string>, a: nat, configs0: seq<NpConfig>, configs: seq<NpConfig>, f: Sections,
               config: NpConfig)
    requires types == CONFIG_TYPES && a < |types| && |configs| == |configs0|
    requires LeftOver(types[..a], configs0, f, config)
    requires forall i: nat | i < |configs0| ::
               Settled(configs0[i]) && MergedInto(types[..a], configs0[i], configs[i], Some(f))
    ensures SameSections(types[a], configs0, configs)
    ensures forall i: nat | i < |configs| :: Settled(configs[i])
    ensures types[a] in config.network.value <==> types[a] in f
    ensures types[a] in f ==> config.network.value[types[a]] == f[types[a]]
    ensures types[a] !in f ==> LeftOver(types[..a + 1], configs0, f, config)
    ensures types[a] !in f ==>
              forall i: nat | i < |configs0| :: MergedInto(types[..a + 1], configs0[i], configs[i], Some(f))
  {
    var t := types[a];
    TypesStep(types, a);
    hide MergedSection, Overlap, Settled;
    assert Sec(config.network, t) == Sec(Some(f), t);
    forall i: nat | i < |configs0|
      ensures Settled(configs[i]) && Sec(configs[i].network, t) == Sec(configs0[i].network, t)
      ensures MergedInto(types[..a + 1], configs0[i], MergedConfig(configs[i], t, Sec(Some(f), t)), Some(f))
      ensures t !in f ==> MergedConfig(configs[i], t, Sec(Some(f), t)) == configs[i]
    {
      MergedStep(types[..a], t, configs0[i], configs[i], Some(f));
    }
    if t !in f { LeftSkip(types[..a], t, configs0, f, config); }
  }

  lemma TypeDone(types: seq<string>, a: nat, configs0: seq<NpConfig>, configs: seq<NpConfig>, after: seq<NpConfig>,
                 f: Sections, config: NpConfig, c: Section, merged: bool)
    requires types == CONFIG_TYPES && a < |types| && types[a] in f
    requires |configs| == |after| == |configs0| && SameSections(types[a], configs0, configs)
    requires LeftOver(types[..a], configs0, f, config)
    requires forall i: nat | i < |configs0| ::
               Settled(configs0[i]) && MergedInto(types[..a], configs0[i], configs[i], Some(f))
    requires c == Unclaimed(f[types[a]], configs, types[a])
    requires merged <==> AnyOverlap(configs, types[a], f[types[a]])
    requires forall i: nat | i < |configs0| :: after[i] == MergedConfig(configs[i], types[a], f[types[a]])
    ensures LeftOver(types[..a + 1], configs0, f,
              config.(network := Some(config.network.value[types[a] := c]), dirty := config.dirty || merged))
    ensures forall i: nat | i < |configs0| :: MergedInto(types[..a + 1], configs0[i], after[i], Some(f))
  {
    var t := types[a];
    TypesStep(types, a);
    SameFacts(t, configs0, configs, f[t]);
    hide LeftOver, MergedInto, MergedConfig, AnyOverlap, Unclaimed, Settled, SameSections;
    LeftStep(types[..a], t, configs0, f, config, c, merged);
    forall i: nat | i < |configs0| ensures MergedInto(types[..a + 1], configs0[i], after[i], Some(f)) {
      MergedStep(types[..a], t, configs0[i], configs[i], Some(f));
    }
  }
}
