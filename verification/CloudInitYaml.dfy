// cloudinit.go: dedupeMappingKeys, which makes a YAML tree obey the rule that the
// last of several equal keys wins. A mapping node's content is a list of pairs.
module CloudInitYaml {
  import opened Text

  datatype Node =
    | Scalar(value: string)
    | Alias(anchor: string)
    | Branch(items: seq<Node>)  // a sequence or the document
    | Mapping(pairs: seq<Pair>)

  datatype Pair = Pair(key: Node, value: Node)

  // ------------------------------------------------------------------ one mapping

  predicate HasKey(pairs: seq<Pair>, key: Node) { exists k: nat | k < |pairs| :: pairs[k].key == key }

  // Drop each pair whose scalar key comes again.
  function KeepLast(pairs: seq<Pair>): seq<Pair> {
    if pairs == [] then []
    else if pairs[0].key.Scalar? && HasKey(pairs[1..], pairs[0].key) then KeepLast(pairs[1..])
    else [pairs[0]] + KeepLast(pairs[1..])
  }

  method LastIndices(pairs: seq<Pair>) returns (last: map<string, nat>)
    ensures forall k: nat | k < |pairs| && pairs[k].key.Scalar? ::
      && pairs[k].key.value in last && k <= last[pairs[k].key.value] < |pairs|
      && pairs[last[pairs[k].key.value]].key == pairs[k].key
  {
    last := map[];
    for i := 0 to |pairs|
      invariant forall k: nat | k < i && pairs[k].key.Scalar? ::
        && pairs[k].key.value in last && k <= last[pairs[k].key.value] < i
        && pairs[last[pairs[k].key.value]].key == pairs[k].key
    {
      var key := pairs[i].key;
      if key.Scalar? { last := last[key.value := i]; }
    }
  }

  method KeepLastPairs(pairs: seq<Pair>) returns (content: seq<Pair>)
    ensures content == KeepLast(pairs)
  {
    var last := LastIndices(pairs);
    content := [];
    assert pairs[0..] == pairs;
    for i := 0 to |pairs|
      invariant content + KeepLast(pairs[i..]) == KeepLast(pairs)
    {
      var pair := pairs[i];
      assert pairs[i..][0] == pair && pairs[i..][1..] == pairs[i + 1..];
      if pair.key.Scalar? { LaterKey(pairs, i, last[pair.key.value]); }
      if pair.key.Scalar? && last[pair.key.value] != i { continue; }
      content := content + [pair];
    }
  }

  lemma LaterKey(pairs: seq<Pair>, i: nat, last: nat)
    requires i <= last < |pairs| && pairs[last].key == pairs[i].key
    requires forall k: nat | k < |pairs| && pairs[k].key == pairs[i].key :: k <= last
    ensures HasKey(pairs[i + 1..], pairs[i].key) <==> last != i
  {
    var rest := pairs[i + 1..];
    assert forall k: nat | k < |rest| :: rest[k] == pairs[i + 1 + k];
    if last != i { assert rest[last - i - 1].key == pairs[i].key; }
  }

  // A pair goes when its key is a scalar that comes again.
  predicate Goes(pairs: seq<Pair>, i: nat)
    requires i < |pairs|
  {
    pairs[i].key.Scalar? && HasKey(pairs[i + 1..], pairs[i].key)
  }

  // The indices of the pairs that stay.
  function Survivors(pairs: seq<Pair>, i: nat): seq<nat>
    requires i <= |pairs|
    decreases |pairs| - i
  {
    if i == |pairs| then []
    else if Goes(pairs, i) then Survivors(pairs, i + 1)
    else [i] + Survivors(pairs, i + 1)
  }

  // A pair stays exactly when its key is no scalar or comes last, and the pairs that
  // stay are in their old order.
  lemma {:induction false} SurvivorsInOrder(pairs: seq<Pair>, i: nat)
    requires i <= |pairs|
    ensures var s, kept := Survivors(pairs, i), KeepLast(pairs[i..]);
            && |kept| == |s| && (forall j: nat | j < |s| :: i <= s[j] < |pairs| && kept[j] == pairs[s[j]])
            && (forall j, k | 0 <= j < k < |s| :: s[j] < s[k])
            && forall k: nat | i <= k < |pairs| :: k in s <==> !Goes(pairs, k)
    decreases |pairs| - i
  {
    hide HasKey;
    if i < |pairs| {
      SurvivorsInOrder(pairs, i + 1);
      assert pairs[i..][0] == pairs[i] && pairs[i..][1..] == pairs[i + 1..];
      var s, rest, kept := Survivors(pairs, i), Survivors(pairs, i + 1), KeepLast(pairs[i + 1..]);
      assert i !in rest;
      if !Goes(pairs, i) {
        assert s == [i] + rest && KeepLast(pairs[i..]) == [pairs[i]] + kept;
        hide KeepLast, Survivors, Goes;
        assert forall k: nat :: k in s <==> k == i || k in rest;
        assert forall j: nat | 0 < j < |s| :: s[j] == rest[j - 1] && ([pairs[i]] + kept)[j] == kept[j - 1];
      }
    }
  }

  // ------------------------------------------------------------------ the whole tree

  // Every mapping of the tree, with the children done first.
  function Dedupe(n: Node): Node {
    match n
    case Scalar(_) => n
    case Alias(_) => n
    case Branch(items) => Branch(DedupeAll(items))
    case Mapping(pairs) => Mapping(KeepLast(DedupePairs(pairs)))
  }

  function DedupeAll(items: seq<Node>): (r: seq<Node>)
    ensures |r| == |items|
  {
    if items == [] then [] else [Dedupe(items[0])] + DedupeAll(items[1..])
  }

  function DedupePair(p: Pair): Pair { Pair(Dedupe(p.key), Dedupe(p.value)) }

  function DedupePairs(pairs: seq<Pair>): (r: seq<Pair>)
    ensures |r| == |pairs|
  {
    if pairs == [] then [] else [DedupePair(pairs[0])] + DedupePairs(pairs[1..])
  }

  // The recursion of the source: a mapping drops its pairs before its children are visited.
  method DedupeMappingKeys(node: Node) returns (r: Node)
    ensures r == Dedupe(node)
    decreases node
  {
    hide KeepLast, HasKey;
    if node.Mapping? {
      var content := KeepLastPairs(node.pairs);
      KeptAreOld(node.pairs);
      var done := [];
      assert content[0..] == content;
      for i := 0 to |content|
        invariant done + DedupePairs(content[i..]) == DedupePairs(content)
      {
        assert content[i..][0] == content[i] && content[i..][1..] == content[i + 1..];
        assert content[i] in node.pairs;
        var key := DedupeMappingKeys(content[i].key);
        var value := DedupeMappingKeys(content[i].value);
        done := done + [Pair(key, value)];
      }
      KeepThenDedupe(node.pairs);
      return Mapping(done);
    }
    if node.Branch? {
      var done := [];
      assert node.items[0..] == node.items;
      for i := 0 to |node.items|
        invariant done + DedupeAll(node.items[i..]) == DedupeAll(node.items)
      {
        assert node.items[i..][0] == node.items[i] && node.items[i..][1..] == node.items[i + 1..];
        var child := DedupeMappingKeys(node.items[i]);
        done := done + [child];
      }
      return Branch(done);
    }
    return node;
  }

  lemma {:induction false} KeptAreOld(pairs: seq<Pair>)
    ensures forall k: nat | k < |KeepLast(pairs)| :: KeepLast(pairs)[k] in pairs
  {
    if pairs != [] { KeptAreOld(pairs[1..]); }
  }

  lemma {:induction false} DedupedAt(pairs: seq<Pair>, k: nat)
    requires k < |pairs|
    ensures DedupePairs(pairs)[k] == DedupePair(pairs[k])
  {
    hide DedupePair;
    if k > 0 { DedupedAt(pairs[1..], k - 1); }
  }

  // A scalar key is the same before and after, and nothing else becomes one.
  lemma DedupedScalar(n: Node, key: string)
    ensures Dedupe(n) == Scalar(key) <==> n == Scalar(key)
    ensures Dedupe(n).Scalar? <==> n.Scalar?
  {}

  lemma DedupedHasKey(pairs: seq<Pair>, key: string)
    ensures HasKey(DedupePairs(pairs), Scalar(key)) <==> HasKey(pairs, Scalar(key))
  {
    forall k: nat | k < |pairs|
      ensures DedupePairs(pairs)[k].key == Scalar(key) <==> pairs[k].key == Scalar(key)
    {
      DedupedAt(pairs, k);
      DedupedScalar(pairs[k].key, key);
    }
  }

  // Dropping pairs and deduplicating the children commute.
  lemma {:induction false} KeepThenDedupe(pairs: seq<Pair>)
    ensures DedupePairs(KeepLast(pairs)) == KeepLast(DedupePairs(pairs))
  {
    hide HasKey, Dedupe;
    if pairs != [] {
      KeepThenDedupe(pairs[1..]);
      var all := DedupePairs(pairs);
      assert all[0] == DedupePair(pairs[0]) && all[1..] == DedupePairs(pairs[1..]);
      var key := pairs[0].key;
      DedupedScalar(key, if key.Scalar? then key.value else "");
      if key.Scalar? { DedupedHasKey(pairs[1..], key.value); }
      assert ([pairs[0]] + KeepLast(pairs[1..]))[1..] == KeepLast(pairs[1..]);
    }
  }

  // --------------------------------------------------------------- what it keeps

  // No mapping of the tree holds a scalar key twice.
  predicate Unique(n: Node) {
    match n
    case Scalar(_) => true
    case Alias(_) => true
    case Branch(items) => forall k: nat | k < |items| :: Unique(items[k])
    case Mapping(pairs) => OnceEach(pairs) && forall k: nat | k < |pairs| :: Unique(pairs[k].key) && Unique(pairs[k].value)
  }

  predicate OnceEach(pairs: seq<Pair>) {
    forall i, j | 0 <= i < j < |pairs| && pairs[i].key.Scalar? :: pairs[i].key != pairs[j].key
  }

  lemma KeptKeys(pairs: seq<Pair>)
    ensures forall key :: HasKey(KeepLast(pairs), key) ==> HasKey(pairs, key)
  {
    KeptAreOld(pairs);
    hide KeepLast;
    var kept := KeepLast(pairs);
    forall key | HasKey(kept, key) ensures HasKey(pairs, key) {
      var k: nat :| k < |kept| && kept[k].key == key;
      assert kept[k] in pairs;
    }
  }

  lemma {:induction false} KeptOnce(pairs: seq<Pair>)
    ensures OnceEach(KeepLast(pairs))
    ensures OnceEach(pairs) ==> KeepLast(pairs) == pairs
  {
    if pairs != [] {
      var rest, kept := pairs[1..], KeepLast(pairs[1..]);
      KeptOnce(rest);
      KeptKeys(rest);
      assert pairs == [pairs[0]] + rest;
      assert forall k: nat | k < |rest| :: rest[k] == pairs[k + 1];
      var key := pairs[0].key;
      if key.Scalar? && !HasKey(rest, key) {
        forall k: nat | k < |kept| ensures kept[k].key != key {
          assert kept[k].key == key ==> HasKey(kept, key);
        }
      }
    }
  }

  lemma {:induction false} DedupeIsUnique(n: Node)
    ensures Unique(Dedupe(n))
    decreases n
  {
    if n.Branch? {
      AllUnique(n.items);
    } else if n.Mapping? {
      PairsUnique(n.pairs);
      var all := DedupePairs(n.pairs);
      KeptOnce(all);
      KeptAreOld(all);
    }
  }

  lemma {:induction false} AllUnique(items: seq<Node>)
    ensures forall k: nat | k < |items| :: Unique(DedupeAll(items)[k])
    decreases items
  {
    if items != [] {
      DedupeIsUnique(items[0]);
      AllUnique(items[1..]);
    }
  }

  lemma {:induction false} PairUnique(p: Pair)
    ensures Unique(Dedupe(p.key)) && Unique(Dedupe(p.value))
    decreases p
  {
    DedupeIsUnique(p.key);
    DedupeIsUnique(p.value);
  }

  lemma {:induction false} PairsUnique(pairs: seq<Pair>)
    ensures forall k: nat | k < |pairs| :: Unique(DedupePairs(pairs)[k].key) && Unique(DedupePairs(pairs)[k].value)
    decreases pairs
  {
    if pairs != [] {
      var p := pairs[0];
      PairUnique(p);
      PairsUnique(pairs[1..]);
    }
  }

  // A tree without repeated keys is left alone; with DedupeIsUnique, doing it twice
  // is doing it once.
  lemma {:induction false} UniqueIsFixed(n: Node)
    requires Unique(n)
    ensures Dedupe(n) == n
    decreases n
  {
    if n.Branch? {
      AllFixed(n.items);
    } else if n.Mapping? {
      PairsFixed(n.pairs);
      KeptOnce(n.pairs);
    }
  }

  lemma {:induction false} AllFixed(items: seq<Node>)
    requires forall k: nat | k < |items| :: Unique(items[k])
    ensures DedupeAll(items) == items
    decreases items
  {
    if items != [] {
      UniqueIsFixed(items[0]);
      AllFixed(items[1..]);
    }
  }

  lemma {:induction false} PairFixed(p: Pair)
    requires Unique(p.key) && Unique(p.value)
    ensures DedupePair(p) == p
    decreases p
  {
    UniqueIsFixed(p.key);
    UniqueIsFixed(p.value);
  }

  lemma {:induction false} PairsFixed(pairs: seq<Pair>)
    requires forall k: nat | k < |pairs| :: Unique(pairs[k].key) && Unique(pairs[k].value)
    ensures DedupePairs(pairs) == pairs
    decreases pairs
  {
    if pairs != [] {
      var p := pairs[0];
      PairFixed(p);
      PairsFixed(pairs[1..]);
    }
  }

  lemma DedupeIsIdempotent(n: Node)
    ensures Dedupe(Dedupe(n)) == Dedupe(n)
    ensures Dedupe(n) == n <==> Unique(n)
  {
    DedupeIsUnique(n);
    UniqueIsFixed(Dedupe(n));
    if Unique(n) { UniqueIsFixed(n); }
  }

  // ------------------------------------------------------------------- lookups

  // One step down a tree: to an item, to the value of a scalar key, or to the key or
  // value of the j-th pair whose key is no scalar.
  datatype Step = Item(i: nat) | Key(key: string) | ComplexKey(j: nat) | ComplexValue(j: nat)

  // PyYAML's rule: the last pair with the key wins.
  function Last(pairs: seq<Pair>, key: string): Option<Node> {
    if pairs == [] then None
    else if HasKey(pairs[1..], Scalar(key)) then Last(pairs[1..], key)
    else if pairs[0].key == Scalar(key) then Some(pairs[0].value)
    else None
  }

  function Complex(pairs: seq<Pair>): seq<Pair> {
    if pairs == [] then []
    else if pairs[0].key.Scalar? then Complex(pairs[1..])
    else [pairs[0]] + Complex(pairs[1..])
  }

  function Child(n: Node, step: Step): Option<Node> {
    match step
    case Item(i) => if n.Branch? && i < |n.items| then Some(n.items[i]) else None
    case Key(key) => if n.Mapping? then Last(n.pairs, key) else None
    case ComplexKey(j) =>
      if n.Mapping? && j < |Complex(n.pairs)| then Some(Complex(n.pairs)[j].key) else None
    case ComplexValue(j) =>
      if n.Mapping? && j < |Complex(n.pairs)| then Some(Complex(n.pairs)[j].value) else None
  }

  function Lookup(n: Node, path: seq<Step>): Option<Node>
    decreases |path|
  {
    if path == [] then Some(n)
    else match Child(n, path[0]) case None => None case Some(c) => Lookup(c, path[1..])
  }

  function DedupeFound(n: Option<Node>): Option<Node> { match n case None => None case Some(m) => Some(Dedupe(m)) }

  lemma {:induction false} LastOfKept(pairs: seq<Pair>, key: string)
    ensures HasKey(KeepLast(pairs), Scalar(key)) <==> HasKey(pairs, Scalar(key))
    ensures Last(KeepLast(pairs), key) == Last(pairs, key)
    ensures Complex(KeepLast(pairs)) == Complex(pairs)
  {
    if pairs != [] {
      LastOfKept(pairs[1..], key);
      var rest, kept := KeepLast(pairs[1..]), KeepLast(pairs);
      assert ([pairs[0]] + rest)[1..] == rest;
      HasKeyStep(pairs, key);
      if kept != rest { HasKeyStep(kept, key); }
    }
  }

  lemma HasKeyStep(pairs: seq<Pair>, key: string)
    requires pairs != []
    ensures HasKey(pairs, Scalar(key)) <==> pairs[0].key == Scalar(key) || HasKey(pairs[1..], Scalar(key))
  {
    var rest := pairs[1..];
    assert forall k: nat | k < |rest| :: rest[k] == pairs[k + 1];
    assert forall k: nat | 0 < k < |pairs| :: pairs[k] == rest[k - 1];
  }

  lemma {:induction false} LastOfDeduped(pairs: seq<Pair>, key: string)
    ensures Last(DedupePairs(pairs), key) == DedupeFound(Last(pairs, key))
    ensures Complex(DedupePairs(pairs)) == DedupePairs(Complex(pairs))
  {
    hide HasKey, Dedupe;
    if pairs != [] {
      LastOfDeduped(pairs[1..], key);
      var all := DedupePairs(pairs);
      assert all[0] == DedupePair(pairs[0]) && all[1..] == DedupePairs(pairs[1..]);
      DedupedHasKey(pairs[1..], key);
      DedupedScalar(pairs[0].key, key);
      assert ([pairs[0]] + Complex(pairs[1..]))[1..] == Complex(pairs[1..]);
    }
  }

  lemma {:induction false} AllAt(items: seq<Node>, i: nat)
    requires i < |items|
    ensures DedupeAll(items)[i] == Dedupe(items[i])
  {
    hide Dedupe;
    if i > 0 { AllAt(items[1..], i - 1); }
  }

  lemma ChildKept(n: Node, step: Step)
    ensures Child(Dedupe(n), step) == DedupeFound(Child(n, step))
  {
    if n.Branch? && step.Item? && step.i < |n.items| {
      AllAt(n.items, step.i);
    } else if n.Mapping? {
      var all, key := DedupePairs(n.pairs), if step.Key? then step.key else "";
      LastOfKept(all, key);
      LastOfDeduped(n.pairs, key);
      var complex := Complex(n.pairs);
      hide Last, Complex, KeepLast;
      if step.ComplexKey? && step.j < |complex| {
        DedupedAt(complex, step.j);
      } else if step.ComplexValue? && step.j < |complex| {
        DedupedAt(complex, step.j);
      }
    }
  }

  // Last-key-wins lookup along every path finds what it found before, itself deduplicated.
  lemma {:induction false} LookupKept(n: Node, path: seq<Step>)
    ensures Lookup(Dedupe(n), path) == DedupeFound(Lookup(n, path))
    decreases |path|
  {
    hide Child, Dedupe;
    if path != [] {
      ChildKept(n, path[0]);
      if Child(n, path[0]).Some? { LookupKept(Child(n, path[0]).value, path[1..]); }
    }
  }
}
