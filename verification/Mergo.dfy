// Decoded YAML documents, and mergo.Merge on them: tables merge key by key, and
// elsewhere the first value that is not empty wins.
module Mergo {
  import opened Text

  // "zero" marks the scalars Go calls empty: "", 0, false.
  datatype Value = Plain(text: string, zero: bool) | Items(list: seq<Value>) | Table(entries: map<string, Value>)

  type Doc = map<string, Value>

  predicate Empty(v: Value) {
    match v case Plain(_, zero) => zero case Items(list) => list == [] case Table(entries) => entries == map[]
  }

  function MergeValue(dst: Value, src: Value): Value
    decreases dst
  {
    if dst.Table? && src.Table? then
      Table(map k | k in dst.entries.Keys + src.entries.Keys ::
        if k !in src.entries then dst.entries[k]
        else if k !in dst.entries then src.entries[k]
        else MergeValue(dst.entries[k], src.entries[k]))
    else if Empty(dst) then src
    else dst
  }

  function MergeDoc(dst: Doc, src: Doc): Doc { MergeValue(Table(dst), Table(src)).entries }

  function Find(v: Value, path: seq<string>): Option<Value>
    decreases |path|
  {
    if path == [] then Some(v)
    else if v.Table? && path[0] in v.entries then Find(v.entries[path[0]], path[1..])
    else None
  }

  // A value of the first document that is neither empty nor a table is found at its
  // place in the merge, and so is what the second holds where the first holds nothing.
  lemma {:induction false} FirstWins(dst: Value, src: Value, path: seq<string>)
    ensures var was, now := Find(dst, path), Find(MergeValue(dst, src), path);
            && (was.Some? && !Empty(was.value) && !was.value.Table? ==> now == was)
            && (dst.Table? && src.Table? && path != [] && path[0] !in dst.entries ==> now == Find(src, path))
    decreases |path|
  {
    if path != [] && dst.Table? && src.Table? && path[0] in dst.entries && path[0] in src.entries {
      FirstWins(dst.entries[path[0]], src.entries[path[0]], path[1..]);
    }
  }
}
