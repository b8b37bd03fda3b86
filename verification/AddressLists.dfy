// Ordered lists of addresses, keyed by IP, and reorderPrimaryAddress of
// networkConfigurator.go on them.
module AddressLists {
  import opened Net

  predicate HasIP(list: seq<IPNet>, ip: IP) { exists i: nat | i < |list| :: list[i].ip == ip }

  // A list of one family, with no address twice.
  predicate KeyedByIP(list: seq<IPNet>, is4: bool) {
    && (forall i: nat | i < |list| :: Is4(list[i].ip) == is4)
    && (forall i, j | 0 <= i < j < |list| :: list[i].ip != list[j].ip)
  }

  // Change the mask of an address in place, or append it.
  function Put(list: seq<IPNet>, n: IPNet): seq<IPNet> {
    if list == [] then [n]
    else if list[0].ip == n.ip then [n] + list[1..]
    else [list[0]] + Put(list[1..], n)
  }

  function Without(list: seq<IPNet>, ip: IP): seq<IPNet> {
    if list == [] then []
    else if list[0].ip == ip then Without(list[1..], ip)
    else [list[0]] + Without(list[1..], ip)
  }

  lemma {:induction false} PutFacts(list: seq<IPNet>, n: IPNet)
    ensures HasIP(list, n.ip) ==> |Put(list, n)| == |list|
    ensures !HasIP(list, n.ip) ==> Put(list, n) == list + [n]
    ensures forall i: nat | i < |list| ::
              Put(list, n)[i].ip == list[i].ip && (list[i].ip != n.ip ==> Put(list, n)[i] == list[i])
    ensures HasIP(Put(list, n), n.ip)
  {
    assert !HasIP([], n.ip);
    hide HasIP;
    HasIPStep(Put(list, n), n.ip);
    if list == [] {
      assert [] + [n] == [n];
    } else {
      HasIPStep(list, n.ip);
      var put := Put(list, n);
      if list[0].ip == n.ip {
        assert put == [n] + list[1..];
      } else {
        PutFacts(list[1..], n);
        assert put[1..] == Put(list[1..], n);
        assert list == [list[0]] + list[1..];
      }
    }
  }

  lemma HasIPStep(list: seq<IPNet>, ip: IP)
    requires list != []
    ensures HasIP(list, ip) <==> list[0].ip == ip || HasIP(list[1..], ip)
  {
    var rest := list[1..];
    assert forall i: nat | i < |rest| :: rest[i] == list[i + 1];
    assert forall i: nat | 0 < i < |list| :: list[i] == rest[i - 1];
  }

  lemma HasIPAppend(a: seq<IPNet>, b: seq<IPNet>, ip: IP)
    ensures HasIP(a + b, ip) <==> HasIP(a, ip) || HasIP(b, ip)
  {
    assert forall i: nat | i < |a| :: (a + b)[i] == a[i];
    assert forall i: nat | i < |b| :: (a + b)[|a| + i] == b[i];
  }

  lemma {:induction false} WithoutFacts(list: seq<IPNet>, ip: IP)
    ensures !HasIP(Without(list, ip), ip)
    ensures !HasIP(list, ip) ==> Without(list, ip) == list
    ensures forall x :: x in Without(list, ip) <==> x in list && x.ip != ip
  {
    if list != [] {
      WithoutFacts(list[1..], ip);
      HasIPStep(list, ip);
      if list[0].ip != ip { HasIPStep(Without(list, ip), ip); }
    }
  }

  lemma {:induction false} WithoutAppend(a: seq<IPNet>, b: seq<IPNet>, ip: IP)
    ensures Without(a + b, ip) == Without(a, ip) + Without(b, ip)
  {
    if a == [] {
      assert a + b == b;
    } else {
      assert (a + b)[1..] == a[1..] + b;
      WithoutAppend(a[1..], b, ip);
    }
  }

  // Adding an address and deleting it again leaves the list.
  lemma AddThenDelete(list: seq<IPNet>, n: IPNet)
    requires !HasIP(list, n.ip)
    ensures Without(Put(list, n), n.ip) == list
  {
    PutFacts(list, n);
    WithoutFacts(list, n.ip);
    WithoutAppend(list, [n], n.ip);
  }

  // Replacing an address by the mask it has, or had before, is undone by its own entry.
  lemma {:induction false} PutBack(list: seq<IPNet>, n: IPNet, k: nat, is4: bool)
    requires k < |list| && list[k].ip == n.ip && KeyedByIP(list, is4)
    ensures Put(list, n) == list[k := n]
    ensures Put(list[k := n], list[k]) == list
  {
    if k > 0 {
      assert list[0].ip != list[k].ip;
      assert list[k := n][1..] == list[1..][k - 1 := n];
      PutBack(list[1..], n, k - 1, is4);
      assert list == [list[0]] + list[1..];
    } else {
      assert list[0 := n][1..] == list[1..];
      assert list == [list[0]] + list[1..];
    }
  }

  // ------------------------------------------------------------ reorderPrimaryAddress

  function Promoted(addrs: seq<IPNet>, target: IPNet): seq<IPNet> {
    if HasIP(addrs, target.ip) then [target] + Without(addrs, target.ip) else addrs
  }

  method ReorderPrimaryAddress(addrs: seq<IPNet>, target: IPNet) returns (r: seq<IPNet>, found: bool)
    ensures found == HasIP(addrs, target.ip) && r == Promoted(addrs, target)
  {
    found := false;
    var reordered := [];
    assert addrs[0..] == addrs;
    for i := 0 to |addrs|
      invariant found <==> HasIP(addrs[..i], target.ip)
      invariant reordered + Without(addrs[i..], target.ip) == Without(addrs, target.ip)
    {
      assert addrs[i..][0] == addrs[i] && addrs[i..][1..] == addrs[i + 1..];
      assert addrs[..i + 1] == addrs[..i] + [addrs[i]] && [addrs[i]][0].ip == addrs[i].ip;
      HasIPAppend(addrs[..i], [addrs[i]], target.ip);
      if addrs[i].ip == target.ip {
        found := true;
        continue;
      }
      reordered := reordered + [addrs[i]];
    }
    assert addrs[..|addrs|] == addrs;
    if !found { return addrs, false; }
    return [target] + reordered, true;
  }
}
