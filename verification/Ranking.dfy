// networkConfigurator.go: the ranking of interfaces.
module Ranking {
  import opened Text
  import opened Net
  import opened Sorting
  import opened NaturalOrder

  datatype Interface = Interface(name: string, up: bool, physical: bool, gateway4: Option<IP>, gateway6: Option<IP>)

  function GatewayRank(i: Interface): nat {
    if i.gateway4.Some? then 0 else if i.gateway6.Some? then 1 else 2
  }

  predicate HasAnyPrefix(s: string, ps: seq<string>) { exists i :: 0 <= i < |ps| && HasPrefix(s, ps[i]) }

  const WIRED: seq<string> := ["eth", "en", "em"]
  const WIRELESS: seq<string> := ["wl", "wifi", "wi-fi"]

  // Wired, wireless, other.
  function NameRank(name: string): nat {
    var lower := Lower(name);
    if HasAnyPrefix(lower, WIRELESS) then 1 else if HasAnyPrefix(lower, WIRED) then 0 else 2
  }

  predicate Prefer(a: Interface, b: Interface) {
    if a.up != b.up then a.up
    else if GatewayRank(a) != GatewayRank(b) then GatewayRank(a) < GatewayRank(b)
    else if NameRank(a.name) != NameRank(b.name) then NameRank(a.name) < NameRank(b.name)
    else NaturalLess(a.name, b.name)
  }

  lemma PreferIsStrictWeakOrder()
    ensures StrictWeakOrder(Prefer)
  {
    hide NaturalLess, NameRank, GatewayRank;
    forall a, b, c
      ensures !Prefer(a, a)
      ensures Prefer(a, b) && Prefer(b, c) ==> Prefer(a, c)
      ensures Prefer(a, c) ==> Prefer(a, b) || Prefer(b, c)
    {
      NaturalLaws(a.name, b.name, c.name);
    }
  }

  // Interfaces tie exactly when they agree in state, ranks and the reading of their names.
  lemma PreferTies(a: Interface, b: Interface)
    ensures Tied(Prefer, a, b) <==>
      && a.up == b.up && GatewayRank(a) == GatewayRank(b) && NameRank(a.name) == NameRank(b.name)
      && Tokens(a.name) == Tokens(b.name)
  {
    hide NaturalLess, NameRank, GatewayRank, Tokens;
    NaturalTies(a.name, b.name);
  }

  function Physical(ifaces: seq<Interface>): seq<Interface> {
    if ifaces == [] then [] else (if ifaces[0].physical then [ifaces[0]] else []) + Physical(ifaces[1..])
  }

  // The physical interfaces and nothing else, best first; interfaces that tie stay
  // in the order they were given.
  method FindPhysicalInterfaces(ifaces: seq<Interface>) returns (physical: seq<Interface>)
    ensures multiset(physical) == multiset(Physical(ifaces)) && forall i :: 0 <= i < |physical| ==> physical[i].physical
    ensures forall i, j :: 0 <= i < j < |physical| ==> !Prefer(physical[j], physical[i])
    ensures forall x :: Ties(physical, Prefer, x) == Ties(Physical(ifaces), Prefer, x)
  {
    physical := [];
    assert ifaces[0..] == ifaces;
    for i := 0 to |ifaces|
      invariant physical + Physical(ifaces[i..]) == Physical(ifaces)
      invariant forall j :: 0 <= j < |physical| ==> physical[j].physical
    {
      assert ifaces[i..][0] == ifaces[i] && ifaces[i..][1..] == ifaces[i + 1..];
      if ifaces[i].physical { physical := physical + [ifaces[i]]; }
    }
    assert physical == Physical(ifaces);
    ghost var unsorted := physical;
    physical := StableSort(physical, Prefer);
    PreferIsStrictWeakOrder();
    StableSortCorrect(unsorted, Prefer);
    forall i | 0 <= i < |physical| ensures physical[i].physical {
      assert physical[i] in multiset(physical) && physical[i] in unsorted;
    }
  }
}
