// networkScripts.go: SetIfaceRoutes with the lines it writes, and parseIPRoutes on
// the words of such lines.
module NetworkScriptsRoutes {
  import opened Text
  import opened Net

  // ------------------------------------------------------------------------ reading

  const DEFAULT_METRIC: int := 256

  // A metric that does not parse, or is zero, reads as the default.
  function MetricOf(word: string): int {
    match Atoi(word) case Some(m) => (if m == 0 then DEFAULT_METRIC else m) case None => DEFAULT_METRIC
  }

  datatype Options = Options(gateway: Option<IP>, metric: int)

  // The options behind the destination, or None when a "via" has no address.
  function ReadOptions(route: seq<string>, i: nat, o: Options): Option<Options>
    decreases |route| - i
  {
    if i >= |route| then Some(o)
    else if route[i] == "via" && i + 1 < |route| then
      match ParseIP(route[i + 1]) case None => None case Some(gw) => ReadOptions(route, i + 2, o.(gateway := Some(gw)))
    else if route[i] == "metric" && i + 1 < |route| then ReadOptions(route, i + 2, o.(metric := MetricOf(route[i + 1])))
    else ReadOptions(route, i + 1, o)
  }

  function ParseIPRoute(route: seq<string>): Option<Route> {
    if route == [] then None
    else
      match (ParseCIDR(route[0]), ReadOptions(route, 1, Options(None, DEFAULT_METRIC)))
      case (Some(n), Some(o)) => Some(Route(n, o.gateway, o.metric))
      case _ => None
  }

  function ParseAll(routes: seq<seq<string>>): seq<Route> {
    if routes == [] then []
    else (match ParseIPRoute(routes[0]) case Some(r) => [r] case None => []) + ParseAll(routes[1..])
  }

  method ParseIPRoutes(routes: seq<seq<string>>) returns (resp: seq<Route>)
    ensures resp == ParseAll(routes)
  {
    resp := [];
    assert routes[0..] == routes && routes[|routes|..] == [] && ParseAll([]) == [];
    hide ParseIPRoute, ParseAll;
    for k := 0 to |routes|
      invariant resp + ParseAll(routes[k..]) == ParseAll(routes)
    {
      ParseAllStep(routes, k, resp);
      var r := ParseOne(routes[k]);
      if r.None? { continue; }
      resp := resp + [r.value];
    }
  }

  lemma ParseAllStep(routes: seq<seq<string>>, k: nat, resp: seq<Route>)
    requires k < |routes|
    ensures resp + ParseAll(routes[k..]) ==
            (match ParseIPRoute(routes[k]) case Some(r) => resp + [r] case None => resp) + ParseAll(routes[k + 1..])
  {
    hide ParseIPRoute;
    assert routes[k..][0] == routes[k] && routes[k..][1..] == routes[k + 1..];
  }

  method ParseOne(route: seq<string>) returns (r: Option<Route>)
    ensures r == ParseIPRoute(route)
  {
    hide ParseCIDR, ParseIP, MetricOf;
    if |route| == 0 { return None; }
    var network := ParseCIDR(route[0]);
    if network.None? { return None; }
    var gateway: Option<IP>, metric := None, DEFAULT_METRIC;
    var i := 1;
    while i < |route|
      invariant 1 <= i
      invariant ReadOptions(route, i, Options(gateway, metric)) == ReadOptions(route, 1, Options(None, DEFAULT_METRIC))
    {
      var field := route[i];
      if field == "via" && i + 1 < |route| {
        i := i + 1;
        gateway := ParseIP(route[i]);
        if gateway.None? { return None; }
      }
      if field == "metric" && i + 1 < |route| {
        i := i + 1;
        metric := MetricOf(route[i]);
      }
      i := i + 1;
    }
    return Some(Route(network.value, gateway, metric));
  }

  // ------------------------------------------------------------------------ writing

  function RouteWords(r: Route): seq<string> {
    [NetworkString(r.destination), "via", GatewayText(r.gateway), "metric", Itoa(r.metric)]
  }

  function RouteLine(r: Route): string { Join(RouteWords(r)) }

  function OfFamily(routes: seq<Route>, is4: bool): seq<Route> {
    if routes == [] then []
    else if Is4(routes[0].destination.ip) == is4 then [routes[0]] + OfFamily(routes[1..], is4)
    else OfFamily(routes[1..], is4)
  }

  function RouteLines(routes: seq<Route>): seq<string> {
    if routes == [] then [] else [RouteLine(routes[0])] + RouteLines(routes[1..])
  }

  function FieldsOf(lines: seq<string>): seq<seq<string>> {
    if lines == [] then [] else [Fields(lines[0])] + FieldsOf(lines[1..])
  }

  // The route files of one interface, as the words of their lines.
  class RouteFiles {
    var routes4: seq<seq<string>>
    var routes6: seq<seq<string>>

    constructor ()
      ensures routes4 == [] && routes6 == []
    {
      routes4, routes6 := [], [];
    }

    method SetIfaceRoutes(routes: seq<Route>) returns (lines4: seq<string>, lines6: seq<string>)
      modifies this
      ensures lines4 == RouteLines(OfFamily(routes, true)) && lines6 == RouteLines(OfFamily(routes, false))
      ensures routes4 == FieldsOf(lines4) && routes6 == FieldsOf(lines6)
    {
      hide RouteLine;
      lines4, lines6 := [], [];
      assert routes[0..] == routes;
      for i := 0 to |routes|
        invariant lines4 + RouteLines(OfFamily(routes[i..], true)) == RouteLines(OfFamily(routes, true))
        invariant lines6 + RouteLines(OfFamily(routes[i..], false)) == RouteLines(OfFamily(routes, false))
      {
        var route := routes[i];
        assert routes[i..][0] == route && routes[i..][1..] == routes[i + 1..];
        var is4 := Is4(route.destination.ip);
        assert ([route] + OfFamily(routes[i + 1..], is4))[1..] == OfFamily(routes[i + 1..], is4);
        if is4 { lines4 := lines4 + [RouteLine(route)]; } else { lines6 := lines6 + [RouteLine(route)]; }
      }
      routes4 := SplitLines(lines4);
      routes6 := SplitLines(lines6);
    }
  }

  method SplitLines(lines: seq<string>) returns (all: seq<seq<string>>)
    ensures all == FieldsOf(lines)
  {
    all := [];
    assert lines[0..] == lines;
    for i := 0 to |lines|
      invariant all + FieldsOf(lines[i..]) == FieldsOf(lines)
    {
      assert lines[i..][0] == lines[i] && lines[i..][1..] == lines[i + 1..];
      all := all + [Fields(lines[i])];
    }
  }

  // ---------------------------------------------------------------------- round trip

  predicate Modelled(r: Route) { (WellFormed(r.destination) ==> Canonical(r.destination)) && FitsInt(r.metric) }

  // What a written route is read as: nothing without a gateway or with a mask that does
  // not fit its address, and with the default metric in place of zero.
  function ReadAs(r: Route): Option<Route> {
    if CanonicalNetwork(r.destination) && r.gateway.Some? then
      Some(r.(metric := if r.metric == 0 then DEFAULT_METRIC else r.metric))
    else None
  }

  function AllReadAs(routes: seq<Route>): seq<Route> {
    if routes == [] then []
    else (match ReadAs(routes[0]) case Some(r) => [r] case None => []) + AllReadAs(routes[1..])
  }

  lemma ItoaIsWord(m: int)
    ensures IsWord(Itoa(m))
  {
    if m < 0 {
      var d := Numeral(-m, 10);
      assert forall i :: 0 <= i < |d| ==> IsDigit(d[i]);
      assert Itoa(m) == ['-'] + d;
    } else {
      var d := Numeral(m, 10);
      assert forall i :: 0 <= i < |d| ==> IsDigit(d[i]);
    }
  }

  lemma WordsOfRoute(r: Route)
    ensures Fields(RouteLine(r)) == RouteWords(r)
  {
    if WellFormed(r.destination) {
      NetworkTextRoundTrip(r.destination);
      NetTextIsWord(NetworkText(r.destination));
    }
    if r.gateway.Some? {
      IPTextRoundTrip(r.gateway.value);
      NetTextIsWord(IPText(r.gateway.value));
    }
    ItoaIsWord(r.metric);
    hide NetworkText, IPText, Itoa, IsWord;
    var ws := RouteWords(r);
    assert IsWord("via") && IsWord("metric") && IsWord("<nil>") by { PlainWords(); }
    assert AreWords(ws);
    FieldsJoin(ws);
  }

  lemma PlainWords()
    ensures IsWord("via") && IsWord("metric") && IsWord("<nil>")
  {}

  lemma RouteReadsBack(r: Route)
    requires Modelled(r)
    ensures ParseIPRoute(Fields(RouteLine(r))) == ReadAs(r)
  {
    WordsOfRoute(r);
    OptionsOfWords(RouteWords(r), Options(None, DEFAULT_METRIC));
    WordsMean(r);
    hide Fields, RouteLine, ParseCIDR, ParseIP, NetworkString, GatewayText, Atoi, Itoa, ReadOptions, MetricOf;
  }

  lemma WordsMean(r: Route)
    requires Modelled(r)
    ensures ParseCIDR(NetworkString(r.destination)) == if CanonicalNetwork(r.destination) then Some(r.destination) else None
    ensures ParseIP(GatewayText(r.gateway)) == r.gateway
    ensures MetricOf(Itoa(r.metric)) == if r.metric == 0 then DEFAULT_METRIC else r.metric
  {
    NilIsNoIP();
    AtoiItoa(r.metric);
    if WellFormed(r.destination) { NetworkTextRoundTrip(r.destination); }
    if r.gateway.Some? { IPTextRoundTrip(r.gateway.value); }
    hide ParseCIDR, ParseIP, NetworkText, IPText, Atoi, Itoa;
  }

  lemma OptionsOfWords(ws: seq<string>, start: Options)
    requires |ws| == 5 && ws[1] == "via" && ws[3] == "metric"
    ensures ReadOptions(ws, 1, start) ==
            match ParseIP(ws[2]) case None => None case Some(gw) => Some(Options(Some(gw), MetricOf(ws[4])))
  {
    hide ParseIP, MetricOf;
    var o := start.(gateway := ParseIP(ws[2]));
    if o.gateway.Some? {
      assert ReadOptions(ws, 1, start) == ReadOptions(ws, 3, o);
      assert ReadOptions(ws, 3, o) == ReadOptions(ws, 5, o.(metric := MetricOf(ws[4])));
    }
  }

  lemma {:induction false} LinesReadBack(routes: seq<Route>)
    requires forall k: nat | k < |routes| :: Modelled(routes[k])
    ensures ParseAll(FieldsOf(RouteLines(routes))) == AllReadAs(routes)
  {
    hide ParseIPRoute, RouteLine, ReadAs, Modelled, Fields;
    if routes != [] {
      RouteReadsBack(routes[0]);
      LinesReadBack(routes[1..]);
      var lines := RouteLines(routes);
      assert lines[0] == RouteLine(routes[0]) && lines[1..] == RouteLines(routes[1..]);
      assert FieldsOf(lines)[1..] == FieldsOf(lines[1..]);
    }
  }

  lemma {:induction false} OfFamilyModelled(routes: seq<Route>, is4: bool)
    requires forall k: nat | k < |routes| :: Modelled(routes[k])
    ensures forall k: nat | k < |OfFamily(routes, is4)| :: Modelled(OfFamily(routes, is4)[k])
  {
    hide Modelled;
    if routes != [] { OfFamilyModelled(routes[1..], is4); }
  }

  // Reading what SetIfaceRoutes wrote gives the IPv4 routes and then the IPv6 ones, each
  // family in order; a list without nil gateways and zero metrics comes back whole.
  lemma RoutesReadBack(routes: seq<Route>)
    requires forall k: nat | k < |routes| :: Modelled(routes[k])
    ensures ParseAll(FieldsOf(RouteLines(OfFamily(routes, true)))) + ParseAll(FieldsOf(RouteLines(OfFamily(routes, false))))
            == AllReadAs(OfFamily(routes, true)) + AllReadAs(OfFamily(routes, false))
    ensures forall list :: AllReadAs(list) == list <==> forall k: nat | k < |list| :: ReadAs(list[k]) == Some(list[k])
  {
    OfFamilyModelled(routes, true);
    OfFamilyModelled(routes, false);
    LinesReadBack(OfFamily(routes, true));
    LinesReadBack(OfFamily(routes, false));
    forall list
      ensures AllReadAs(list) == list <==> forall k: nat | k < |list| :: ReadAs(list[k]) == Some(list[k])
    {
      WholeIff(list);
    }
  }

  lemma {:induction false} WholeIff(routes: seq<Route>)
    ensures |AllReadAs(routes)| <= |routes|
    ensures AllReadAs(routes) == routes <==> forall k: nat | k < |routes| :: ReadAs(routes[k]) == Some(routes[k])
  {
    hide ReadAs;
    if routes != [] {
      WholeIff(routes[1..]);
      var rest := AllReadAs(routes[1..]);
      assert routes == [routes[0]] + routes[1..];
      assert forall k: nat | k < |routes[1..]| :: routes[1..][k] == routes[k + 1];
      if ReadAs(routes[0]).Some? {
        var all := [ReadAs(routes[0]).value] + rest;
        assert AllReadAs(routes) == all;
        assert all == routes <==> all[0] == routes[0] && all[1..] == routes[1..];
        assert all[1..] == rest;
      } else {
        assert AllReadAs(routes) == [] + rest == rest;
      }
    }
  }
}
