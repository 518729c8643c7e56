/** The routing-table queries of the network info: grouping the kernel's routes
    by output device, and picking a device's default gateway from them. A route
    is the attribute dictionary the netlink layer reports for it. */
module Routes {
  import opened Wrappers

  /** RT_TABLE_UNSPEC of Linux's rtnetlink interface: "any table". */
  const RT_TABLE_UNSPEC: int := 0

  /** A route's attributes; None is a key missing from the dictionary. */
  datatype Route = Route(destination: Option<string>, scope: Option<string>, family: Option<string>,
                         gateway: Option<string>, oif: Option<string>, table: Option<int>)

  /** The KeyError raised by a subscript of a missing key. */
  datatype KeyError = KeyError(key: string)

  /** The 'family' attribute a route of the requested address family has. */
  function FamilyName(family: int): string {
    if family == 6 then "inet6" else "inet"
  }

  /** The address returned when a device has no single default gateway. */
  function NoGateway(family: int): string {
    if family == 6 then "::" else ""
  }

  /** The filter of the list comprehension of get_gateway, evaluated left to
      right with short-circuit: a missing key fails only once it is reached,
      and 'table' is read with get(), which never fails. */
  function IsCandidate(r: Route, family: int, table: int): (c: Result<bool, KeyError>)
    ensures c == Success(true) <==>
              r.destination == Some("none") && (r.table == Some(table) || table == RT_TABLE_UNSPEC) &&
              r.scope == Some("global") && r.family == Some(FamilyName(family))
    ensures c.Failure? ==>
              (c.error == KeyError("destination") && r.destination.None?) ||
              (c.error == KeyError("scope") && r.destination == Some("none") && r.scope.None?) ||
              (c.error == KeyError("family") && r.destination == Some("none") && r.scope == Some("global") && r.family.None?)
  {
    if r.destination.None? then Failure(KeyError("destination"))
    else if r.destination.value != "none" then Success(false)
    else if !(r.table == Some(table) || table == RT_TABLE_UNSPEC) then Success(false)
    else if r.scope.None? then Failure(KeyError("scope"))
    else if r.scope.value != "global" then Success(false)
    else if r.family.None? then Failure(KeyError("family"))
    else Success(r.family.value == FamilyName(family))
  }

  /** The candidate routes, in their order, or the first KeyError. */
  function Candidates(routes: seq<Route>, family: int, table: int): (c: Result<seq<Route>, KeyError>)
    ensures c.Success? ==> forall i :: 0 <= i < |routes| ==> IsCandidate(routes[i], family, table).Success?
    ensures c.Success? ==> forall r :: r in c.value <==> r in routes && IsCandidate(r, family, table) == Success(true)
    ensures c.Failure? ==> exists i :: 0 <= i < |routes| && IsCandidate(routes[i], family, table) == Failure(c.error) &&
                                     forall j :: 0 <= j < i ==> IsCandidate(routes[j], family, table).Success?
  {
    if |routes| == 0 then Success([])
    else
      var head := IsCandidate(routes[0], family, table);
      if head.Failure? then Failure(head.error)
      else
        var tail := Candidates(routes[1..], family, table);
        if tail.Failure? then
          var i :| 0 <= i < |routes[1..]| && IsCandidate(routes[1..][i], family, table) == Failure(tail.error) &&
                   forall j :: 0 <= j < i ==> IsCandidate(routes[1..][j], family, table).Success?;
          assert forall j :: 0 <= j < i + 1 ==> IsCandidate(routes[j], family, table).Success? by {
            forall j | 0 <= j < i + 1 ensures IsCandidate(routes[j], family, table).Success? {
              if j > 0 {
                assert routes[j] == routes[1..][j - 1];
              }
            }
          }
          assert routes[i + 1] == routes[1..][i];
          Failure(tail.error)
        else if head.value then Success([routes[0]] + tail.value)
        else Success(tail.value)
  }

  /** The set of the candidates' gateways, or a KeyError when one has none. */
  function GatewaySet(cands: seq<Route>): (s: Result<set<string>, KeyError>)
    ensures s.Success? <==> forall i :: 0 <= i < |cands| ==> cands[i].gateway.Some?
    ensures s.Success? ==> forall g :: g in s.value <==> exists i :: 0 <= i < |cands| && cands[i].gateway == Some(g)
    ensures s.Failure? ==> s.error == KeyError("gateway")
  {
    if forall i :: 0 <= i < |cands| ==> cands[i].gateway.Some? then
      Success(set i | 0 <= i < |cands| :: cands[i].gateway.value)
    else Failure(KeyError("gateway"))
  }

  /** get_gateway: the gateway of the device's only default route, or of all its
      default routes when they agree; otherwise no gateway. The device must be a
      key of the dictionary. */
  function GetGateway(routesByDev: map<string, seq<Route>>, dev: string, family: int, table: int): (r: Result<string, KeyError>)
    ensures dev !in routesByDev ==> r == Failure(KeyError(dev))
    ensures dev in routesByDev && Candidates(routesByDev[dev], family, table).Failure? ==>
              r == Failure(Candidates(routesByDev[dev], family, table).error)
  {
    if dev !in routesByDev then Failure(KeyError(dev))
    else
      match Candidates(routesByDev[dev], family, table)
      case Failure(e) => Failure(e)
      case Success(cands) =>
        if |cands| == 0 then Success(NoGateway(family))
        else if |cands| == 1 then
          if cands[0].gateway.None? then Failure(KeyError("gateway")) else Success(cands[0].gateway.value)
        else
          match GatewaySet(cands)
          case Failure(e) => Failure(e)
          case Success(gateways) =>
            if |gateways| == 1 then Success(cands[0].gateway.value) else Success(NoGateway(family))
  }

  /** A set of one element is that element's singleton. */
  lemma Singleton(s: set<string>, x: string)
    requires |s| == 1 && x in s
    ensures s == {x}
  {
    var rest := s - {x};
    assert |rest| == 0;
  }

  /** get_gateway case by case, on the candidate routes of the device. */
  lemma GetGatewayCases(routesByDev: map<string, seq<Route>>, dev: string, family: int, table: int)
    requires dev in routesByDev && Candidates(routesByDev[dev], family, table).Success?
    ensures var cands := Candidates(routesByDev[dev], family, table).value;
            var r := GetGateway(routesByDev, dev, family, table);
            (|cands| == 0 ==> r == Success(NoGateway(family))) &&
            (|cands| == 1 && cands[0].gateway.Some? ==> r == Success(cands[0].gateway.value)) &&
            ((exists i :: 0 <= i < |cands| && cands[i].gateway.None?) ==> r == Failure(KeyError("gateway"))) &&
            (forall g :: (forall i :: 0 <= i < |cands| ==> cands[i].gateway == Some(g)) && |cands| >= 1 ==>
               r == Success(g)) &&
            (forall i, j :: (0 <= i < |cands| && 0 <= j < |cands| && cands[i].gateway.Some? && cands[j].gateway.Some? &&
                             cands[i].gateway != cands[j].gateway && GatewaySet(cands).Success?) ==>
               r == Success(NoGateway(family)))
  {
    var cands := Candidates(routesByDev[dev], family, table).value;
    forall g | (forall i :: 0 <= i < |cands| ==> cands[i].gateway == Some(g)) && |cands| >= 1
      ensures GetGateway(routesByDev, dev, family, table) == Success(g)
    {
      if |cands| > 1 {
        var s := GatewaySet(cands).value;
        assert cands[0].gateway == Some(g);
        assert s == {g};
      }
    }
    forall i, j | 0 <= i < |cands| && 0 <= j < |cands| && cands[i].gateway.Some? && cands[j].gateway.Some? &&
        cands[i].gateway != cands[j].gateway && GatewaySet(cands).Success?
      ensures GetGateway(routesByDev, dev, family, table) == Success(NoGateway(family))
    {
      var s := GatewaySet(cands).value;
      assert cands[i].gateway.value in s && cands[j].gateway.value in s;
      if |s| == 1 {
        Singleton(s, cands[i].gateway.value);
      }
    }
  }

  /** Whatever get_gateway returns is no gateway or the gateway of one of the
      device's candidate routes. */
  lemma GetGatewayIsCandidate(routesByDev: map<string, seq<Route>>, dev: string, family: int, table: int)
    requires GetGateway(routesByDev, dev, family, table).Success?
    ensures var g := GetGateway(routesByDev, dev, family, table).value;
            g == NoGateway(family) ||
            exists r :: r in routesByDev[dev] && IsCandidate(r, family, table) == Success(true) && r.gateway == Some(g)
  {
    var cands := Candidates(routesByDev[dev], family, table).value;
    if |cands| >= 1 {
      assert cands[0] in cands;
    }
  }

  /** The routes whose output device is dev, in their order. */
  function OnDevice(routes: seq<Route>, dev: string): (s: seq<Route>)
    ensures forall i :: 0 <= i < |s| ==> s[i].oif == Some(dev)
    ensures forall r :: r in s <==> r in routes && r.oif == Some(dev)
  {
    if |routes| == 0 then []
    else
      var last := routes[|routes| - 1];
      OnDevice(routes[..|routes| - 1], dev) + (if last.oif == Some(dev) then [last] else [])
  }

  /** Appending one route extends only its own device's group. */
  lemma OnDeviceSnoc(routes: seq<Route>, k: nat)
    requires k < |routes|
    ensures forall d :: OnDevice(routes[..k + 1], d) ==
                          OnDevice(routes[..k], d) + (if routes[k].oif == Some(d) then [routes[k]] else [])
  {
    assert routes[..k + 1][..k] == routes[..k];
  }

  /** A device has a non-empty group exactly when some route leads to it. */
  lemma OnDeviceNonEmpty(routes: seq<Route>)
    ensures forall d :: OnDevice(routes, d) != [] <==> exists i :: 0 <= i < |routes| && routes[i].oif == Some(d)
  {
    forall d | exists i :: 0 <= i < |routes| && routes[i].oif == Some(d)
      ensures OnDevice(routes, d) != []
    {
      var i :| 0 <= i < |routes| && routes[i].oif == Some(d);
      assert routes[i] in OnDevice(routes, d);
    }
    forall d | OnDevice(routes, d) != []
      ensures exists i :: 0 <= i < |routes| && routes[i].oif == Some(d)
    {
      assert OnDevice(routes, d)[0] in routes;
    }
  }

  /** get_routes: the routes grouped by output device, every group in input
      order; routes without a device are dropped. */
  method GetRoutes(routes: seq<Route>) returns (byDev: map<string, seq<Route>>)
    ensures forall d :: d in byDev <==> exists i :: 0 <= i < |routes| && routes[i].oif == Some(d)
    ensures forall d :: d in byDev ==> byDev[d] == OnDevice(routes, d)
  {
    byDev := map[];
    var k := 0;
    while k < |routes|
      invariant 0 <= k <= |routes|
      invariant forall d :: d in byDev <==> OnDevice(routes[..k], d) != []
      invariant forall d :: d in byDev ==> byDev[d] == OnDevice(routes[..k], d)
    {
      var route := routes[k];
      OnDeviceSnoc(routes, k);
      if route.oif.Some? {
        var oif := route.oif.value;
        if oif !in byDev {
          byDev := byDev[oif := [route]];
        } else {
          byDev := byDev[oif := byDev[oif] + [route]];
        }
      }
      k := k + 1;
    }
    assert routes[..k] == routes;
    OnDeviceNonEmpty(routes);
  }
}
