/** The smallest fleets on which scan order matters, and one on which it seems to. */
module TopologyExamples {
  import opened Common
  import opened Topology
  import opened TopologyInvariant
  import opened TopologyConfluence
  import opened TopologyOrders

  const NOTHING := Props(None, None, None)

  /** A router with two addresses. */
  function Router(id: string, x: string, y: string): Baseline {
    Baseline(Some(id), NOTHING, [Interface(Some("Gi0"), Some(x), None), Interface(Some("Gi1"), Some(y), None)], [])
  }

  /** A caller without interfaces of its own. */
  function Caller(id: string, ips: seq<string>): Baseline {
    Baseline(Some(id), NOTHING, [], seq(|ips|, i requires 0 <= i < |ips| => Neighbor(Some(ips[i]), Some("bgp"))))
  }

  lemma RouterKeeps(id: string, x: string, y: string, ip: string)
    requires x != "" && y != ""
    ensures Lists(Router(id, x, y), ip) <==> ip in {x, y}
    ensures Keeps(Router(id, x, y), ip) <==> ip in {x, y}
  {
    var fs := Router(id, x, y).interfaces;
    assert fs[0] in fs && fs[1] in fs;
    assert |"Gi0"| == 3 && "Gi0"[2] != "Gi1"[2];
    assert IsFinal(fs, "Gi0", 0) && IsFinal(fs, "Gi1", 1);
  }

  lemma CallerCalls(id: string, ips: seq<string>, protocol: string, ip: string)
    requires forall i :: 0 <= i < |ips| ==> ips[i] != ""
    ensures Calls(Caller(id, ips), protocol, ip) <==> protocol == "bgp" && ip in ips
    ensures !Lists(Caller(id, ips), ip) && !Keeps(Caller(id, ips), ip)
  {
    var ns := Caller(id, ips).neighbors;
    if protocol == "bgp" && ip in ips {
      var i :| 0 <= i < |ips| && ips[i] == ip;
      assert ns[i] in ns;
    }
  }

  lemma RouterCalls(id: string, x: string, y: string, protocol: string, ip: string)
    ensures !Calls(Router(id, x, y), protocol, ip)
  {
  }

  datatype Trio = Trio(a: string, b: string, c: string) {
    predicate Valid() { a != "" && b != "" && c != "" && a != b && b != c && a != c }

    function All(): set<string> { {a, b, c} }

    /** Two routers, and a caller of these addresses. */
    function Of(x: Baseline, y: Baseline, z: Baseline): Fleet { map[a := x, b := y, c := z] }
  }

  /** What matters of such a fleet: the addresses called and those kept by a and b. */
  ghost predicate HasShape(fleet: Fleet, t: Trio, called: set<string>, keptA: set<string>, keptB: set<string>) {
    && t.Valid() && fleet.Keys == t.All() && IsFleet(fleet)
    && (forall protocol, ip :: !Calls(fleet[t.a], protocol, ip) && !Calls(fleet[t.b], protocol, ip))
    && (forall protocol, ip :: Calls(fleet[t.c], protocol, ip) <==> protocol == "bgp" && ip in called)
    && (forall ip :: !Lists(fleet[t.c], ip) && !Keeps(fleet[t.c], ip))
    && (forall ip :: (Lists(fleet[t.a], ip) <==> ip in keptA) && (Keeps(fleet[t.a], ip) <==> ip in keptA))
    && (forall ip :: (Lists(fleet[t.b], ip) <==> ip in keptB) && (Keeps(fleet[t.b], ip) <==> ip in keptB))
  }

  function Three(t: Trio, ips: seq<string>, x: (string, string), y: (string, string)): Fleet {
    t.Of(Router(t.a, x.0, x.1), Router(t.b, y.0, y.1), Caller(t.c, ips))
  }

  lemma ThreeHasShape(t: Trio, ips: seq<string>, x: (string, string), y: (string, string))
    requires t.Valid()
    requires x.0 != "" && x.1 != "" && y.0 != "" && y.1 != "" && forall i :: 0 <= i < |ips| ==> ips[i] != ""
    ensures HasShape(Three(t, ips, x, y), t, set ip | ip in ips, {x.0, x.1}, {y.0, y.1})
  {
    forall protocol, ip
      ensures !Calls(Router(t.a, x.0, x.1), protocol, ip) && !Calls(Router(t.b, y.0, y.1), protocol, ip)
      ensures Calls(Caller(t.c, ips), protocol, ip) <==> protocol == "bgp" && ip in ips
    {
      RouterCalls(t.a, x.0, x.1, protocol, ip);
      RouterCalls(t.b, y.0, y.1, protocol, ip);
      CallerCalls(t.c, ips, protocol, ip);
    }
    forall ip
      ensures !Lists(Caller(t.c, ips), ip) && !Keeps(Caller(t.c, ips), ip)
      ensures (Lists(Router(t.a, x.0, x.1), ip) <==> ip in {x.0, x.1}) && (Keeps(Router(t.a, x.0, x.1), ip) <==> ip in {x.0, x.1})
      ensures (Lists(Router(t.b, y.0, y.1), ip) <==> ip in {y.0, y.1}) && (Keeps(Router(t.b, y.0, y.1), ip) <==> ip in {y.0, y.1})
    {
      CallerCalls(t.c, ips, "", ip);
      RouterKeeps(t.a, x.0, x.1, ip);
      RouterKeeps(t.b, y.0, y.1, ip);
    }
  }

  lemma SharedMayAnswer(fleet: Fleet, t: Trio, ip: string, x: string, y: string)
    requires HasShape(fleet, t, {ip}, {ip, x}, {ip, y})
    ensures Calls(fleet[t.c], "bgp", ip) && MayAnswer(fleet[t.c], fleet[t.a], ip)
    ensures !MustAnswer(fleet, t.All(), t.c, "bgp", t.a)
  {
    forall other | Calls(fleet[t.c], "bgp", other) ensures !OnlyLister(fleet, t.All(), t.c, t.a, other) {
      assert Lists(fleet[t.b], other);
    }
  }

  lemma SharedIsNotDropped(fleet: Fleet, t: Trio, ip: string, x: string, y: string)
    requires HasShape(fleet, t, {ip}, {ip, x}, {ip, y})
    ensures NoneIsDropped(fleet, t.All())
  {
    forall i, j, protocol, other | i in t.All() && j in t.All() && i != j && Calls(fleet[i], protocol, other)
      ensures !Drops(fleet[j], other)
    {
      assert j == t.a || j == t.b || j == t.c;
    }
  }

  /** Two routers share the address the caller routes to: the first one scanned after it is the
    * one it routes to from then on. */
  lemma SharedAddressBreaksConfluence(t: Trio, ip: string, x: string, y: string)
    requires t.Valid() && ip != "" && x != "" && y != ""
    ensures !Confluent(Three(t, [ip], (ip, x), (ip, y)), t.All())
    ensures NoneIsDropped(Three(t, [ip], (ip, x), (ip, y)), t.All())
  {
    var fleet := Three(t, [ip], (ip, x), (ip, y));
    ThreeHasShape(t, [ip], (ip, x), (ip, y));
    assert (set i | i in [ip]) == {ip};
    SharedMayAnswer(fleet, t, ip, x, y);
    SharedIsNotDropped(fleet, t, ip, x, y);
    ConfluentExactly(fleet, t.All());
  }

  lemma OwnAddressAnswers(fleet: Fleet, t: Trio, ip: string, x: string, y: string)
    requires ip != x && ip != y && x != y && HasShape(fleet, t, {ip, x, y}, {ip, x}, {ip, y})
    ensures MustAnswer(fleet, t.All(), t.c, "bgp", t.a) && MustAnswer(fleet, t.All(), t.c, "bgp", t.b)
    ensures !OneOwner(fleet, t.All(), t.c, ip)
  {
    assert Calls(fleet[t.c], "bgp", x) && OnlyLister(fleet, t.All(), t.c, t.a, x);
    assert Calls(fleet[t.c], "bgp", y) && OnlyLister(fleet, t.All(), t.c, t.b, y);
    assert Lists(fleet[t.a], ip) && Lists(fleet[t.b], ip);
  }

  lemma ListedIsKept(fleet: Fleet, t: Trio, called: set<string>, keptA: set<string>, keptB: set<string>, i: string, ip: string)
    requires HasShape(fleet, t, called, keptA, keptB) && SomeLists(fleet, t.All(), i, ip)
    ensures SomeKeeps(fleet, t.All(), ip)
  {
    var b :| b in t.All() && b != i && Lists(fleet[b], ip);
    assert Keeps(fleet[b], ip);
  }

  lemma OthersMustAnswer(fleet: Fleet, t: Trio, ip: string, x: string, y: string, j: string)
    requires ip != x && ip != y && x != y && HasShape(fleet, t, {ip, x, y}, {ip, x}, {ip, y})
    requires j in t.All() && j != t.c
    ensures MustAnswer(fleet, t.All(), t.c, "bgp", j)
  {
    OwnAddressAnswers(fleet, t, ip, x, y);
  }

  lemma OnlyTheCallerCalls(fleet: Fleet, t: Trio, called: set<string>, keptA: set<string>, keptB: set<string>,
                           i: string, protocol: string, ip: string)
    requires HasShape(fleet, t, called, keptA, keptB) && i in t.All() && Calls(fleet[i], protocol, ip)
    ensures i == t.c && protocol == "bgp"
  {
  }

  lemma HiddenIsSteady(fleet: Fleet, t: Trio, ip: string, x: string, y: string)
    requires ip != x && ip != y && x != y && HasShape(fleet, t, {ip, x, y}, {ip, x}, {ip, y})
    requires t.All() <= fleet.Keys
    ensures IsSteady(fleet, t.All())
  {
    forall i, protocol, other | i in t.All() && Calls(fleet[i], protocol, other)
      ensures SomeLists(fleet, t.All(), i, other) ==> SomeKeeps(fleet, t.All(), other)
      ensures forall j :: j in t.All() && j != i ==> MustAnswer(fleet, t.All(), i, protocol, j)
    {
      OnlyTheCallerCalls(fleet, t, {ip, x, y}, {ip, x}, {ip, y}, i, protocol, other);
      if SomeLists(fleet, t.All(), i, other) { ListedIsKept(fleet, t, {ip, x, y}, {ip, x}, {ip, y}, i, other); }
      forall j | j in t.All() && j != i ensures MustAnswer(fleet, t.All(), i, protocol, j) {
        OthersMustAnswer(fleet, t, ip, x, y, j);
      }
    }
    EveryCallIsSteady(fleet, t.All());
  }

  lemma EveryCallIsSteady(fleet: Fleet, scanned: set<string>)
    requires scanned <= fleet.Keys
    requires forall i, protocol, ip :: i in scanned && Calls(fleet[i], protocol, ip) ==>
               && (SomeLists(fleet, scanned, i, ip) ==> SomeKeeps(fleet, scanned, ip))
               && forall j :: j in scanned && j != i ==> MustAnswer(fleet, scanned, i, protocol, j)
    ensures IsSteady(fleet, scanned)
  {
  }

  /** But if the caller routes to each of them by an address of its own as well, it routes to
    * both in every order, and nothing else changes: one owner per address is not needed. */
  lemma SharedAddressCanBeHidden(t: Trio, ip: string, x: string, y: string)
    requires t.Valid() && ip != "" && x != "" && y != "" && ip != x && ip != y && x != y
    ensures var fleet := Three(t, [ip, x, y], (ip, x), (ip, y));
            Confluent(fleet, t.All()) && Calls(fleet[t.c], "bgp", ip) && !OneOwner(fleet, t.All(), t.c, ip)
  {
    var fleet := Three(t, [ip, x, y], (ip, x), (ip, y));
    ThreeHasShape(t, [ip, x, y], (ip, x), (ip, y));
    assert (set i | i in [ip, x, y]) == {ip, x, y};
    OwnAddressAnswers(fleet, t, ip, x, y);
    HiddenIsSteady(fleet, t, ip, x, y);
    ConfluentExactly(fleet, t.All());
  }

  const CALLER := Baseline(Some("a"), Props(None, None, None), [], [Neighbor(Some("10.0.0.9"), Some("bgp"))])
  const RENAMER := Baseline(Some("b"), Props(None, None, None),
                            [Interface(Some("Gi0"), Some("10.0.0.9"), None), Interface(Some("Gi0"), None, None)], [])
  const PARKED := RoutesTo("a", "bgp", Peer("10.0.0.9"))

  /** For instance "b" reuses the name under which it lists
    * 10.0.0.9, so only a caller scanned before it is redirected. */
  lemma RepeatedNameBreaksConfluence()
    ensures PARKED !in IngestAll(EMPTY, [CALLER, RENAMER]).edges
    ensures PARKED in IngestAll(EMPTY, [RENAMER, CALLER]).edges
  {
    InTurn(CALLER, RENAMER);
    InTurn(RENAMER, CALLER);
    IngestOne(EMPTY, RENAMER);
    RenamerRedirects(Ingest(EMPTY, CALLER));
    RenamerStores();
    CallerParks(Ingest(EMPTY, RENAMER));
  }

  lemma InTurn(x: Baseline, y: Baseline)
    ensures IngestAll(EMPTY, [x, y]) == Ingest(Ingest(EMPTY, x), y)
  {
    assert [x, y] == [x] + [y];
    IngestAppend(EMPTY, [x], [y]);
    IngestOne(EMPTY, x);
    IngestOne(Ingest(EMPTY, x), y);
  }

  lemma RenamerRedirects(g: Graph)
    ensures PARKED !in Ingest(g, RENAMER).edges
  {
    var fs := RENAMER.interfaces;
    var g2 := WriteNeighbors(WritePorts(g.(devices := g.devices["b" := RENAMER.props]), "b", fs), "b", []);
    assert fs[0] in fs && "10.0.0.9" in OwnIps(fs);
    ReconcileEdges(g2, "b", OwnIps(fs), PARKED);
  }

  lemma RenamerStores()
    ensures IngestAll(EMPTY, [RENAMER]).ports == map[("b", "Gi0") := Port(None, None)]
  {
    var fs := RENAMER.interfaces;
    var g0 := EMPTY.(devices := EMPTY.devices["b" := RENAMER.props]);
    assert [RENAMER][..0] == [];
    var one := [fs[0]];
    assert fs[..1] == one && one[..0] == [];
    assert WritePorts(g0, "b", one) == WritePort(g0, "b", fs[0]);
    assert WritePorts(g0, "b", fs) == WritePort(WritePort(g0, "b", fs[0]), "b", fs[1]);
  }

  lemma CallerParks(g: Graph)
    requires g.ports == map[("b", "Gi0") := Port(None, None)]
    ensures PARKED in Ingest(g, CALLER).edges
  {
    var g1 := g.(devices := g.devices["a" := CALLER.props]);
    var n := CALLER.neighbors[0];
    assert CALLER.neighbors[..0] == [];
    assert Owners(g1, "10.0.0.9") == {};
    assert PARKED in WriteNeighbor(g1, "a", n).edges;
    assert WriteNeighbors(g1, "a", CALLER.neighbors) == WriteNeighbor(g1, "a", n);
    ReconcileEdges(WriteNeighbors(g1, "a", CALLER.neighbors), "a", OwnIps([]), PARKED);
  }
}
