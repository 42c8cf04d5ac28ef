/** The incremental graph equals the graph of the whole fleet computed at once. */
module TopologyConfluence {
  import opened Common
  import opened Topology
  import opened TopologyInvariant

  /** What each device id always carries. */
  type Fleet = map<string, Baseline>

  ghost predicate IsFleet(fleet: Fleet) {
    forall id :: id in fleet ==> id != "" && fleet[id].id == Some(id)
  }

  predicate Lists(b: Baseline, ip: string) { ip in OwnIps(b.interfaces) }

  /** The interface whose port is stored under this name: the last one listed with it. */
  ghost predicate IsFinal(interfaces: seq<Interface>, name: string, i: int) {
    && 0 <= i < |interfaces| && interfaces[i].name == Some(name)
    && forall j :: i < j < |interfaces| ==> interfaces[j].name != Some(name)
  }

  /** An address the device keeps once all its interfaces are written. */
  ghost predicate Keeps(b: Baseline, ip: string) {
    exists name, i :: name != "" && IsFinal(b.interfaces, name, i) && b.interfaces[i].ip == Some(ip)
  }

  lemma KeptIsListed(b: Baseline, ip: string)
    requires Keeps(b, ip) && ip != ""
    ensures Lists(b, ip)
  {
    var name, i :| name != "" && IsFinal(b.interfaces, name, i) && b.interfaces[i].ip == Some(ip);
    assert b.interfaces[i] in b.interfaces;
  }

  ghost predicate Calls(b: Baseline, protocol: string, ip: string) {
    exists n :: n in b.neighbors && Truthy(n.ip) && Protocol(n) == protocol && n.ip.value == ip
  }

  // ------------------------------------------------------------------- stored ports

  function PortOf(f: Interface): Port { Port(f.ip, f.description) }

  ghost predicate BatchPort(fleet: Fleet, scanned: set<string>, k: (string, string), p: Port)
    requires scanned <= fleet.Keys
  {
    && k.0 in scanned
    && k.1 != ""
    && exists i :: IsFinal(fleet[k.0].interfaces, k.1, i) && p == PortOf(fleet[k.0].interfaces[i])
  }

  ghost predicate PortsAreBatch(g: Graph, fleet: Fleet, scanned: set<string>)
    requires scanned <= fleet.Keys
  {
    && (forall k :: k in g.ports <==> exists p :: BatchPort(fleet, scanned, k, p))
    && (forall k :: k in g.ports ==> BatchPort(fleet, scanned, k, g.ports[k]))
  }

  lemma BatchPortUnique(fleet: Fleet, scanned: set<string>, k: (string, string), p: Port, q: Port)
    requires scanned <= fleet.Keys
    requires BatchPort(fleet, scanned, k, p) && BatchPort(fleet, scanned, k, q)
    ensures p == q
  {
    var fs := fleet[k.0].interfaces;
    var i :| IsFinal(fs, k.1, i) && p == PortOf(fs[i]);
    var j :| IsFinal(fs, k.1, j) && q == PortOf(fs[j]);
    assert i == j;
  }

  lemma {:induction false} PortsWritten(g: Graph, id: string, interfaces: seq<Interface>, k: (string, string))
    ensures var ports := WritePorts(g, id, interfaces).ports;
            if k.0 == id && k.1 != "" && exists i :: IsFinal(interfaces, k.1, i) then
              k in ports && exists i :: IsFinal(interfaces, k.1, i) && ports[k] == PortOf(interfaces[i])
            else
              (k in ports <==> k in g.ports) && (k in ports ==> ports[k] == g.ports[k])
  {
    if interfaces == [] {
    } else {
      var before, n := interfaces[..|interfaces| - 1], |interfaces| - 1;
      PortsWritten(g, id, before, k);
      if interfaces[n].name == Some(k.1) {
        assert IsFinal(interfaces, k.1, n);
      } else {
        forall i ensures IsFinal(interfaces, k.1, i) <==> IsFinal(before, k.1, i) {
          if 0 <= i < n { assert interfaces[i] == before[i]; }
        }
      }
    }
  }

  lemma PortsGrow(g: Graph, fleet: Fleet, scanned: set<string>, id: string)
    requires scanned <= fleet.Keys && id in fleet && PortsAreBatch(g, fleet, scanned)
    ensures PortsAreBatch(WritePorts(g, id, fleet[id].interfaces), fleet, scanned + {id})
  {
    var fs := fleet[id].interfaces;
    var g1 := WritePorts(g, id, fs);
    forall k
      ensures k in g1.ports <==> exists p :: BatchPort(fleet, scanned + {id}, k, p)
      ensures k in g1.ports ==> BatchPort(fleet, scanned + {id}, k, g1.ports[k])
    {
      PortsWritten(g, id, fs, k);
      if k.0 == id && k.1 != "" && exists i :: IsFinal(fs, k.1, i) {
        assert BatchPort(fleet, scanned + {id}, k, g1.ports[k]);
      } else {
        forall p ensures BatchPort(fleet, scanned + {id}, k, p) <==> BatchPort(fleet, scanned, k, p) {}
      }
    }
  }

  /** An address is owned by the scanned devices that keep it. */
  ghost predicate OwnersKeep(g: Graph, fleet: Fleet, scanned: set<string>)
    requires scanned <= fleet.Keys
  {
    forall ip, d :: ip != "" ==> (d in Owners(g, ip) <==> d in scanned && Keeps(fleet[d], ip))
  }

  lemma OwnerKeeps(g: Graph, fleet: Fleet, scanned: set<string>, ip: string, d: string)
    requires scanned <= fleet.Keys && OwnersKeep(g, fleet, scanned) && ip != "" && d in Owners(g, ip)
    ensures d in scanned && Keeps(fleet[d], ip) && Lists(fleet[d], ip)
  {
    KeptIsListed(fleet[d], ip);
  }

  lemma UnkeptIsUnowned(g: Graph, fleet: Fleet, scanned: set<string>, ip: string)
    requires scanned <= fleet.Keys && OwnersKeep(g, fleet, scanned) && ip != ""
    requires forall d :: d in scanned ==> !Keeps(fleet[d], ip)
    ensures Owners(g, ip) == {}
  {
    forall d | d in Owners(g, ip) ensures false { OwnerKeeps(g, fleet, scanned, ip, d); }
  }

  lemma PortsGiveOwners(g: Graph, fleet: Fleet, scanned: set<string>)
    requires scanned <= fleet.Keys && PortsAreBatch(g, fleet, scanned)
    ensures OwnersKeep(g, fleet, scanned)
  {
    forall ip, d | ip != "" ensures d in Owners(g, ip) <==> d in scanned && Keeps(fleet[d], ip) {
      if d in scanned && Keeps(fleet[d], ip) {
        var fs := fleet[d].interfaces;
        var name, i :| name != "" && IsFinal(fs, name, i) && fs[i].ip == Some(ip);
        assert BatchPort(fleet, scanned, (d, name), PortOf(fs[i]));
        BatchPortUnique(fleet, scanned, (d, name), g.ports[(d, name)], PortOf(fs[i]));
      }
      if d in Owners(g, ip) {
        var k :| k in g.ports && g.ports[k].ip == Some(ip) && k.0 == d;
        assert BatchPort(fleet, scanned, k, g.ports[k]);
      }
    }
  }

  // ---------------------------------------------------------- the edges one ingest leaves

  /** Where a neighbour query leads. */
  predicate Aims(owners: set<string>, ip: string, dst: Node) {
    if owners == {} then dst == Peer(ip) else dst.Device? && dst.id in owners
  }

  ghost predicate Asked(g: Graph, neighbors: seq<Neighbor>, e: Edge) {
    exists n :: n in neighbors && Truthy(n.ip) && Protocol(n) == e.protocol && Aims(Owners(g, n.ip.value), n.ip.value, e.dst)
  }

  lemma {:induction false} NeighborsWritten(g: Graph, id: string, neighbors: seq<Neighbor>, e: Edge)
    ensures e in WriteNeighbors(g, id, neighbors).edges <==> e in g.edges || (e.src == id && Asked(g, neighbors, e))
    ensures WriteNeighbors(g, id, neighbors).devices == g.devices
    ensures WriteNeighbors(g, id, neighbors).ports == g.ports
  {
    if neighbors == [] {
    } else {
      var before, last := neighbors[..|neighbors| - 1], neighbors[|neighbors| - 1];
      assert neighbors == before + [last];
      NeighborsWritten(g, id, before, e);
      NeighborWritten(WriteNeighbors(g, id, before), id, last, e);
      forall ip ensures Owners(WriteNeighbors(g, id, before), ip) == Owners(g, ip) {}
    }
  }

  lemma NeighborWritten(g: Graph, id: string, n: Neighbor, e: Edge)
    ensures e in WriteNeighbor(g, id, n).edges <==>
              || e in g.edges
              || (e.src == id && Truthy(n.ip) && Protocol(n) == e.protocol && Aims(Owners(g, n.ip.value), n.ip.value, e.dst))
  {
  }

  function Named(g: Graph, id: string, b: Baseline): Graph {
    WritePorts(g.(devices := g.devices[id := b.props]), id, b.interfaces)
  }

  /** The device's own edges: those it had, and one for each neighbour asked for now. */
  lemma OwnEdges(g: Graph, b: Baseline, id: string, e: Edge)
    requires b.id == Some(id) && id != "" && e.src == id
    ensures e in Ingest(g, b).edges <==> e in g.edges || Asked(Named(g, id, b), b.neighbors, e)
  {
    var g1 := Named(g, id, b);
    WritePortsFrame(g.(devices := g.devices[id := b.props]), id, b.interfaces);
    NeighborsWritten(g1, id, b.neighbors, e);
    ReconcileEdges(WriteNeighbors(g1, id, b.neighbors), id, OwnIps(b.interfaces), e);
  }

  predicate IsParked(g: Graph, b: Baseline, r: Edge) { r in g.edges && r.dst.Peer? && Lists(b, r.dst.ip) }

  /** The edges of others: kept, unless parked on an address the device lists, or redirected. */
  lemma OtherEdges(g: Graph, b: Baseline, id: string, e: Edge)
    requires b.id == Some(id) && id != "" && e.src != id
    ensures e in Ingest(g, b).edges <==>
              || (e in g.edges && !IsParked(g, b, e))
              || (e.dst == Device(id) && exists r :: IsParked(g, b, r) && r.src == e.src && r.protocol == e.protocol)
  {
    var g1 := Named(g, id, b);
    var g2 := WriteNeighbors(g1, id, b.neighbors);
    WritePortsFrame(g.(devices := g.devices[id := b.props]), id, b.interfaces);
    forall r: Edge | r.src != id ensures r in g2.edges <==> r in g.edges { NeighborsWritten(g1, id, b.neighbors, r); }
    ReconcileEdges(g2, id, OwnIps(b.interfaces), e);
    assert forall r: Edge :: r.src != id ==> (r in Parked(g2, id, OwnIps(b.interfaces)) <==> IsParked(g, b, r));
  }

  // ------------------------------------------------------- what holds in every order

  /** Where a call may have ended, in some order. */
  ghost predicate PossibleEnd(fleet: Fleet, scanned: set<string>, a: string, ip: string, n: Node)
    requires scanned <= fleet.Keys && a in fleet
  {
    match n
    case Peer(p) => p == ip && !Keeps(fleet[a], ip) && forall d :: d in scanned ==> !Keeps(fleet[d], ip)
    case Device(b) =>
      b in scanned && if b == a then Keeps(fleet[a], ip) else MayAnswer(fleet[a], fleet[b], ip)
  }

  ghost predicate MayAnswer(caller: Baseline, other: Baseline, ip: string) {
    Lists(other, ip) && (Keeps(caller, ip) ==> Keeps(other, ip))
  }

  ghost predicate PossibleEdge(fleet: Fleet, scanned: set<string>, e: Edge)
    requires scanned <= fleet.Keys
  {
    e.src in scanned && exists ip :: Calls(fleet[e.src], e.protocol, ip) && PossibleEnd(fleet, scanned, e.src, ip, e.dst)
  }

  /** A call is answered by the caller itself, or else parked or answered by another lister. */
  ghost predicate Answered(g: Graph, fleet: Fleet, scanned: set<string>, a: string, protocol: string, ip: string)
    requires scanned <= fleet.Keys && a in fleet
  {
    if Keeps(fleet[a], ip) then RoutesTo(a, protocol, Device(a)) in g.edges
    else RoutesTo(a, protocol, Peer(ip)) in g.edges || AnsweredByOther(g, fleet, scanned, a, protocol, ip)
  }

  ghost predicate AnsweredByOther(g: Graph, fleet: Fleet, scanned: set<string>, a: string, protocol: string, ip: string)
    requires scanned <= fleet.Keys
  {
    exists b :: b in scanned && b != a && Lists(fleet[b], ip) && RoutesTo(a, protocol, Device(b)) in g.edges
  }

  ghost predicate EdgesReached(g: Graph, fleet: Fleet, scanned: set<string>)
    requires scanned <= fleet.Keys
  {
    && (forall e :: e in g.edges ==> PossibleEdge(fleet, scanned, e))
    && (forall a, protocol, ip :: a in scanned && Calls(fleet[a], protocol, ip) ==> Answered(g, fleet, scanned, a, protocol, ip))
  }

  ghost predicate DevicesReached(g: Graph, fleet: Fleet, scanned: set<string>)
    requires scanned <= fleet.Keys
  {
    g.devices.Keys == scanned && forall d :: d in scanned ==> g.devices[d] == fleet[d].props
  }

  lemma CalledIsNotEmpty(b: Baseline, protocol: string, ip: string)
    requires Calls(b, protocol, ip)
    ensures ip != ""
  {
  }

  /** Another device's edge stays possible. */
  lemma OtherStaysPossible(g: Graph, fleet: Fleet, scanned: set<string>, id: string, e: Edge)
    requires IsFleet(fleet) && scanned <= fleet.Keys && id in fleet && EdgesReached(g, fleet, scanned)
    requires e.src != id && e in Ingest(g, fleet[id]).edges
    ensures PossibleEdge(fleet, scanned + {id}, e)
  {
    OtherEdges(g, fleet[id], id, e);
    if e in g.edges && !IsParked(g, fleet[id], e) {
      var ip :| Calls(fleet[e.src], e.protocol, ip) && PossibleEnd(fleet, scanned, e.src, ip, e.dst);
      CalledIsNotEmpty(fleet[e.src], e.protocol, ip);
      if Keeps(fleet[id], ip) { KeptIsListed(fleet[id], ip); }
      assert PossibleEnd(fleet, scanned + {id}, e.src, ip, e.dst);
    } else {
      var r :| IsParked(g, fleet[id], r) && r.src == e.src && r.protocol == e.protocol;
      var ip :| Calls(fleet[r.src], r.protocol, ip) && PossibleEnd(fleet, scanned, r.src, ip, r.dst);
      assert PossibleEnd(fleet, scanned + {id}, e.src, ip, e.dst);
    }
  }

  lemma OwnIsPossible(g: Graph, fleet: Fleet, scanned: set<string>, id: string, e: Edge)
    requires IsFleet(fleet) && scanned <= fleet.Keys && id in fleet && EdgesReached(g, fleet, scanned)
    requires OwnersKeep(Named(g, id, fleet[id]), fleet, scanned + {id})
    requires e.src == id && e in Ingest(g, fleet[id]).edges
    ensures PossibleEdge(fleet, scanned + {id}, e)
  {
    var b, now := fleet[id], scanned + {id};
    OwnEdges(g, b, id, e);
    if e in g.edges {
      var ip :| Calls(b, e.protocol, ip) && PossibleEnd(fleet, scanned, id, ip, e.dst);
      assert PossibleEnd(fleet, now, id, ip, e.dst);
    } else {
      var n :| n in b.neighbors && Truthy(n.ip) && Protocol(n) == e.protocol
               && Aims(Owners(Named(g, id, b), n.ip.value), n.ip.value, e.dst);
      var ip := n.ip.value;
      assert Calls(b, e.protocol, ip);
      if e.dst.Device? { OwnerKeeps(Named(g, id, b), fleet, now, ip, e.dst.id); }
      assert PossibleEnd(fleet, now, id, ip, e.dst);
    }
  }

  lemma OtherStaysAnswered(g: Graph, fleet: Fleet, scanned: set<string>, id: string, a: string, protocol: string, ip: string)
    requires IsFleet(fleet) && scanned <= fleet.Keys && id in fleet && a in scanned && a != id
    requires Answered(g, fleet, scanned, a, protocol, ip)
    ensures Answered(Ingest(g, fleet[id]), fleet, scanned + {id}, a, protocol, ip)
  {
    var g' := Ingest(g, fleet[id]);
    var parked := RoutesTo(a, protocol, Peer(ip));
    if Keeps(fleet[a], ip) {
      OtherEdges(g, fleet[id], id, RoutesTo(a, protocol, Device(a)));
    } else if parked in g.edges {
      OtherEdges(g, fleet[id], id, parked);
      OtherEdges(g, fleet[id], id, RoutesTo(a, protocol, Device(id)));
      if IsParked(g, fleet[id], parked) { assert RoutesTo(a, protocol, Device(id)) in g'.edges; }
    } else {
      var b :| b in scanned && b != a && Lists(fleet[b], ip) && RoutesTo(a, protocol, Device(b)) in g.edges;
      OtherEdges(g, fleet[id], id, RoutesTo(a, protocol, Device(b)));
    }
  }

  lemma OwnIsAnswered(g: Graph, fleet: Fleet, scanned: set<string>, id: string, protocol: string, ip: string)
    requires IsFleet(fleet) && scanned <= fleet.Keys && id in fleet && Calls(fleet[id], protocol, ip)
    requires OwnersKeep(Named(g, id, fleet[id]), fleet, scanned + {id})
    ensures Answered(Ingest(g, fleet[id]), fleet, scanned + {id}, id, protocol, ip)
  {
    var b, owners := fleet[id], Owners(Named(g, id, fleet[id]), ip);
    var n :| n in b.neighbors && Truthy(n.ip) && Protocol(n) == protocol && n.ip.value == ip;
    var d := if owners == {} then Peer(ip) else if id in owners then Device(id) else AnyOf(owners);
    assert ip != "" && Aims(owners, n.ip.value, d);
    OwnEdges(g, b, id, RoutesTo(id, protocol, d));
    if owners != {} && id !in owners {
      OwnerKeeps(Named(g, id, b), fleet, scanned + {id}, ip, d.id);
    }
  }

  ghost function AnyOf(owners: set<string>): (n: Node)
    requires owners != {}
    ensures n.Device? && n.id in owners
  {
    var d :| d in owners;
    Device(d)
  }

  ghost predicate Reached(g: Graph, fleet: Fleet, scanned: set<string>)
    requires scanned <= fleet.Keys
  {
    DevicesReached(g, fleet, scanned) && PortsAreBatch(g, fleet, scanned) && EdgesReached(g, fleet, scanned)
  }

  lemma IngestFrame(g: Graph, b: Baseline, id: string)
    requires b.id == Some(id) && id != ""
    ensures Ingest(g, b).devices == g.devices[id := b.props]
    ensures Ingest(g, b).ports == Named(g, id, b).ports
  {
    WritePortsFrame(g.(devices := g.devices[id := b.props]), id, b.interfaces);
    NeighborsWritten(Named(g, id, b), id, b.neighbors, RoutesTo(id, "", Device(id)));
  }

  lemma IngestReaches(g: Graph, fleet: Fleet, scanned: set<string>, id: string)
    requires IsFleet(fleet) && scanned <= fleet.Keys && id in fleet && Reached(g, fleet, scanned)
    ensures Reached(Ingest(g, fleet[id]), fleet, scanned + {id})
  {
    var g', now := Ingest(g, fleet[id]), scanned + {id};
    IngestFrame(g, fleet[id], id);
    PortsGrow(g.(devices := g.devices[id := fleet[id].props]), fleet, scanned, id);
    PortsGiveOwners(Named(g, id, fleet[id]), fleet, now);
    forall e | e in g'.edges ensures PossibleEdge(fleet, now, e) {
      if e.src == id { OwnIsPossible(g, fleet, scanned, id, e); } else { OtherStaysPossible(g, fleet, scanned, id, e); }
    }
    forall a, protocol, ip | a in now && Calls(fleet[a], protocol, ip) ensures Answered(g', fleet, now, a, protocol, ip) {
      if a == id { OwnIsAnswered(g, fleet, scanned, id, protocol, ip); }
      else { OtherStaysAnswered(g, fleet, scanned, id, a, protocol, ip); }
    }
  }

  ghost predicate ScansOf(fleet: Fleet, scans: seq<Baseline>) {
    forall b :: b in scans && Truthy(b.id) ==> b.id.value in fleet && b == fleet[b.id.value]
  }

  function Ids(scans: seq<Baseline>): set<string> {
    set b | b in scans && Truthy(b.id) :: b.id.value
  }

  lemma {:induction false} ScansReach(fleet: Fleet, scans: seq<Baseline>)
    requires IsFleet(fleet) && ScansOf(fleet, scans)
    ensures Ids(scans) <= fleet.Keys && Reached(IngestAll(EMPTY, scans), fleet, Ids(scans))
  {
    if scans == [] {
    } else {
      var before, last := scans[..|scans| - 1], scans[|scans| - 1];
      assert scans == before + [last] && last in scans;
      ScansReach(fleet, before);
      if Truthy(last.id) {
        assert Ids(scans) == Ids(before) + {last.id.value};
        IngestReaches(IngestAll(EMPTY, before), fleet, Ids(before), last.id.value);
      } else {
        assert Ids(scans) == Ids(before);
      }
    }
  }

  // ------------------------------------------------------------- the batch graph

  /** Of all scanned devices but the caller, b alone lists the address. */
  ghost predicate OnlyLister(fleet: Fleet, scanned: set<string>, a: string, b: string, ip: string)
    requires scanned <= fleet.Keys
  {
    && b in scanned && b != a && Lists(fleet[b], ip)
    && forall c :: c in scanned && c != a && Lists(fleet[c], ip) ==> c == b
  }

  /** The caller answers itself if it keeps the address; otherwise the only other device that
    * lists it does, and if there is none the call stays parked. */
  ghost predicate BatchEnd(fleet: Fleet, scanned: set<string>, a: string, ip: string, n: Node)
    requires scanned <= fleet.Keys && a in fleet
  {
    match n
    case Peer(p) => p == ip && !Keeps(fleet[a], ip) && forall b :: b in scanned && b != a ==> !Lists(fleet[b], ip)
    case Device(b) =>
      if b == a then Keeps(fleet[a], ip) else !Keeps(fleet[a], ip) && OnlyLister(fleet, scanned, a, b, ip)
  }

  ghost predicate BatchEdge(fleet: Fleet, scanned: set<string>, e: Edge)
    requires scanned <= fleet.Keys
  {
    e.src in scanned && exists ip :: Calls(fleet[e.src], e.protocol, ip) && BatchEnd(fleet, scanned, e.src, ip, e.dst)
  }

  /** g is the graph of the scanned devices, computed in one go. */
  ghost predicate IsBatch(g: Graph, fleet: Fleet, scanned: set<string>)
    requires scanned <= fleet.Keys
  {
    && DevicesReached(g, fleet, scanned)
    && PortsAreBatch(g, fleet, scanned)
    && (forall e :: e in g.edges <==> BatchEdge(fleet, scanned, e))
    && (forall ip :: ip in g.peers <==> exists e :: BatchEdge(fleet, scanned, e) && e.dst == Peer(ip))
  }

  /** The batch graph is determined by the set of scanned devices. */
  lemma BatchIsUnique(g: Graph, h: Graph, fleet: Fleet, scanned: set<string>)
    requires scanned <= fleet.Keys && IsBatch(g, fleet, scanned) && IsBatch(h, fleet, scanned)
    ensures g == h
  {
    SamePorts(g, h, fleet, scanned);
    assert g.devices == h.devices;
    assert g.edges == h.edges && g.peers == h.peers;
  }

  lemma SamePorts(g: Graph, h: Graph, fleet: Fleet, scanned: set<string>)
    requires scanned <= fleet.Keys && PortsAreBatch(g, fleet, scanned) && PortsAreBatch(h, fleet, scanned)
    ensures g.ports == h.ports
  {
    forall k | k in g.ports ensures k in h.ports && g.ports[k] == h.ports[k] {
      assert BatchPort(fleet, scanned, k, g.ports[k]);
      BatchPortUnique(fleet, scanned, k, g.ports[k], h.ports[k]);
    }
    forall k | k in h.ports ensures k in g.ports {
      assert BatchPort(fleet, scanned, k, h.ports[k]);
    }
  }

  // --------------------------------------------------------------- what a baseline says

  /** A device calls an address by a protocol exactly if it names a neighbour with that address; a
    * neighbour without a protocol is called by one that is unknown. */
  lemma CallsExactly(b: Baseline, protocol: string, ip: string)
    ensures Calls(b, protocol, ip) <==>
            ip != "" && exists n :: n in b.neighbors && n.ip == Some(ip)
                                    && protocol == if n.protocol == None || n.protocol == Some("") then "unknown" else n.protocol.value
  {
    forall n: Neighbor
      ensures Protocol(n) == if n.protocol == None || n.protocol == Some("") then "unknown" else n.protocol.value {}
  }

  /** It lists an address exactly if an interface with a name has it. */
  lemma ListsExactly(b: Baseline, ip: string)
    ensures Lists(b, ip) <==>
            ip != "" && exists f :: f in b.interfaces && f.ip == Some(ip) && f.name.Some? && f.name.value != ""
  {
    if f :| f in b.interfaces && f.ip == Some(ip) && f.name.Some? && f.name.value != "" && ip != "" {
      assert Truthy(f.name) && Truthy(f.ip);
    }
  }

  // ---------------------------------------------------------------------- main results

  ghost predicate MustAnswer(fleet: Fleet, scanned: set<string>, a: string, protocol: string, b: string)
    requires scanned <= fleet.Keys && a in fleet
  {
    exists ip :: Calls(fleet[a], protocol, ip) && !Keeps(fleet[a], ip) && OnlyLister(fleet, scanned, a, b, ip)
  }

  ghost predicate SomeLists(fleet: Fleet, scanned: set<string>, a: string, ip: string)
    requires scanned <= fleet.Keys
  {
    exists b :: b in scanned && b != a && Lists(fleet[b], ip)
  }

  ghost predicate SomeKeeps(fleet: Fleet, scanned: set<string>, ip: string)
    requires scanned <= fleet.Keys
  {
    exists b :: b in scanned && Keeps(fleet[b], ip)
  }

  /** For every call of a scanned device: if another lists the address, somebody keeps it; and
    * each other device that may answer must answer some call of the same protocol, because the
    * caller does not keep that address and no third device lists it. */
  ghost predicate IsSteady(fleet: Fleet, scanned: set<string>)
    requires scanned <= fleet.Keys
  {
    forall a, protocol, ip :: a in scanned && Calls(fleet[a], protocol, ip) ==>
      && (SomeLists(fleet, scanned, a, ip) ==> SomeKeeps(fleet, scanned, ip))
      && (forall b :: b in scanned && b != a && MayAnswer(fleet[a], fleet[b], ip) ==>
            MustAnswer(fleet, scanned, a, protocol, b))
  }

  lemma ReachedIsBatchEdge(g: Graph, fleet: Fleet, scanned: set<string>, e: Edge)
    requires scanned <= fleet.Keys && EdgesReached(g, fleet, scanned) && IsSteady(fleet, scanned)
    requires e in g.edges
    ensures BatchEdge(fleet, scanned, e)
  {
    var ip :| Calls(fleet[e.src], e.protocol, ip) && PossibleEnd(fleet, scanned, e.src, ip, e.dst);
    if e.dst.Device? && e.dst.id != e.src {
      assert MustAnswer(fleet, scanned, e.src, e.protocol, e.dst.id);
      var ip' :| Calls(fleet[e.src], e.protocol, ip') && !Keeps(fleet[e.src], ip')
                 && OnlyLister(fleet, scanned, e.src, e.dst.id, ip');
      assert BatchEnd(fleet, scanned, e.src, ip', e.dst);
    } else {
      assert BatchEnd(fleet, scanned, e.src, ip, e.dst);
    }
  }

  lemma BatchEdgeIsReached(g: Graph, fleet: Fleet, scanned: set<string>, e: Edge)
    requires scanned <= fleet.Keys && EdgesReached(g, fleet, scanned) && IsSteady(fleet, scanned)
    requires BatchEdge(fleet, scanned, e)
    ensures e in g.edges
  {
    var ip :| Calls(fleet[e.src], e.protocol, ip) && BatchEnd(fleet, scanned, e.src, ip, e.dst);
    assert Answered(g, fleet, scanned, e.src, e.protocol, ip);
    if e.dst.Device? && e.dst.id != e.src && RoutesTo(e.src, e.protocol, Peer(ip)) in g.edges {
      ParkedIsUnkept(g, fleet, scanned, RoutesTo(e.src, e.protocol, Peer(ip)));
      assert SomeLists(fleet, scanned, e.src, ip);
      assert false;
    }
  }

  lemma ParkedIsUnkept(g: Graph, fleet: Fleet, scanned: set<string>, e: Edge)
    requires scanned <= fleet.Keys && EdgesReached(g, fleet, scanned) && e in g.edges && e.dst.Peer?
    ensures !SomeKeeps(fleet, scanned, e.dst.ip)
  {
    var ip :| Calls(fleet[e.src], e.protocol, ip) && PossibleEnd(fleet, scanned, e.src, ip, e.dst);
  }

  /** After any sequence of ingests, repeats allowed, the graph is the batch graph
    * of the devices scanned so far. */
  lemma IncrementalIsBatch(fleet: Fleet, scans: seq<Baseline>)
    requires IsFleet(fleet) && ScansOf(fleet, scans)
    requires Ids(scans) <= fleet.Keys && IsSteady(fleet, Ids(scans))
    ensures IsBatch(IngestAll(EMPTY, scans), fleet, Ids(scans))
  {
    var g, scanned := IngestAll(EMPTY, scans), Ids(scans);
    ScansReach(fleet, scans);
    PlaceholderInvariant(scans);
    forall e ensures e in g.edges <==> BatchEdge(fleet, scanned, e) {
      if e in g.edges { ReachedIsBatchEdge(g, fleet, scanned, e); }
      if BatchEdge(fleet, scanned, e) { BatchEdgeIsReached(g, fleet, scanned, e); }
    }
  }

  /** Any two arrival orders of the same devices give the same graph. */
  lemma ArrivalOrderIsIrrelevant(fleet: Fleet, scans: seq<Baseline>, others: seq<Baseline>)
    requires IsFleet(fleet) && ScansOf(fleet, scans) && ScansOf(fleet, others)
    requires Ids(scans) == Ids(others) <= fleet.Keys && IsSteady(fleet, Ids(scans))
    ensures IngestAll(EMPTY, scans) == IngestAll(EMPTY, others)
  {
    IncrementalIsBatch(fleet, scans);
    IncrementalIsBatch(fleet, others);
    BatchIsUnique(IngestAll(EMPTY, scans), IngestAll(EMPTY, others), fleet, Ids(scans));
  }
}
