/** The routing graph the compliance service learns, one scanned device at a time. */
module Topology {
  import opened Common

  // -------------------------------------------------------------------- the graph

  /** A scanned device, or the placeholder for a neighbour known by address only. */
  datatype Node = Device(id: string) | Peer(ip: string)

  datatype Edge = RoutesTo(src: string, protocol: string, dst: Node)

  datatype Props = Props(vendor: Option<string>, os: Option<string>, hostname: Option<string>)
  datatype Port = Port(ip: Option<string>, description: Option<string>)

  datatype Graph = Graph(
    devices: map<string, Props>,
    ports: map<(string, string), Port>,
    edges: set<Edge>,
    peers: set<string>)

  const EMPTY := Graph(map[], map[], {}, {})

  // ----------------------------------------------------------- one device's facts

  datatype Interface = Interface(name: Option<string>, ip: Option<string>, description: Option<string>)
  datatype Neighbor = Neighbor(ip: Option<string>, protocol: Option<string>)
  datatype Baseline = Baseline(id: Option<string>, props: Props, interfaces: seq<Interface>, neighbors: seq<Neighbor>)

  /** Present and not empty. */
  predicate Truthy(s: Option<string>) { s.Some? && s.value != "" }

  function Protocol(n: Neighbor): string { if Truthy(n.protocol) then n.protocol.value else "unknown" }

  /** The addresses of the named interfaces. */
  function OwnIps(interfaces: seq<Interface>): set<string> {
    set f | f in interfaces && Truthy(f.name) && Truthy(f.ip) :: f.ip.value
  }

  // ------------------------------------------------------ the effect of each query

  function WritePort(g: Graph, id: string, f: Interface): Graph {
    if Truthy(f.name) then g.(ports := g.ports[(id, f.name.value) := Port(f.ip, f.description)]) else g
  }

  function WritePorts(g: Graph, id: string, interfaces: seq<Interface>): Graph {
    if interfaces == [] then g
    else WritePort(WritePorts(g, id, interfaces[..|interfaces| - 1]), id, interfaces[|interfaces| - 1])
  }

  /** The scanned devices with an interface of this address. */
  function Owners(g: Graph, ip: string): set<string> {
    set k | k in g.ports && g.ports[k].ip == Some(ip) :: k.0
  }

  function WriteNeighbor(g: Graph, id: string, n: Neighbor): Graph {
    if !Truthy(n.ip) then g
    else
      var owners := Owners(g, n.ip.value);
      if owners == {} then
        g.(peers := g.peers + {n.ip.value}, edges := g.edges + {RoutesTo(id, Protocol(n), Peer(n.ip.value))})
      else
        g.(edges := g.edges + set o | o in owners :: RoutesTo(id, Protocol(n), Device(o)))
  }

  function WriteNeighbors(g: Graph, id: string, neighbors: seq<Neighbor>): Graph {
    if neighbors == [] then g
    else WriteNeighbor(WriteNeighbors(g, id, neighbors[..|neighbors| - 1]), id, neighbors[|neighbors| - 1])
  }

  /** Edges of other devices that end at a placeholder for one of these addresses. */
  function Parked(g: Graph, id: string, ips: set<string>): set<Edge> {
    set e | e in g.edges && e.dst.Peer? && e.dst.ip in ips && e.src != id
  }

  function Redirect(e: Edge, id: string): Edge { RoutesTo(e.src, e.protocol, Device(id)) }

  /** Redirect the parked edges to the device, drop the placeholders left bare. */
  function Reconcile(g: Graph, id: string, ips: set<string>): Graph {
    var parked := Parked(g, id, ips);
    var edges := (g.edges - parked) + set e | e in parked :: Redirect(e, id);
    var bare := set e | e in parked && (forall r :: r in edges ==> r.dst != e.dst) :: e.dst.ip;
    g.(edges := edges, peers := g.peers - bare)
  }

  function WithTopology(g: Graph, id: string, b: Baseline): Graph {
    var g0 := g.(devices := g.devices[id := b.props]);
    var g1 := WritePorts(g0, id, b.interfaces);
    var g2 := WriteNeighbors(g1, id, b.neighbors);
    Reconcile(g2, id, OwnIps(b.interfaces))
  }

  function Ingest(g: Graph, b: Baseline): Graph {
    if Truthy(b.id) then WithTopology(g, b.id.value, b) else g
  }

  function IngestAll(g: Graph, scans: seq<Baseline>): Graph {
    if scans == [] then g else Ingest(IngestAll(g, scans[..|scans| - 1]), scans[|scans| - 1])
  }

  // ------------------------------------------------------------- the stored graph

  class GraphStore {
    var devices: map<string, Props>
    var ports: map<(string, string), Port>
    var edges: set<Edge>
    var peers: set<string>

    ghost function State(): Graph
      reads this
    {
      Graph(devices, ports, edges, peers)
    }

    constructor ()
      ensures State() == EMPTY
    {
      devices, ports, edges, peers := map[], map[], {}, {};
    }

    method IngestBaseline(b: Baseline)
      modifies this
      ensures State() == Ingest(old(State()), b)
    {
      if b.id.None? || b.id.value == "" {
        return;
      }
      WriteTopology(b.id.value, b);
    }

    method WriteTopology(id: string, b: Baseline)
      modifies this
      ensures State() == WithTopology(old(State()), id, b)
    {
      devices := devices[id := b.props];
      var ownIps := WriteInterfaces(id, b.interfaces);
      WriteRoutes(id, b.neighbors);
      ghost var g2 := State();
      if ownIps != {} {
        var parked := set e | e in edges && e.dst.Peer? && e.dst.ip in ownIps && e.src != id;
        edges := (edges - parked) + set e | e in parked :: Redirect(e, id);
        peers := peers - set e | e in parked && (forall r :: r in edges ==> r.dst != e.dst) :: e.dst.ip;
      } else {
        assert Parked(g2, id, ownIps) == {};
      }
      assert State() == Reconcile(g2, id, ownIps);
    }

    /** The loop over the interfaces, and the addresses it collects. */
    method WriteInterfaces(id: string, interfaces: seq<Interface>) returns (ownIps: set<string>)
      modifies this`ports
      ensures State() == WritePorts(old(State()), id, interfaces) && ownIps == OwnIps(interfaces)
    {
      ownIps := {};
      for i := 0 to |interfaces|
        invariant State() == WritePorts(old(State()), id, interfaces[..i])
        invariant ownIps == OwnIps(interfaces[..i])
      {
        var f := interfaces[i];
        assert interfaces[..i + 1] == interfaces[..i] + [f];
        if Truthy(f.name) {
          if Truthy(f.ip) { ownIps := ownIps + {f.ip.value}; }
          ports := ports[(id, f.name.value) := Port(f.ip, f.description)];
        }
      }
      assert interfaces[..|interfaces|] == interfaces;
    }

    /** The loop over the neighbours. */
    method WriteRoutes(id: string, neighbors: seq<Neighbor>)
      modifies this`edges, this`peers
      ensures State() == WriteNeighbors(old(State()), id, neighbors)
    {
      for i := 0 to |neighbors|
        invariant State() == WriteNeighbors(old(State()), id, neighbors[..i])
      {
        var n := neighbors[i];
        assert neighbors[..i + 1] == neighbors[..i] + [n];
        if Truthy(n.ip) {
          var owners := set k | k in ports && ports[k].ip == Some(n.ip.value) :: k.0;
          if owners == {} {
            peers := peers + {n.ip.value};
            edges := edges + {RoutesTo(id, Protocol(n), Peer(n.ip.value))};
          } else {
            edges := edges + set o | o in owners :: RoutesTo(id, Protocol(n), Device(o));
          }
        }
      }
      assert neighbors[..|neighbors|] == neighbors;
    }
  }
}
