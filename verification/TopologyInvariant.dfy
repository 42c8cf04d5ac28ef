/** What every reachable topology graph satisfies, whatever was ingested. */
module TopologyInvariant {
  import opened Common
  import opened Topology

  /** No scanned device other than the caller itself owns a parked address. */
  ghost predicate ParkedIsUnowned(g: Graph) {
    forall e, o :: e in g.edges && e.dst.Peer? && o in Owners(g, e.dst.ip) ==> o == e.src
  }

  /** Placeholders are exactly the parked targets: none dangles. */
  ghost predicate PeersAreTargets(g: Graph) {
    && (forall ip :: ip in g.peers ==> exists e :: e in g.edges && e.dst == Peer(ip))
    && (forall e :: e in g.edges && e.dst.Peer? ==> e.dst.ip in g.peers && e.dst.ip != "")
  }

  ghost predicate NodesExist(g: Graph) {
    && (forall e :: e in g.edges ==> e.src in g.devices)
    && (forall e :: e in g.edges && e.dst.Device? ==> e.dst.id in g.devices)
    && (forall k :: k in g.ports ==> k.0 in g.devices)
  }

  ghost predicate Inv(g: Graph) {
    ParkedIsUnowned(g) && PeersAreTargets(g) && NodesExist(g)
  }

  /** While a device is being written, its own parked addresses wait in `ips`. */
  ghost predicate MidInv(g: Graph, id: string, ips: set<string>) {
    && id in g.devices && PeersAreTargets(g) && NodesExist(g)
    && (forall e, o :: e in g.edges && e.dst.Peer? && o in Owners(g, e.dst.ip) ==>
          o == e.src || (o == id && e.dst.ip in ips))
  }

  lemma WritePortOwners(g: Graph, id: string, f: Interface, ip: string)
    ensures forall o :: o in Owners(WritePort(g, id, f), ip) ==>
              o in Owners(g, ip) || (o == id && Truthy(f.name) && f.ip == Some(ip))
  {
    var g' := WritePort(g, id, f);
    forall o | o in Owners(g', ip) ensures o in Owners(g, ip) || (o == id && Truthy(f.name) && f.ip == Some(ip)) {
      var k :| k in g'.ports && g'.ports[k].ip == Some(ip) && k.0 == o;
      if k in g.ports && g.ports[k] == g'.ports[k] { assert o in Owners(g, ip); }
    }
  }

  lemma {:induction false} WritePortsFrame(g: Graph, id: string, interfaces: seq<Interface>)
    ensures var g' := WritePorts(g, id, interfaces); g'.devices == g.devices && g'.edges == g.edges && g'.peers == g.peers
    ensures forall k :: k in WritePorts(g, id, interfaces).ports ==> k in g.ports || k.0 == id
  {
    if interfaces == [] {
    } else {
      WritePortsFrame(g, id, interfaces[..|interfaces| - 1]);
    }
  }

  lemma {:induction false} WritePortsOwners(g: Graph, id: string, interfaces: seq<Interface>, ip: string)
    requires ip != ""
    ensures forall o :: o in Owners(WritePorts(g, id, interfaces), ip) ==>
              o in Owners(g, ip) || (o == id && ip in OwnIps(interfaces))
  {
    if interfaces == [] {
    } else {
      var before, f := interfaces[..|interfaces| - 1], interfaces[|interfaces| - 1];
      assert interfaces == before + [f];
      WritePortsOwners(g, id, before, ip);
      WritePortOwners(WritePorts(g, id, before), id, f, ip);
      assert OwnIps(before) <= OwnIps(interfaces);
      assert Truthy(f.name) && f.ip == Some(ip) ==> ip in OwnIps(interfaces);
    }
  }

  lemma WriteNeighborKeeps(g: Graph, id: string, ips: set<string>, n: Neighbor)
    requires MidInv(g, id, ips)
    ensures MidInv(WriteNeighbor(g, id, n), id, ips)
  {
    var g' := WriteNeighbor(g, id, n);
    assert forall ip :: Owners(g', ip) == Owners(g, ip);
    if Truthy(n.ip) && Owners(g, n.ip.value) == {} {
      assert RoutesTo(id, Protocol(n), Peer(n.ip.value)) in g'.edges;
    } else if Truthy(n.ip) {
      forall o | o in Owners(g, n.ip.value) ensures o in g.devices {}
    }
    forall ip | ip in g'.peers ensures exists e :: e in g'.edges && e.dst == Peer(ip) {
      if ip in g.peers {
        var e :| e in g.edges && e.dst == Peer(ip);
        assert e in g'.edges;
      }
    }
  }

  lemma {:induction false} WriteNeighborsKeep(g: Graph, id: string, ips: set<string>, neighbors: seq<Neighbor>)
    requires MidInv(g, id, ips)
    ensures MidInv(WriteNeighbors(g, id, neighbors), id, ips)
  {
    if neighbors == [] {
    } else {
      WriteNeighborsKeep(g, id, ips, neighbors[..|neighbors| - 1]);
      WriteNeighborKeeps(WriteNeighbors(g, id, neighbors[..|neighbors| - 1]), id, ips, neighbors[|neighbors| - 1]);
    }
  }

  lemma ReconcileEdges(g: Graph, id: string, ips: set<string>, e: Edge)
    ensures e in Reconcile(g, id, ips).edges <==>
              || (e in g.edges && !(e.dst.Peer? && e.dst.ip in ips && e.src != id))
              || (e.dst == Device(id) && exists r :: r in Parked(g, id, ips) && r.src == e.src && r.protocol == e.protocol)
  {
    var parked := Parked(g, id, ips);
    if r :| r in parked && r.src == e.src && r.protocol == e.protocol && e.dst == Device(id) {
      assert e == Redirect(r, id);
    }
  }

  lemma ReconcilePeers(g: Graph, id: string, ips: set<string>, ip: string)
    requires PeersAreTargets(g)
    ensures ip in Reconcile(g, id, ips).peers <==> exists e :: e in Reconcile(g, id, ips).edges && e.dst == Peer(ip)
  {
    var g' := Reconcile(g, id, ips);
    var parked := Parked(g, id, ips);
    if ip in g'.peers {
      var e :| e in g.edges && e.dst == Peer(ip);
      if e in parked {
        assert exists r :: r in g'.edges && r.dst == e.dst;
      } else {
        assert e in g'.edges;
      }
    }
  }

  lemma ReconcileRestores(g: Graph, id: string, ips: set<string>)
    requires MidInv(g, id, ips)
    ensures Inv(Reconcile(g, id, ips))
  {
    var g' := Reconcile(g, id, ips);
    assert forall ip :: Owners(g', ip) == Owners(g, ip);
    forall e | e in g'.edges
      ensures e.src in g'.devices && (e.dst.Device? ==> e.dst.id in g'.devices)
      ensures e.dst.Peer? ==> e.dst.ip in g'.peers && e.dst.ip != ""
      ensures e.dst.Peer? ==> forall o :: o in Owners(g', e.dst.ip) ==> o == e.src
    {
      ReconcileEdges(g, id, ips, e);
      if e.dst.Peer? { ReconcilePeers(g, id, ips, e.dst.ip); }
    }
    forall ip | ip in g'.peers ensures exists e :: e in g'.edges && e.dst == Peer(ip) {
      ReconcilePeers(g, id, ips, ip);
    }
  }

  lemma IngestKeepsInv(g: Graph, b: Baseline)
    requires Inv(g)
    ensures Inv(Ingest(g, b))
  {
    if Truthy(b.id) {
      var id, ips := b.id.value, OwnIps(b.interfaces);
      var g0 := g.(devices := g.devices[id := b.props]);
      var g1 := WritePorts(g0, id, b.interfaces);
      WritePortsFrame(g0, id, b.interfaces);
      forall e, o | e in g1.edges && e.dst.Peer? && o in Owners(g1, e.dst.ip)
        ensures o == e.src || (o == id && e.dst.ip in ips)
      {
        WritePortsOwners(g0, id, b.interfaces, e.dst.ip);
        assert Owners(g0, e.dst.ip) == Owners(g, e.dst.ip);
      }
      WriteNeighborsKeep(g1, id, ips, b.neighbors);
      ReconcileRestores(WriteNeighbors(g1, id, b.neighbors), id, ips);
    }
  }

  /** The placeholder invariant of every reachable graph, for any baselines. */
  lemma {:induction false} PlaceholderInvariant(scans: seq<Baseline>)
    ensures Inv(IngestAll(EMPTY, scans))
  {
    if scans == [] {
    } else {
      PlaceholderInvariant(scans[..|scans| - 1]);
      IngestKeepsInv(IngestAll(EMPTY, scans[..|scans| - 1]), scans[|scans| - 1]);
    }
  }
}
