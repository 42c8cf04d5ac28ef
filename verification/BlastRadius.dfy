/** Which devices a failing device can reach, and how ingestion changes that. */
module BlastRadius {
  import opened Topology
  import opened TopologyInvariant

  /** Every node within k steps of u, edges taken in either direction. */
  function Within(g: Graph, u: Node, k: nat): set<Node> {
    if k == 0 then {u}
    else
      var near := Within(g, u, k - 1);
      near + (set e | e in g.edges && Device(e.src) in near :: e.dst)
           + (set e | e in g.edges && e.dst in near :: Device(e.src))
  }

  /** The devices the query returns (sorted there, a set here). */
  function BlastRadius(g: Graph, id: string, maxHops: nat): set<string> {
    if id in g.devices then
      set n | n in Within(g, Device(id), maxHops) && n.Device? && n.id in g.devices && n.id != id :: n.id
    else {}
  }

  // --------------------------------------------------- the reference: paths

  ghost predicate Joins(e: Edge, u: Node, v: Node) {
    (Device(e.src) == u && e.dst == v) || (Device(e.src) == v && e.dst == u)
  }

  ghost predicate Adjacent(g: Graph, u: Node, v: Node) {
    exists e :: e in g.edges && Joins(e, u, v)
  }

  /** A path through the graph: its nodes, with consecutive ones adjacent. */
  ghost predicate IsWalk(g: Graph, w: seq<Node>) {
    w != [] && forall i :: 0 <= i < |w| - 1 ==> Adjacent(g, w[i], w[i + 1])
  }

  ghost predicate Distinct(w: seq<Node>) {
    forall i, j :: 0 <= i < j < |w| ==> w[i] != w[j]
  }

  /** A pattern match of the query: a trail of at most k relationships.  A match
    * never uses a relationship twice; visiting no node twice implies that. */
  ghost predicate Connects(g: Graph, w: seq<Node>, u: Node, v: Node, k: nat) {
    IsWalk(g, w) && w[0] == u && w[|w| - 1] == v && |w| <= k + 1
  }

  lemma WithinStep(g: Graph, u: Node, k: nat, v: Node)
    ensures v in Within(g, u, k + 1) <==>
              v in Within(g, u, k) || exists x :: x in Within(g, u, k) && Adjacent(g, x, v)
  {
    var near := Within(g, u, k);
    if x :| x in near && Adjacent(g, x, v) {
      var e :| e in g.edges && Joins(e, x, v);
    }
  }

  lemma {:induction false} WalkIsWithin(g: Graph, w: seq<Node>, k: nat)
    requires IsWalk(g, w) && |w| <= k + 1
    ensures w[|w| - 1] in Within(g, w[0], k)
    decreases k
  {
    if k > 0 {
      if |w| == k + 1 {
        var shorter := w[..|w| - 1];
        forall i | 0 <= i < |shorter| - 1 ensures Adjacent(g, shorter[i], shorter[i + 1]) {
          assert Adjacent(g, w[i], w[i + 1]);
        }
        WalkIsWithin(g, shorter, k - 1);
        assert Adjacent(g, shorter[|shorter| - 1], w[|w| - 1]);
      } else {
        WalkIsWithin(g, w, k - 1);
      }
      WithinStep(g, w[0], k - 1, w[|w| - 1]);
    }
  }

  /** A shortest connection: any node within k steps is reached by a path that
    * visits no node twice. */
  lemma {:induction false} WithinIsPath(g: Graph, u: Node, v: Node, k: nat) returns (w: seq<Node>)
    requires v in Within(g, u, k)
    ensures Connects(g, w, u, v, k) && Distinct(w)
    ensures forall i :: 0 <= i < |w| ==> w[i] in Within(g, u, k)
    decreases k
  {
    if k == 0 {
      w := [u];
    } else if v in Within(g, u, k - 1) {
      w := WithinIsPath(g, u, v, k - 1);
    } else {
      WithinStep(g, u, k - 1, v);
      var x :| x in Within(g, u, k - 1) && Adjacent(g, x, v);
      var p := WithinIsPath(g, u, x, k - 1);
      w := p + [v];
      forall i | 0 <= i < |w| - 1 ensures Adjacent(g, w[i], w[i + 1]) {
        if i < |p| - 1 { assert Adjacent(g, p[i], p[i + 1]); }
      }
    }
  }

  /** The query returns exactly the other devices joined to the source by a path
    * of one to maxHops relationships that repeats no node. */
  lemma QueryFindsPaths(g: Graph, id: string, maxHops: nat, d: string)
    ensures d in BlastRadius(g, id, maxHops) <==>
              && id in g.devices && d in g.devices && d != id
              && exists w :: Connects(g, w, Device(id), Device(d), maxHops) && Distinct(w)
  {
    if d in BlastRadius(g, id, maxHops) {
      var w := WithinIsPath(g, Device(id), Device(d), maxHops);
    }
    if w :| Connects(g, w, Device(id), Device(d), maxHops) && Distinct(w) {
      WalkIsWithin(g, w, maxHops);
    }
  }

  lemma AdjacentIsSymmetric(g: Graph, u: Node, v: Node)
    requires Adjacent(g, u, v)
    ensures Adjacent(g, v, u)
  {
    var e :| e in g.edges && Joins(e, u, v);
    assert Joins(e, v, u);
  }

  /** Blast radius is mutual, grows with the hop limit, and leaves out the source. */
  lemma BlastRadiusIsMutual(g: Graph, a: string, b: string, k: nat, more: nat)
    requires k <= more
    ensures a in BlastRadius(g, b, k) <==> b in BlastRadius(g, a, k)
    ensures BlastRadius(g, a, k) <= BlastRadius(g, a, more)
    ensures a !in BlastRadius(g, a, k)
  {
    if b in BlastRadius(g, a, k) { BlastRadiusTurnsRound(g, a, b, k); }
    if a in BlastRadius(g, b, k) { BlastRadiusTurnsRound(g, b, a, k); }
    WithinGrows(g, Device(a), k, more);
  }

  lemma BlastRadiusTurnsRound(g: Graph, a: string, b: string, k: nat)
    requires b in BlastRadius(g, a, k)
    ensures a in BlastRadius(g, b, k)
  {
    var w := WithinIsPath(g, Device(a), Device(b), k);
    var r := seq(|w|, i requires 0 <= i < |w| => w[|w| - 1 - i]);
    forall i | 0 <= i < |r| - 1 ensures Adjacent(g, r[i], r[i + 1]) {
      assert Adjacent(g, w[|w| - 2 - i], w[|w| - 2 - i + 1]);
      AdjacentIsSymmetric(g, w[|w| - 2 - i], w[|w| - 1 - i]);
    }
    WalkIsWithin(g, r, k);
  }

  lemma {:induction false} WithinGrows(g: Graph, u: Node, k: nat, more: nat)
    requires k <= more
    ensures Within(g, u, k) <= Within(g, u, more)
    decreases more
  {
    if k < more { WithinGrows(g, u, k, more - 1); }
  }

  // ------------------------------------------------- ingestion keeps connections

  /** Where a node of the old graph is found after `id` claimed these addresses. */
  function Moved(n: Node, id: string, ips: set<string>): Node {
    if n.Peer? && n.ip in ips then Device(id) else n
  }

  /** Every old edge survives, possibly shrunk to a point. */
  ghost predicate Follows(g: Graph, g': Graph, id: string, ips: set<string>) {
    forall e :: e in g.edges ==>
      || Moved(e.dst, id, ips) == Device(e.src)
      || Adjacent(g', Device(e.src), Moved(e.dst, id, ips))
  }

  lemma AdjacentFollows(g: Graph, g': Graph, id: string, ips: set<string>, u: Node, v: Node)
    requires Follows(g, g', id, ips) && Adjacent(g, u, v)
    ensures Moved(u, id, ips) == Moved(v, id, ips) || Adjacent(g', Moved(u, id, ips), Moved(v, id, ips))
  {
    var e :| e in g.edges && Joins(e, u, v);
    if Moved(e.dst, id, ips) != Device(e.src) {
      AdjacentIsSymmetric(g', Device(e.src), Moved(e.dst, id, ips));
    }
  }

  lemma StepFollows(g: Graph, g': Graph, id: string, ips: set<string>, m: Node, x: Node, v: Node, k: nat)
    requires Follows(g, g', id, ips) && Adjacent(g, x, v)
    requires Moved(x, id, ips) in Within(g', m, k)
    ensures Moved(v, id, ips) in Within(g', m, k + 1)
  {
    AdjacentFollows(g, g', id, ips, x, v);
    WithinStep(g', m, k, Moved(v, id, ips));
  }

  /** A walk of the old graph maps into no more steps of the new one. */
  lemma {:induction false} WalkFollows(g: Graph, g': Graph, id: string, ips: set<string>, w: seq<Node>, n: nat)
    requires Follows(g, g', id, ips) && IsWalk(g, w) && n < |w|
    ensures Moved(w[n], id, ips) in Within(g', Moved(w[0], id, ips), n)
  {
    if n > 0 {
      WalkFollows(g, g', id, ips, w, n - 1);
      assert Adjacent(g, w[n - 1], w[n - 1 + 1]);
      StepFollows(g, g', id, ips, Moved(w[0], id, ips), w[n - 1], w[n], n - 1);
    }
  }

  lemma {:induction false} WriteNeighborsGrow(g: Graph, id: string, neighbors: seq<Neighbor>)
    ensures g.edges <= WriteNeighbors(g, id, neighbors).edges
    ensures WriteNeighbors(g, id, neighbors).devices == g.devices
    ensures WriteNeighbors(g, id, neighbors).ports == g.ports
  {
    if neighbors == [] {
    } else {
      WriteNeighborsGrow(g, id, neighbors[..|neighbors| - 1]);
    }
  }

  lemma IngestFollows(g: Graph, b: Baseline)
    requires Truthy(b.id)
    ensures Follows(g, Ingest(g, b), b.id.value, OwnIps(b.interfaces))
    ensures forall d :: d in g.devices ==> d in Ingest(g, b).devices
  {
    var id, ips := b.id.value, OwnIps(b.interfaces);
    var g0 := g.(devices := g.devices[id := b.props]);
    var g1 := WritePorts(g0, id, b.interfaces);
    var g2 := WriteNeighbors(g1, id, b.neighbors);
    var g' := Ingest(g, b);
    WritePortsFrame(g0, id, b.interfaces);
    WriteNeighborsGrow(g1, id, b.neighbors);
    forall e | e in g.edges
      ensures Moved(e.dst, id, ips) == Device(e.src) || Adjacent(g', Device(e.src), Moved(e.dst, id, ips))
    {
      if e in Parked(g2, id, ips) {
        ReconcileEdges(g2, id, ips, Redirect(e, id));
        assert Joins(Redirect(e, id), Device(e.src), Device(id));
      } else {
        ReconcileEdges(g2, id, ips, e);
        assert Joins(e, Device(e.src), e.dst);
      }
    }
  }

  /** Ingesting any device, with any facts, into any graph never removes a device
    * from another's blast radius. */
  lemma BlastRadiusOnlyGrows(g: Graph, b: Baseline, a: string, k: nat)
    ensures BlastRadius(g, a, k) <= BlastRadius(Ingest(g, b), a, k)
  {
    if Truthy(b.id) {
      var id, ips := b.id.value, OwnIps(b.interfaces);
      IngestFollows(g, b);
      forall d | d in BlastRadius(g, a, k) ensures d in BlastRadius(Ingest(g, b), a, k) {
        var w := WithinIsPath(g, Device(a), Device(d), k);
        WalkFollows(g, Ingest(g, b), id, ips, w, |w| - 1);
        WithinGrows(Ingest(g, b), Device(a), |w| - 1, k);
      }
    }
  }
}
