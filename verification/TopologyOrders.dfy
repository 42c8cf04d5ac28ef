/** When exactly the order of scans does not matter to the topology graph. */
module TopologyOrders {
  import opened Common
  import opened Topology
  import opened TopologyInvariant
  import opened TopologyConfluence

  /** Whatever the order and the repeats, scanning these devices gives one graph. */
  ghost predicate Confluent(fleet: Fleet, scanned: set<string>) {
    forall scans, others ::
      ScansOf(fleet, scans) && ScansOf(fleet, others) && Ids(scans) == scanned && Ids(others) == scanned
      ==> IngestAll(EMPTY, scans) == IngestAll(EMPTY, others)
  }

  // ------------------------------------------------------------------------- orders

  /** The sequence scans each of these devices once. */
  ghost predicate ScansOnce(fleet: Fleet, ids: set<string>, scans: seq<Baseline>) {
    ScansOf(fleet, scans) && Ids(scans) == ids && |scans| == |ids|
  }

  lemma OneMoreScan(fleet: Fleet, ids: set<string>, scans: seq<Baseline>, id: string)
    requires IsFleet(fleet) && id in fleet && id !in ids && ScansOnce(fleet, ids, scans)
    ensures ScansOnce(fleet, ids + {id}, scans + [fleet[id]])
    ensures ScansOnce(fleet, ids + {id}, [fleet[id]] + scans)
  {
    assert forall x :: x in scans + [fleet[id]] <==> x in scans || x == fleet[id];
    assert forall x :: x in [fleet[id]] + scans <==> x in scans || x == fleet[id];
    assert Ids(scans + [fleet[id]]) == ids + {id} && Ids([fleet[id]] + scans) == ids + {id};
  }

  lemma {:induction false} InSomeOrder(fleet: Fleet, ids: set<string>) returns (scans: seq<Baseline>)
    requires IsFleet(fleet) && ids <= fleet.Keys
    ensures ScansOnce(fleet, ids, scans)
    decreases |ids|
  {
    if ids == {} {
      scans := [];
    } else {
      var id :| id in ids;
      var before := InSomeOrder(fleet, ids - {id});
      OneMoreScan(fleet, ids - {id}, before, id);
      assert ids - {id} + {id} == ids;
      scans := before + [fleet[id]];
    }
  }

  lemma {:induction false} IngestAppend(g: Graph, scans: seq<Baseline>, more: seq<Baseline>)
    ensures IngestAll(g, scans + more) == IngestAll(IngestAll(g, scans), more)
  {
    if more == [] {
      assert scans + more == scans;
    } else {
      var n := |more| - 1;
      assert (scans + more)[..|scans| + n] == scans + more[..n];
      IngestAppend(g, scans, more[..n]);
    }
  }

  lemma IngestOne(g: Graph, b: Baseline)
    ensures IngestAll(g, [b]) == Ingest(g, b)
  {
    assert [b][..0] == [];
  }

  lemma ScansLast(fleet: Fleet, scanned: set<string>, before: seq<Baseline>, id: string)
    requires IsFleet(fleet) && id in fleet && id in scanned && ScansOnce(fleet, scanned - {id}, before)
    ensures ScansOnce(fleet, scanned, before + [fleet[id]])
    ensures IngestAll(EMPTY, before + [fleet[id]]) == Ingest(IngestAll(EMPTY, before), fleet[id])
  {
    OneMoreScan(fleet, scanned - {id}, before, id);
    assert scanned - {id} + {id} == scanned;
    IngestAppend(EMPTY, before, [fleet[id]]);
    IngestOne(IngestAll(EMPTY, before), fleet[id]);
  }

  /** The caller first, and everybody else but one. */
  lemma CallerFirst(fleet: Fleet, scanned: set<string>, a: string, b: string) returns (rest: seq<Baseline>)
    requires IsFleet(fleet) && scanned <= fleet.Keys && a in scanned && b in scanned && a != b
    ensures ScansOnce(fleet, scanned - {a, b}, rest) && ScansOnce(fleet, scanned - {b}, [fleet[a]] + rest)
  {
    rest := InSomeOrder(fleet, scanned - {a, b});
    OneMoreScan(fleet, scanned - {a, b}, rest, a);
    assert scanned - {a, b} + {a} == scanned - {b};
  }

  lemma TwoFirst(fleet: Fleet, scanned: set<string>, a: string, b: string) returns (rest: seq<Baseline>)
    requires IsFleet(fleet) && scanned <= fleet.Keys && a in scanned && b in scanned && a != b
    ensures ScansOf(fleet, rest) && ScansOnce(fleet, scanned, [fleet[a], fleet[b]] + rest)
  {
    rest := CallerFirst(fleet, scanned, b, a);
    OneMoreScan(fleet, scanned - {a}, [fleet[b]] + rest, a);
    assert scanned - {a} + {a} == scanned;
    Regrouped(fleet[a], fleet[b], rest);
  }

  lemma Regrouped<T>(x: T, y: T, rest: seq<T>)
    ensures [x] + ([y] + rest) == [x, y] + rest
  {
  }

  /** What a device's ingest asks the graph of the devices scanned before. */
  lemma OwnersThen(fleet: Fleet, before: seq<Baseline>, id: string)
    requires IsFleet(fleet) && ScansOf(fleet, before) && id in fleet
    ensures Ids(before) <= fleet.Keys
    ensures OwnersKeep(Named(IngestAll(EMPTY, before), id, fleet[id]), fleet, Ids(before) + {id})
  {
    var g := IngestAll(EMPTY, before);
    ScansReach(fleet, before);
    PortsGrow(g.(devices := g.devices[id := fleet[id].props]), fleet, Ids(before), id);
    PortsGiveOwners(Named(g, id, fleet[id]), fleet, Ids(before) + {id});
  }

  /** Scanned last, a caller routes to wherever its call aims then. */
  lemma LastAsks(fleet: Fleet, before: seq<Baseline>, a: string, protocol: string, ip: string, n: Node)
    requires IsFleet(fleet) && a in fleet && Calls(fleet[a], protocol, ip)
    requires Aims(Owners(Named(IngestAll(EMPTY, before), a, fleet[a]), ip), ip, n)
    ensures RoutesTo(a, protocol, n) in IngestAll(EMPTY, before + [fleet[a]]).edges
  {
    IngestAppend(EMPTY, before, [fleet[a]]);
    IngestOne(IngestAll(EMPTY, before), fleet[a]);
    OwnEdges(IngestAll(EMPTY, before), fleet[a], a, RoutesTo(a, protocol, n));
  }

  // --------------------------------------------------- listed by others, kept by nobody

  /** A call nobody keeps the address of: parked if the caller comes last, redirected if a
    * lister does. */
  lemma UnkeptDisagrees(fleet: Fleet, scanned: set<string>, a: string, b: string, protocol: string, ip: string)
    returns (scans: seq<Baseline>, others: seq<Baseline>)
    requires IsFleet(fleet) && scanned <= fleet.Keys && a in scanned && b in scanned && a != b
    requires Calls(fleet[a], protocol, ip) && Lists(fleet[b], ip) && !SomeKeeps(fleet, scanned, ip)
    ensures ScansOnce(fleet, scanned, scans) && ScansOnce(fleet, scanned, others)
    ensures IngestAll(EMPTY, scans) != IngestAll(EMPTY, others)
  {
    var parked := RoutesTo(a, protocol, Peer(ip));
    var before := InSomeOrder(fleet, scanned - {a});
    ScansLast(fleet, scanned, before, a);
    OwnersThen(fleet, before, a);
    assert scanned - {a} + {a} == scanned;
    CalledIsNotEmpty(fleet[a], protocol, ip);
    UnkeptIsUnowned(Named(IngestAll(EMPTY, before), a, fleet[a]), fleet, scanned, ip);
    LastAsks(fleet, before, a, protocol, ip, Peer(ip));
    scans := before + [fleet[a]];
    others := Redirected(fleet, scanned, b, parked);
    assert parked in IngestAll(EMPTY, scans).edges;
    assert parked !in IngestAll(EMPTY, others).edges;
  }

  lemma Redirected(fleet: Fleet, scanned: set<string>, b: string, parked: Edge) returns (scans: seq<Baseline>)
    requires IsFleet(fleet) && scanned <= fleet.Keys && b in scanned
    requires parked.src != b && parked.dst.Peer? && Lists(fleet[b], parked.dst.ip)
    ensures ScansOnce(fleet, scanned, scans) && parked !in IngestAll(EMPTY, scans).edges
  {
    var before := InSomeOrder(fleet, scanned - {b});
    ScansLast(fleet, scanned, before, b);
    OtherEdges(IngestAll(EMPTY, before), fleet[b], b, parked);
    scans := before + [fleet[b]];
  }

  // -------------------------------------------------- a device that may but need not answer

  lemma {:induction false} DeviceEdgesStay(fleet: Fleet, g: Graph, scans: seq<Baseline>, e: Edge)
    requires IsFleet(fleet) && ScansOf(fleet, scans) && e in g.edges && e.dst.Device?
    ensures e in IngestAll(g, scans).edges
  {
    if scans == [] {
    } else {
      var before, last := scans[..|scans| - 1], scans[|scans| - 1];
      assert last in scans && forall x :: x in before ==> x in scans;
      DeviceEdgesStay(fleet, g, before, e);
      if Truthy(last.id) {
        if e.src == last.id.value { OwnEdges(IngestAll(g, before), last, e.src, e); }
        else { OtherEdges(IngestAll(g, before), last, last.id.value, e); }
      }
    }
  }

  /** Scanned right after the caller, a lister answers. */
  lemma AnswersNext(fleet: Fleet, a: string, b: string, protocol: string, ip: string)
    requires IsFleet(fleet) && a in fleet && b in fleet && a != b
    requires Calls(fleet[a], protocol, ip) && !Keeps(fleet[a], ip) && Lists(fleet[b], ip)
    ensures RoutesTo(a, protocol, Device(b)) in IngestAll(EMPTY, [fleet[a], fleet[b]]).edges
  {
    var parked, g := RoutesTo(a, protocol, Peer(ip)), Ingest(EMPTY, fleet[a]);
    OwnersThen(fleet, [], a);
    assert Ids([]) + {a} == {a};
    CalledIsNotEmpty(fleet[a], protocol, ip);
    UnkeptIsUnowned(Named(IngestAll(EMPTY, []), a, fleet[a]), fleet, {a}, ip);
    LastAsks(fleet, [], a, protocol, ip, Peer(ip));
    assert [] + [fleet[a]] == [fleet[a]] && [fleet[a], fleet[b]] == [fleet[a]] + [fleet[b]];
    IngestOne(EMPTY, fleet[a]);
    IngestAppend(EMPTY, [fleet[a]], [fleet[b]]);
    IngestOne(g, fleet[b]);
    assert IsParked(g, fleet[b], parked);
    OtherEdges(g, fleet[b], b, RoutesTo(a, protocol, Device(b)));
  }

  lemma Answers(fleet: Fleet, scanned: set<string>, a: string, b: string, protocol: string, ip: string)
    returns (scans: seq<Baseline>)
    requires IsFleet(fleet) && scanned <= fleet.Keys && a in scanned && b in scanned && a != b
    requires Calls(fleet[a], protocol, ip) && MayAnswer(fleet[a], fleet[b], ip)
    ensures ScansOnce(fleet, scanned, scans)
    ensures RoutesTo(a, protocol, Device(b)) in IngestAll(EMPTY, scans).edges
  {
    if Keeps(fleet[a], ip) {
      scans := AnswersBefore(fleet, scanned, a, b, protocol, ip);
    } else {
      scans := AnswersAfter(fleet, scanned, a, b, protocol, ip);
    }
  }

  lemma AnswersBefore(fleet: Fleet, scanned: set<string>, a: string, b: string, protocol: string, ip: string)
    returns (scans: seq<Baseline>)
    requires IsFleet(fleet) && scanned <= fleet.Keys && a in scanned && b in scanned && a != b
    requires Calls(fleet[a], protocol, ip) && Keeps(fleet[b], ip)
    ensures ScansOnce(fleet, scanned, scans)
    ensures RoutesTo(a, protocol, Device(b)) in IngestAll(EMPTY, scans).edges
  {
    var before := InSomeOrder(fleet, scanned - {a});
    ScansLast(fleet, scanned, before, a);
    OwnersThen(fleet, before, a);
    assert scanned - {a} + {a} == scanned;
    assert b in Owners(Named(IngestAll(EMPTY, before), a, fleet[a]), ip);
    LastAsks(fleet, before, a, protocol, ip, Device(b));
    scans := before + [fleet[a]];
  }

  lemma AnswersAfter(fleet: Fleet, scanned: set<string>, a: string, b: string, protocol: string, ip: string)
    returns (scans: seq<Baseline>)
    requires IsFleet(fleet) && scanned <= fleet.Keys && a in scanned && b in scanned && a != b
    requires Calls(fleet[a], protocol, ip) && !Keeps(fleet[a], ip) && Lists(fleet[b], ip)
    ensures ScansOnce(fleet, scanned, scans)
    ensures RoutesTo(a, protocol, Device(b)) in IngestAll(EMPTY, scans).edges
  {
    var rest := TwoFirst(fleet, scanned, a, b);
    AnswersNext(fleet, a, b, protocol, ip);
    AnswerStays(fleet, [fleet[a], fleet[b]], rest, RoutesTo(a, protocol, Device(b)));
    scans := [fleet[a], fleet[b]] + rest;
  }

  lemma AnswerStays(fleet: Fleet, first: seq<Baseline>, rest: seq<Baseline>, e: Edge)
    requires IsFleet(fleet) && ScansOf(fleet, rest) && e in IngestAll(EMPTY, first).edges && e.dst.Device?
    ensures e in IngestAll(EMPTY, first + rest).edges
  {
    IngestAppend(EMPTY, first, rest);
    DeviceEdgesStay(fleet, IngestAll(EMPTY, first), rest, e);
  }

  /** No edge of a is parked on an address that one of these devices lists. */
  ghost predicate Unclaimed(g: Graph, fleet: Fleet, a: string, ids: set<string>) {
    forall r, c :: r in g.edges && r.src == a && r.dst.Peer? && c in ids * fleet.Keys ==> !Lists(fleet[c], r.dst.ip)
  }

  lemma {:induction false} ClaimedSince(fleet: Fleet, a: string, g: Graph, scans: seq<Baseline>)
    requires IsFleet(fleet) && ScansOf(fleet, scans) && a !in Ids(scans)
    ensures Unclaimed(IngestAll(g, scans), fleet, a, Ids(scans))
  {
    if scans == [] {
    } else {
      var before, last := scans[..|scans| - 1], scans[|scans| - 1];
      assert scans == before + [last] && last in scans;
      assert Ids(before) <= Ids(scans);
      ClaimedSince(fleet, a, g, before);
      if Truthy(last.id) {
        assert last.id.value in Ids(scans);
        ClaimedStep(fleet, a, IngestAll(g, before), Ids(before), last.id.value);
        assert Ids(scans) == Ids(before) + {last.id.value};
      } else {
        assert Ids(scans) == Ids(before);
      }
    }
  }

  lemma ClaimedStep(fleet: Fleet, a: string, g: Graph, ids: set<string>, id: string)
    requires IsFleet(fleet) && id in fleet && id != a && Unclaimed(g, fleet, a, ids)
    ensures Unclaimed(Ingest(g, fleet[id]), fleet, a, ids + {id})
  {
    forall r, c | r in Ingest(g, fleet[id]).edges && r.src == a && r.dst.Peer? && c in (ids + {id}) * fleet.Keys
      ensures !Lists(fleet[c], r.dst.ip)
    {
      OtherEdges(g, fleet[id], id, r);
    }
  }

  /** Scanned last and after everybody else but the caller, a device answers only what nobody
    * else can. */
  lemma Silent(fleet: Fleet, scanned: set<string>, a: string, b: string, protocol: string) returns (scans: seq<Baseline>)
    requires IsFleet(fleet) && scanned <= fleet.Keys && a in scanned && b in scanned && a != b
    requires !MustAnswer(fleet, scanned, a, protocol, b)
    ensures ScansOnce(fleet, scanned, scans)
    ensures RoutesTo(a, protocol, Device(b)) !in IngestAll(EMPTY, scans).edges
  {
    var rest := CallerFirst(fleet, scanned, a, b);
    var before := [fleet[a]] + rest;
    ScansLast(fleet, scanned, before, b);
    scans := before + [fleet[b]];
    ScansReach(fleet, before);
    Claimed(fleet, a, rest);
    StaysSilent(fleet, scanned, a, b, protocol, IngestAll(EMPTY, before));
  }

  lemma Claimed(fleet: Fleet, a: string, rest: seq<Baseline>)
    requires IsFleet(fleet) && a in fleet && ScansOf(fleet, rest) && a !in Ids(rest)
    ensures Unclaimed(IngestAll(EMPTY, [fleet[a]] + rest), fleet, a, Ids(rest))
  {
    IngestAppend(EMPTY, [fleet[a]], rest);
    ClaimedSince(fleet, a, IngestAll(EMPTY, [fleet[a]]), rest);
  }

  lemma StaysSilent(fleet: Fleet, scanned: set<string>, a: string, b: string, protocol: string, g: Graph)
    requires IsFleet(fleet) && scanned <= fleet.Keys && a in scanned && b in scanned && a != b
    requires !MustAnswer(fleet, scanned, a, protocol, b)
    requires EdgesReached(g, fleet, scanned - {b}) && Unclaimed(g, fleet, a, scanned - {a, b})
    ensures RoutesTo(a, protocol, Device(b)) !in Ingest(g, fleet[b]).edges
  {
    var e := RoutesTo(a, protocol, Device(b));
    OtherEdges(g, fleet[b], b, e);
    forall r | IsParked(g, fleet[b], r) && r.src == a ensures r.protocol != protocol {
      var ip :| Calls(fleet[a], r.protocol, ip) && PossibleEnd(fleet, scanned - {b}, a, ip, r.dst);
      assert OnlyLister(fleet, scanned, a, b, ip);
    }
    NotYet(fleet, scanned - {b}, g, e);
  }

  lemma NotYet(fleet: Fleet, scanned: set<string>, g: Graph, e: Edge)
    requires scanned <= fleet.Keys && EdgesReached(g, fleet, scanned)
    requires e.dst.Device? && e.dst.id !in scanned
    ensures e !in g.edges
  {
  }

  // ---------------------------------------------------------------------- main results

  /** Two orders of the same devices, each scanned once, with different graphs. */
  lemma OrdersDisagree(fleet: Fleet, scanned: set<string>) returns (scans: seq<Baseline>, others: seq<Baseline>)
    requires IsFleet(fleet) && scanned <= fleet.Keys && !IsSteady(fleet, scanned)
    ensures ScansOnce(fleet, scanned, scans) && ScansOnce(fleet, scanned, others)
    ensures IngestAll(EMPTY, scans) != IngestAll(EMPTY, others)
  {
    var a, protocol, ip :| a in scanned && Calls(fleet[a], protocol, ip)
      && !(&& (SomeLists(fleet, scanned, a, ip) ==> SomeKeeps(fleet, scanned, ip))
           && (forall b :: b in scanned && b != a && MayAnswer(fleet[a], fleet[b], ip) ==>
                 MustAnswer(fleet, scanned, a, protocol, b)));
    if SomeLists(fleet, scanned, a, ip) && !SomeKeeps(fleet, scanned, ip) {
      var b :| b in scanned && b != a && Lists(fleet[b], ip);
      scans, others := UnkeptDisagrees(fleet, scanned, a, b, protocol, ip);
    } else {
      var b :| b in scanned && b != a && MayAnswer(fleet[a], fleet[b], ip) && !MustAnswer(fleet, scanned, a, protocol, b);
      scans := Answers(fleet, scanned, a, b, protocol, ip);
      others := Silent(fleet, scanned, a, b, protocol);
    }
  }

  /** Scan order is irrelevant exactly if every call is steady. */
  lemma ConfluentExactly(fleet: Fleet, scanned: set<string>)
    requires IsFleet(fleet) && scanned <= fleet.Keys
    ensures Confluent(fleet, scanned) <==> IsSteady(fleet, scanned)
  {
    if IsSteady(fleet, scanned) {
      forall scans, others | ScansOf(fleet, scans) && ScansOf(fleet, others) && Ids(scans) == scanned && Ids(others) == scanned
        ensures IngestAll(EMPTY, scans) == IngestAll(EMPTY, others)
      {
        ArrivalOrderIsIrrelevant(fleet, scans, others);
      }
    } else {
      var scans, others := OrdersDisagree(fleet, scanned);
    }
  }

  // ------------------------------------------------------------ simpler conditions

  ghost predicate Disjoint(fleet: Fleet, scanned: set<string>) {
    forall a, b, ip :: a in scanned * fleet.Keys && b in scanned * fleet.Keys && Lists(fleet[a], ip) && Lists(fleet[b], ip) ==>
      a == b
  }

  /** An address the device lists, but only under names it reuses further down. */
  ghost predicate Drops(b: Baseline, ip: string) { Lists(b, ip) && !Keeps(b, ip) }

  /** No scanned device routes to an address that another scanned device drops. */
  ghost predicate NoneIsDropped(fleet: Fleet, scanned: set<string>) {
    forall a, b, protocol, ip ::
      a in scanned * fleet.Keys && b in scanned * fleet.Keys && a != b && Calls(fleet[a], protocol, ip) ==>
        !Drops(fleet[b], ip)
  }

  /** If no two of them share an address, that is all there is to it. */
  lemma DisjointIsSteadyExactly(fleet: Fleet, scanned: set<string>)
    requires IsFleet(fleet) && scanned <= fleet.Keys && Disjoint(fleet, scanned)
    ensures IsSteady(fleet, scanned) <==> NoneIsDropped(fleet, scanned)
  {
    if NoneIsDropped(fleet, scanned) {
      forall a, protocol, ip | a in scanned && Calls(fleet[a], protocol, ip)
        ensures SomeLists(fleet, scanned, a, ip) ==> SomeKeeps(fleet, scanned, ip)
        ensures forall b :: b in scanned && b != a && MayAnswer(fleet[a], fleet[b], ip) ==>
                  MustAnswer(fleet, scanned, a, protocol, b)
      {
        CalledIsNotEmpty(fleet[a], protocol, ip);
        forall b | b in scanned && b != a && Lists(fleet[b], ip)
          ensures Keeps(fleet[b], ip) && MustAnswer(fleet, scanned, a, protocol, b)
        {
          if Keeps(fleet[a], ip) { KeptIsListed(fleet[a], ip); }
          assert !Drops(fleet[b], ip) && OnlyLister(fleet, scanned, a, b, ip);
        }
      }
    }
    if IsSteady(fleet, scanned) {
      forall a, b, protocol, ip | a in scanned && b in scanned && a != b && Calls(fleet[a], protocol, ip)
        ensures !Drops(fleet[b], ip)
      {
        CalledIsNotEmpty(fleet[a], protocol, ip);
        if Lists(fleet[b], ip) {
          assert SomeLists(fleet, scanned, a, ip);
          var c :| c in scanned && Keeps(fleet[c], ip);
          KeptIsListed(fleet[c], ip);
        }
      }
    }
  }

  /** A called address has one owner: the caller and nobody else keeps it, or at most one other
    * device lists it, and that one keeps it. */
  ghost predicate OneOwner(fleet: Fleet, scanned: set<string>, a: string, ip: string)
    requires scanned <= fleet.Keys && a in fleet
  {
    forall b :: b in scanned && b != a && Lists(fleet[b], ip) ==>
      if Keeps(fleet[a], ip) then !Keeps(fleet[b], ip)
      else Keeps(fleet[b], ip) && OnlyLister(fleet, scanned, a, b, ip)
  }

  /** That is enough. */
  lemma OneOwnerIsSteady(fleet: Fleet, scanned: set<string>)
    requires IsFleet(fleet) && scanned <= fleet.Keys
    requires forall a, protocol, ip :: a in scanned && Calls(fleet[a], protocol, ip) ==> OneOwner(fleet, scanned, a, ip)
    ensures IsSteady(fleet, scanned)
  {
    forall a, protocol, ip | a in scanned && Calls(fleet[a], protocol, ip)
      ensures SomeLists(fleet, scanned, a, ip) ==> SomeKeeps(fleet, scanned, ip)
      ensures forall b :: b in scanned && b != a && MayAnswer(fleet[a], fleet[b], ip) ==>
                MustAnswer(fleet, scanned, a, protocol, b)
    {
      assert OneOwner(fleet, scanned, a, ip);
    }
  }

  /** For a caller whose calls of a protocol are all for one address, it is also needed. */
  lemma OneCallNeedsOneOwner(fleet: Fleet, scanned: set<string>, a: string, protocol: string, ip: string)
    requires IsFleet(fleet) && scanned <= fleet.Keys && a in scanned
    requires forall other :: Calls(fleet[a], protocol, other) <==> other == ip
    requires IsSteady(fleet, scanned)
    ensures OneOwner(fleet, scanned, a, ip)
  {
    forall b | b in scanned && b != a && Lists(fleet[b], ip)
      ensures if Keeps(fleet[a], ip) then !Keeps(fleet[b], ip)
              else Keeps(fleet[b], ip) && OnlyLister(fleet, scanned, a, b, ip)
    {
      CalledIsNotEmpty(fleet[a], protocol, ip);
      if MayAnswer(fleet[a], fleet[b], ip) {
        assert MustAnswer(fleet, scanned, a, protocol, b);
        assert SomeLists(fleet, scanned, a, ip);
        var c :| c in scanned && Keeps(fleet[c], ip);
        KeptIsListed(fleet[c], ip);
      }
    }
  }
}
