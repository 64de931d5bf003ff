/**
 Loop freedom of DSDV routing over every run (gossiper/DSDV.go). The order of the two updates in
 `rumorListenRoutine` carries the proof: whoever passes a rumor on has taken its route first.
 */
module Dsdv {
  import opened Words
  import opened Messages
  import opened Routing
  import opened Gossip

  // ---------------------------------------------------------------- the invariant

  /** `a` is the origin `o`, or its route to `o` is at least as recent as `id`. */
  ghost predicate Heard(s: State, a: Address, o: string, id: uint32) {
    && a in s.nodes
    && (s.nodes[a].name == o || (o in s.nodes[a].routes && s.nodes[a].routes[o].seqNum >= id))
  }

  ghost predicate Stamped(s: State, a: Address, o: string) {
    (a, o) in s.adopted && s.adopted[(a, o)] < s.clock
  }

  /** `h` is the origin, or knows a later sequence number than `a`, or took over the same
      sequence number strictly earlier. */
  ghost predicate Closer(s: State, o: string, a: Address, h: Address)
    requires a in s.nodes && o in s.nodes[a].routes
  {
    && h in s.nodes
    && (s.nodes[h].name == o
        || (&& o in s.nodes[h].routes && Stamped(s, h, o) && Stamped(s, a, o)
            && var mine, theirs := s.nodes[a].routes[o].seqNum, s.nodes[h].routes[o].seqNum;
            (theirs > mine || (theirs == mine && s.adopted[(h, o)] < s.adopted[(a, o)]))))
  }

  ghost predicate NodeInv(s: State, a: Address)
    requires a in s.nodes
  {
    var n := s.nodes[a];
    && n.name !in n.routes
    && (forall o | o in n.routes :: Stamped(s, a, o) && Closer(s, o, a, n.routes[o].hop))
    && (forall r | r in n.mongering :: Heard(s, a, r.origin, r.id))
    && (n.handling.Some? ==> Heard(s, a, n.handling.value.1.origin, n.handling.value.1.id))
    && (forall o, i | o in n.msgs && i in n.msgs[o] ::
          n.msgs[o][i].origin == o && n.msgs[o][i].id == i && Heard(s, a, o, i))
  }

  ghost predicate RouteInv(s: State) {
    && (forall a | a in s.nodes :: NodeInv(s, a))
    && (forall p | p in s.net && p.RumorPacket? :: Heard(s, p.src, p.rumor.origin, p.rumor.id))
  }

  // ---------------------------------------------------------------- preservation

  /** The routes of `a` are kept or replaced by strictly more recent ones. */
  ghost predicate GrowsAt(s: State, t: State, a: Address)
    requires a in s.nodes && a in t.nodes
  {
    && t.nodes[a].name == s.nodes[a].name
    && (forall o | o in s.nodes[a].routes && Stamped(s, a, o) ::
          && o in t.nodes[a].routes && Stamped(t, a, o)
          && (t.nodes[a].routes[o].seqNum > s.nodes[a].routes[o].seqNum || Same(s, t, a, o)))
  }

  ghost predicate Same(s: State, t: State, a: Address, o: string) {
    && a in s.nodes && a in t.nodes && o in s.nodes[a].routes && o in t.nodes[a].routes
    && (a, o) in s.adopted && (a, o) in t.adopted
    && t.nodes[a].routes[o] == s.nodes[a].routes[o] && t.adopted[(a, o)] == s.adopted[(a, o)]
  }

  ghost predicate Grows(s: State, t: State) {
    t.nodes.Keys == s.nodes.Keys && t.clock > s.clock && forall a | a in s.nodes :: GrowsAt(s, t, a)
  }

  lemma StepGrows(s: State, e: Event)
    requires Enabled(s, e)
    ensures Grows(s, Apply(s, e))
  {
    var t := Apply(s, e);
    forall a | a in s.nodes ensures GrowsAt(s, t, a) {
      if e.RumorArrives? {
        RumorGrows(s, e, a);
      }
    }
  }

  lemma RumorGrows(s: State, e: Event, a: Address)
    requires Enabled(s, e) && e.RumorArrives? && a in s.nodes
    ensures a in Apply(s, e).nodes && GrowsAt(s, Apply(s, e), a)
  {}

  lemma HeardKept(s: State, t: State, a: Address, o: string, id: uint32)
    requires RouteInv(s) && Grows(s, t) && Heard(s, a, o, id)
    ensures Heard(t, a, o, id)
  {}

  lemma CloserGrows(s: State, t: State, a: Address, o: string, h: Address)
    requires Grows(s, t) && Same(s, t, a, o)
    requires Stamped(s, a, o) && Closer(s, o, a, h)
    requires h in s.nodes && (s.nodes[h].name != o ==> Stamped(s, h, o))
    ensures Stamped(t, a, o) && Closer(t, o, a, h)
  {}

  /** An untouched route keeps leading to a node that is closer. */
  lemma CloserKept(s: State, t: State, a: Address, o: string)
    requires RouteInv(s) && Grows(s, t)
    requires Same(s, t, a, o)
    ensures Stamped(t, a, o) && Closer(t, o, a, t.nodes[a].routes[o].hop)
  {
    var h := s.nodes[a].routes[o].hop;
    assert NodeInv(s, a);
    assert NodeInv(s, h);
    CloserGrows(s, t, a, o, h);
  }

  /** The routes of a node after a step: each is unchanged or leads to a closer node. */
  ghost predicate RoutesKept(s: State, t: State, a: Address)
    requires a in s.nodes && a in t.nodes
  {
    forall o | o in t.nodes[a].routes ::
      Same(s, t, a, o) || (o != t.nodes[a].name && Stamped(t, a, o) && Closer(t, o, a, t.nodes[a].routes[o].hop))
  }

  ghost predicate RumorsKept(s: State, t: State, a: Address)
    requires a in s.nodes && a in t.nodes
  {
    var m, n := s.nodes[a], t.nodes[a];
    && (forall r | r in n.mongering :: r in m.mongering || Heard(t, a, r.origin, r.id))
    && (n.handling.Some? ==> n.handling == m.handling || Heard(t, a, n.handling.value.1.origin, n.handling.value.1.id))
    && (forall o, i | o in n.msgs && i in n.msgs[o] ::
          || (o in m.msgs && i in m.msgs[o] && n.msgs[o][i] == m.msgs[o][i])
          || (n.msgs[o][i].origin == o && n.msgs[o][i].id == i && Heard(t, a, o, i)))
  }

  lemma NodeKept(s: State, t: State, a: Address)
    requires RouteInv(s) && Grows(s, t) && a in s.nodes
    requires RoutesKept(s, t, a) && RumorsKept(s, t, a)
    ensures NodeInv(t, a)
  {
    assert NodeInv(s, a) && GrowsAt(s, t, a);
    var n := t.nodes[a];
    forall o | o in n.routes ensures o != n.name && Stamped(t, a, o) && Closer(t, o, a, n.routes[o].hop) {
      if Same(s, t, a, o) { CloserKept(s, t, a, o); }
    }
    if n.handling.Some? && n.handling == s.nodes[a].handling {
      HeardKept(s, t, a, n.handling.value.1.origin, n.handling.value.1.id);
    }
    forall r | r in n.mongering ensures Heard(t, a, r.origin, r.id) {
      if r in s.nodes[a].mongering { HeardKept(s, t, a, r.origin, r.id); }
    }
    forall o, i | o in n.msgs && i in n.msgs[o]
      ensures n.msgs[o][i].origin == o && n.msgs[o][i].id == i && Heard(t, a, o, i)
    {
      if o in s.nodes[a].msgs && i in s.nodes[a].msgs[o] && n.msgs[o][i] == s.nodes[a].msgs[o][i] {
        HeardKept(s, t, a, o, i);
      }
    }
  }

  /** A step that leaves the state of `a` alone keeps it in order. */
  lemma IdleNodeKept(s: State, t: State, a: Address)
    requires RouteInv(s) && Grows(s, t) && a in s.nodes && t.nodes[a] == s.nodes[a]
    requires forall o | o in s.nodes[a].routes && (a, o) in s.adopted :: Same(s, t, a, o)
    ensures NodeInv(t, a)
  {
    assert NodeInv(s, a);
    forall o | o in t.nodes[a].routes ensures Same(s, t, a, o) {
      assert Stamped(s, a, o);
    }
    NodeKept(s, t, a);
  }

  lemma AddedRumors(m: Store, r: Rumor, o: string, i: uint32)
    requires o in Added(m, r) && i in Added(m, r)[o]
    ensures (o in m && i in m[o] && Added(m, r)[o][i] == m[o][i])
            || (o == r.origin && i == r.id && Added(m, r)[o][i] == r)
  {
  }

  lemma ClientNodeKept(s: State, e: Event)
    requires RouteInv(s) && Enabled(s, e) && e.Client?
    ensures NodeInv(Apply(s, e), e.at)
  {
    var t, a := Apply(s, e), e.at;
    StepGrows(s, e);
    assert NodeInv(s, a);
    var r := Rumor(s.nodes[a].name, s.nodes[a].counter, e.text);
    forall o, i | o in t.nodes[a].msgs && i in t.nodes[a].msgs[o]
      ensures || (o in s.nodes[a].msgs && i in s.nodes[a].msgs[o] && t.nodes[a].msgs[o][i] == s.nodes[a].msgs[o][i])
              || (t.nodes[a].msgs[o][i].origin == o && t.nodes[a].msgs[o][i].id == i && Heard(t, a, o, i))
    {
      AddedRumors(s.nodes[a].msgs, r, o, i);
    }
    forall o | o in t.nodes[a].routes ensures Same(s, t, a, o) {
      assert Stamped(s, a, o);
    }
    NodeKept(s, t, a);
  }

  /** The node that passed the rumor on took its route before, so the new route is closer. */
  lemma NewRouteCloser(s: State, t: State, a: Address, src: Address, o: string, id: uint32)
    requires RouteInv(s) && Heard(s, src, o, id) && a in s.nodes && src != a
    requires t.nodes.Keys == s.nodes.Keys && t.nodes[src] == s.nodes[src] && t.clock == s.clock + 1
    requires t.adopted == s.adopted[(a, o) := s.clock]
    requires o in t.nodes[a].routes && t.nodes[a].routes[o] == Route(id, src)
    ensures Stamped(t, a, o) && Closer(t, o, a, src)
  {}

  lemma RumorRoutesKept(s: State, e: Event)
    requires RouteInv(s) && Enabled(s, e) && e.RumorArrives?
    ensures RoutesKept(s, Apply(s, e), e.rumorPacket.dst)
  {
    var t, p := Apply(s, e), e.rumorPacket;
    var a, src, r := p.dst, p.src, p.rumor;
    var n := s.nodes[a];
    assert NodeInv(s, a) && Heard(s, src, r.origin, r.id);
    if r.origin != n.name && Improves(n.routes, r.origin, r.id) {
      assert src != a;
      NewRouteCloser(s, t, a, src, r.origin, r.id);
    }
    forall o | o in t.nodes[a].routes
      ensures Same(s, t, a, o)
              || (o != t.nodes[a].name && Stamped(t, a, o) && Closer(t, o, a, t.nodes[a].routes[o].hop))
    {
      if !(o == r.origin && o != n.name && Improves(n.routes, o, r.id)) {
        assert Stamped(s, a, o);
        assert Same(s, t, a, o);
      }
    }
  }

  lemma RumorNodeKept(s: State, e: Event)
    requires RouteInv(s) && Enabled(s, e) && e.RumorArrives?
    ensures NodeInv(Apply(s, e), e.rumorPacket.dst)
  {
    var t, p := Apply(s, e), e.rumorPacket;
    StepGrows(s, e);
    RumorRoutesKept(s, e);
    assert Heard(t, p.dst, p.rumor.origin, p.rumor.id);
    NodeKept(s, t, p.dst);
  }

  lemma StoredNodeKept(s: State, e: Event)
    requires RouteInv(s) && Enabled(s, e) && e.RumorStored?
    ensures NodeInv(Apply(s, e), e.at)
  {
    var t, a := Apply(s, e), e.at;
    var r := s.nodes[a].handling.value.1;
    StepGrows(s, e);
    assert NodeInv(s, a);
    HeardKept(s, t, a, r.origin, r.id);
    forall o, i | o in t.nodes[a].msgs && i in t.nodes[a].msgs[o]
      ensures || (o in s.nodes[a].msgs && i in s.nodes[a].msgs[o] && t.nodes[a].msgs[o][i] == s.nodes[a].msgs[o][i])
              || (t.nodes[a].msgs[o][i].origin == o && t.nodes[a].msgs[o][i].id == i && Heard(t, a, o, i))
    {
      AddedRumors(s.nodes[a].msgs, r, o, i);
    }
    forall o | o in t.nodes[a].routes ensures Same(s, t, a, o) {
      assert Stamped(s, a, o);
    }
    NodeKept(s, t, a);
  }

  /** Whoever sends a rumor has heard of it. */
  lemma SentHeard(s: State, e: Event, p: Packet)
    requires RouteInv(s) && Enabled(s, e) && p in Apply(s, e).net && p !in s.net && p.RumorPacket?
    ensures Heard(s, p.src, p.rumor.origin, p.rumor.id)
  {
    match e
    case TrySend(at, _, _) =>
      assert NodeInv(s, at);
    case StatusArrives(q, _, _) =>
      var n := s.nodes[q.dst];
      assert NodeInv(s, q.dst);
      var offers := Offers(Status(n.msgs), WantMap(q.want));
      var o :| o in offers && Lookup(n.msgs, o, offers[o]).Some?
        && p == RumorPacket(q.dst, q.src, Lookup(n.msgs, o, offers[o]).value);
    case _ =>
  }

  lemma StepKeepsRoutes(s: State, e: Event)
    requires RouteInv(s) && Enabled(s, e)
    ensures RouteInv(Apply(s, e))
  {
    var t := Apply(s, e);
    StepGrows(s, e);
    forall a | a in t.nodes ensures NodeInv(t, a) {
      if e.Client? && a == e.at {
        ClientNodeKept(s, e);
      } else if e.RumorArrives? && a == e.rumorPacket.dst {
        RumorNodeKept(s, e);
      } else if e.RumorStored? && a == e.at {
        StoredNodeKept(s, e);
      } else {
        IdleNodeKept(s, t, a);
      }
    }
    forall p | p in t.net && p.RumorPacket? ensures Heard(t, p.src, p.rumor.origin, p.rumor.id) {
      if p !in s.net { SentHeard(s, e, p); }
      HeardKept(s, t, p.src, p.rumor.origin, p.rumor.id);
    }
  }

  lemma {:induction false} RunKeepsRoutes(states: seq<State>, events: seq<Event>, k: nat)
    requires Run(states, events) && k < |states|
    ensures RouteInv(states[k])
  {
    if k == 0 {
      forall a | a in states[0].nodes ensures NodeInv(states[0], a) {}
    } else {
      RunKeepsRoutes(states, events, k - 1);
      StepKeepsRoutes(states[k - 1], events[k - 1]);
    }
  }

  lemma ReachableRoutes(s: State)
    requires Reachable(s)
    ensures RouteInv(s)
  {
    var states, events :| Run(states, events) && states[|states| - 1] == s;
    RunKeepsRoutes(states, events, |states| - 1);
  }

  // ---------------------------------------------------------------- following next hops

  /** Following next hops for `o` from `a` reaches the node named `o` after exactly `n` hops. */
  ghost predicate Reaches(s: State, a: Address, o: string, n: nat)
    decreases n
  {
    && a in s.nodes
    && if n == 0 then s.nodes[a].name == o
       else s.nodes[a].name != o && o in s.nodes[a].routes && Reaches(s, s.nodes[a].routes[o].hop, o, n - 1)
  }

  /** `a` is ahead of `b` on the way to `o`. */
  ghost predicate Ahead(s: State, o: string, a: Address, b: Address) {
    && a in s.nodes && b in s.nodes && s.nodes[b].name != o && o in s.nodes[b].routes && Closer(s, o, b, a)
  }

  ghost function AheadOf(s: State, o: string, b: Address): set<Address> {
    set a | a in s.nodes && Ahead(s, o, a, b)
  }

  lemma HopShrinksAhead(s: State, o: string, a: Address)
    requires RouteInv(s) && a in s.nodes && s.nodes[a].name != o && o in s.nodes[a].routes
    ensures var h := s.nodes[a].routes[o].hop;
            h in s.nodes && AheadOf(s, o, h) < AheadOf(s, o, a)
  {
    assert NodeInv(s, a);
    var h := s.nodes[a].routes[o].hop;
    assert Closer(s, o, a, h);
    assert h in AheadOf(s, o, a);
    forall b | b in AheadOf(s, o, h) ensures b in AheadOf(s, o, a) {
    }
    assert h !in AheadOf(s, o, h);
  }

  lemma {:induction false} HopCount(s: State, o: string, a: Address) returns (n: nat)
    requires RouteInv(s) && a in s.nodes
    requires s.nodes[a].name == o || o in s.nodes[a].routes
    ensures Reaches(s, a, o, n) && n <= |AheadOf(s, o, a)|
    decreases |AheadOf(s, o, a)|
  {
    if s.nodes[a].name == o {
      n := 0;
    } else {
      HopShrinksAhead(s, o, a);
      var h := s.nodes[a].routes[o].hop;
      assert NodeInv(s, a) && Closer(s, o, a, h);
      SubsetSize(AheadOf(s, o, h), AheadOf(s, o, a));
      n := HopCount(s, o, h);
      n := n + 1;
    }
  }

  /** In every reachable state a node with a route to `o` reaches `o` in fewer hops than there
      are nodes: next hops neither cycle nor end early. */
  lemma LoopFreedom(s: State, o: string, a: Address) returns (n: nat)
    requires Reachable(s) && a in s.nodes
    requires s.nodes[a].name == o || o in s.nodes[a].routes
    ensures Reaches(s, a, o, n) && n < |s.nodes|
  {
    ReachableRoutes(s);
    n := HopCount(s, o, a);
    assert a !in AheadOf(s, o, a);
    SubsetSize(AheadOf(s, o, a), s.nodes.Keys);
  }

  // ---------------------------------------------------------------- forwarding private packets

  const DEFAULT_HOP_LIMIT: uint32 := 10

  /** How many nodes a packet received with this hop limit may still visit: 0 counts as 2^32,
      because the decrement wraps. */
  function Budget(hopLimit: uint32): int {
    if hopLimit == 0 then WORD32 else hopLimit
  }

  /** A packet for `o` that arrives at `a` gets through while no table changes. */
  ghost predicate Delivered(s: State, a: Address, o: string, hopLimit: uint32)
    decreases Budget(hopLimit)
  {
    && a in s.nodes
    && (s.nodes[a].name == o ||
        match OnForward(s.nodes[a], o, hopLimit)
        case None => false
        case Some((next, left)) => Delivered(s, next, o, left))
  }

  /** A packet is delivered exactly when its hop limit exceeds the distance of its route. */
  lemma {:induction false} DeliveredIff(s: State, a: Address, o: string, n: nat, hopLimit: uint32)
    requires Reaches(s, a, o, n)
    ensures Delivered(s, a, o, hopLimit) <==> n < Budget(hopLimit)
    decreases n
  {
    if n > 0 && Pred32(hopLimit) > 0 {
      DeliveredIff(s, s.nodes[a].routes[o].hop, o, n - 1, Pred32(hopLimit));
    }
  }

  ghost predicate InReach(s: State, a: Address, o: string, hopLimit: uint32, n: nat) {
    Reaches(s, a, o, n) && n < Budget(hopLimit)
  }

  /** The same for every node: without a route, or with one that ends, the packet is dropped. */
  lemma {:induction false} DeliveredIffRoute(s: State, a: Address, o: string, hopLimit: uint32)
    ensures Delivered(s, a, o, hopLimit) <==> exists n: nat :: InReach(s, a, o, hopLimit, n)
    ensures a in s.nodes && s.nodes[a].name != o && o !in s.nodes[a].routes ==> !Delivered(s, a, o, hopLimit)
    decreases Budget(hopLimit)
  {
    if n: nat :| InReach(s, a, o, hopLimit, n) { DeliveredIff(s, a, o, n, hopLimit); }
    if Delivered(s, a, o, hopLimit) {
      if s.nodes[a].name == o {
        assert InReach(s, a, o, hopLimit, 0);
      } else {
        var h, left := s.nodes[a].routes[o].hop, Pred32(hopLimit);
        DeliveredIffRoute(s, h, o, left);
        var n: nat :| InReach(s, h, o, left, n);
        assert InReach(s, a, o, hopLimit, n + 1);
      }
    }
  }

  /** In a network of at most 11 gossipers every private message with a route gets through: the
      sender passes it to its next hop with the full default hop limit. */
  lemma PrivateMessageArrives(s: State, a: Address, o: string)
    requires Reachable(s) && |s.nodes| <= 11
    requires a in s.nodes && s.nodes[a].name != o && o in s.nodes[a].routes
    ensures Delivered(s, s.nodes[a].routes[o].hop, o, DEFAULT_HOP_LIMIT)
  {
    var n := LoopFreedom(s, o, a);
    DeliveredIff(s, s.nodes[a].routes[o].hop, o, n - 1, DEFAULT_HOP_LIMIT);
  }
}
