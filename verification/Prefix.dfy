/**
 What the stores of all gossipers hold, over every run: for each origin a prefix of what that
 origin published. Message IDs are 32-bit words, so the promise ends when a counter wraps.
 */
module Prefix {
  import opened Words
  import opened Messages
  import opened Routing
  import opened Gossip

  /** The held IDs are exactly 1 up to the largest. */
  ghost predicate IsPrefix(log: Log) {
    forall i: uint32 :: i in log <==> 1 <= i <= MaxId(log.Keys)
  }

  function Texts(s: State, o: string): seq<string> {
    if o in s.generated then s.generated[o] else []
  }

  /** No counter has wrapped, and no NextID has. */
  ghost predicate Bounded(s: State) {
    forall o | o in s.generated :: |s.generated[o]| < WORD32 - 1
  }

  /** `r` is the message its origin published under that ID. */
  predicate Genuine(s: State, r: Rumor) {
    1 <= r.id <= |Texts(s, r.origin)| && r.text == Texts(s, r.origin)[r.id - 1]
  }

  ghost predicate Holds(s: State, o: string, log: Log) {
    && IsPrefix(log)
    && MaxId(log.Keys) <= |Texts(s, o)|
    && (forall i | i in log :: log[i].origin == o && log[i].id == i && Genuine(s, log[i]))
  }

  ghost predicate NodeLogs(s: State, a: Address)
    requires a in s.nodes
  {
    var n := s.nodes[a];
    && n.counter == |Texts(s, n.name)| + 1
    && MaxId(LogOf(n.msgs, n.name).Keys) == |Texts(s, n.name)|
    && (forall o :: Holds(s, o, LogOf(n.msgs, o)))
    && (forall r | r in n.mongering :: Genuine(s, r))
    && (n.handling.Some? ==> Genuine(s, n.handling.value.1))
  }

  ghost predicate LogInv(s: State) {
    && (forall a, b | a in s.nodes && b in s.nodes && s.nodes[a].name == s.nodes[b].name :: a == b)
    && (forall a | a in s.nodes :: NodeLogs(s, a))
    && (forall p | p in s.net && p.RumorPacket? :: Genuine(s, p.rumor))
  }

  // ---------------------------------------------------------------- adding a message

  lemma EmptyIsPrefix()
    ensures MaxId({}) == 0 && IsPrefix(map[])
  {}

  /** A refused message changes no log; an accepted one extends its log by its next ID. */
  lemma AddedExtends(m: Store, r: Rumor)
    requires IsPrefix(LogOf(m, r.origin)) && r.id >= 1
    ensures forall o | o != r.origin :: LogOf(Added(m, r), o) == LogOf(m, o)
    ensures Accepts(m, r) <==> r.id == MaxId(LogOf(m, r.origin).Keys) + 1
    ensures !Accepts(m, r) ==> LogOf(Added(m, r), r.origin) == LogOf(m, r.origin)
    ensures Accepts(m, r) ==>
              var log := LogOf(Added(m, r), r.origin);
              log == LogOf(m, r.origin)[r.id := r] && IsPrefix(log) && MaxId(log.Keys) == r.id
  {
    var log := LogOf(m, r.origin);
    if Accepts(m, r) {
      MaxIdUnique(log.Keys + {r.id}, r.id);
      assert log[r.id := r].Keys == log.Keys + {r.id};
    }
  }

  lemma AddedHolds(s: State, m: Store, r: Rumor, o: string)
    requires Holds(s, r.origin, LogOf(m, r.origin)) && Holds(s, o, LogOf(m, o)) && Genuine(s, r)
    ensures Holds(s, o, LogOf(Added(m, r), o))
  {
    AddedExtends(m, r);
  }

  /** Publishing more keeps what is genuine. */
  lemma GenuineKept(s: State, t: State, r: Rumor)
    requires Genuine(s, r) && Texts(s, r.origin) <= Texts(t, r.origin)
    ensures Genuine(t, r)
  {
  }

  lemma HoldsKept(s: State, t: State, o: string, log: Log)
    requires Holds(s, o, log) && Texts(s, o) <= Texts(t, o)
    ensures Holds(t, o, log)
  {}

  // ---------------------------------------------------------------- preservation

  lemma StepGrowsTexts(s: State, e: Event)
    requires Enabled(s, e)
    ensures forall o :: Texts(s, o) <= Texts(Apply(s, e), o)
    ensures Bounded(Apply(s, e)) ==> Bounded(s)
  {
    var t := Apply(s, e);
    forall o ensures Texts(s, o) <= Texts(t, o) {}
    if Bounded(t) {
      forall o | o in s.generated ensures |s.generated[o]| < WORD32 - 1 {
        assert Texts(s, o) <= Texts(t, o);
        assert o in t.generated;
      }
    }
  }

  lemma IdleLogs(s: State, t: State, a: Address)
    requires a in s.nodes && a in t.nodes && NodeLogs(s, a)
    requires t.nodes[a].(routes := s.nodes[a].routes, handling := s.nodes[a].handling) == s.nodes[a]
    requires t.nodes[a].handling.Some? ==> Genuine(s, t.nodes[a].handling.value.1)
    requires forall o :: Texts(s, o) <= Texts(t, o)
    requires Texts(s, s.nodes[a].name) == Texts(t, s.nodes[a].name)
    ensures NodeLogs(t, a)
  {}

  lemma ClientHolds(s: State, t: State, n: Node, r: Rumor, o: string)
    requires forall q :: Holds(s, q, LogOf(n.msgs, q))
    requires forall q :: Texts(s, q) <= Texts(t, q)
    requires Genuine(t, r)
    ensures Holds(t, o, LogOf(Added(n.msgs, r), o))
  {
    HoldsKept(s, t, o, LogOf(n.msgs, o));
    HoldsKept(s, t, r.origin, LogOf(n.msgs, r.origin));
    AddedHolds(t, n.msgs, r, o);
  }

  lemma ClientText(s: State, e: Event)
    requires Enabled(s, e) && e.Client?
    ensures var name := s.nodes[e.at].name;
            && name in Apply(s, e).generated
            && Texts(Apply(s, e), name) == Texts(s, name) + [e.text]
  {
  }

  lemma ClientCounts(s: State, e: Event)
    requires Enabled(s, e) && e.Client? && NodeLogs(s, e.at) && Bounded(Apply(s, e))
    ensures var n, n', texts := s.nodes[e.at], OnClient(s.nodes[e.at], e.text), Texts(Apply(s, e), s.nodes[e.at].name);
            && n'.counter == |texts| + 1
            && MaxId(LogOf(n'.msgs, n.name).Keys) == |texts|
            && n.counter == |texts| && texts[|texts| - 1] == e.text
  {
    var n := s.nodes[e.at];
    ClientText(s, e);
    AddedExtends(n.msgs, Rumor(n.name, n.counter, e.text));
  }

  lemma ClientLogs(s: State, e: Event)
    requires Enabled(s, e) && e.Client? && NodeLogs(s, e.at) && Bounded(Apply(s, e))
    ensures NodeLogs(Apply(s, e), e.at)
  {
    var t, a := Apply(s, e), e.at;
    var n := s.nodes[a];
    var n' := OnClient(n, e.text);
    var r := Rumor(n.name, n.counter, e.text);
    assert t.nodes[a] == n';
    StepGrowsTexts(s, e);
    ClientCounts(s, e);
    forall o ensures Holds(t, o, LogOf(n'.msgs, o)) { ClientHolds(s, t, n, r, o); }
    forall q | q in n'.mongering ensures Genuine(t, q) {
      if q in n.mongering { GenuineKept(s, t, q); }
    }
    if n.handling.Some? { GenuineKept(s, t, n.handling.value.1); }
  }

  lemma StoredLogs(s: State, e: Event)
    requires LogInv(s) && Enabled(s, e) && e.RumorStored?
    ensures NodeLogs(Apply(s, e), e.at)
  {
    var t, a := Apply(s, e), e.at;
    var n := s.nodes[a];
    var r := n.handling.value.1;
    assert NodeLogs(s, a);
    forall o ensures Texts(t, o) == Texts(s, o) {}
    forall o ensures Holds(t, o, LogOf(t.nodes[a].msgs, o)) {
      assert Holds(s, o, LogOf(n.msgs, o)) && Holds(s, r.origin, LogOf(n.msgs, r.origin));
      AddedHolds(s, n.msgs, r, o);
      HoldsKept(s, t, o, LogOf(t.nodes[a].msgs, o));
    }
    AddedExtends(n.msgs, r);
    forall q | q in t.nodes[a].mongering ensures Genuine(t, q) {}
  }

  /** Whoever sends a rumor holds it, so it is genuine. */
  lemma SentGenuine(s: State, e: Event, p: Packet)
    requires LogInv(s) && Enabled(s, e) && p in Apply(s, e).net && p !in s.net && p.RumorPacket?
    ensures Genuine(s, p.rumor)
  {
    match e
    case TrySend(at, _, _) =>
      assert NodeLogs(s, at);
    case StatusArrives(q, _, _) =>
      var n := s.nodes[q.dst];
      var offers := Offers(Status(n.msgs), WantMap(q.want));
      var o :| o in offers && Lookup(n.msgs, o, offers[o]).Some?
        && p == RumorPacket(q.dst, q.src, Lookup(n.msgs, o, offers[o]).value);
      assert NodeLogs(s, q.dst) && Holds(s, o, LogOf(n.msgs, o));
    case _ =>
  }

  lemma OtherNode(s: State, e: Event, a: Address)
    requires Enabled(s, e) && a in s.nodes && ((e.Client? || e.RumorStored?) ==> a != e.at)
    requires e.Client? ==> s.nodes[a].name != s.nodes[e.at].name
    ensures var n, n' := s.nodes[a], Apply(s, e).nodes[a];
            && n'.(routes := n.routes, handling := n.handling) == n
            && (n'.handling == n.handling
                 || (e.RumorArrives? && n'.handling.Some? && n'.handling.value.1 == e.rumorPacket.rumor))
            && Texts(Apply(s, e), n.name) == Texts(s, n.name)
  {
  }

  lemma OtherNodeLogs(s: State, e: Event, a: Address)
    requires LogInv(s) && Enabled(s, e) && a in s.nodes
    requires (e.Client? || e.RumorStored?) ==> a != e.at
    ensures NodeLogs(Apply(s, e), a)
  {
    StepGrowsTexts(s, e);
    assert NodeLogs(s, a);
    OtherNode(s, e, a);
    IdleLogs(s, Apply(s, e), a);
  }

  lemma StepNodeLogs(s: State, e: Event, a: Address)
    requires LogInv(s) && Enabled(s, e) && Bounded(Apply(s, e)) && a in s.nodes
    ensures NodeLogs(Apply(s, e), a)
  {
    if e.Client? && a == e.at {
      assert NodeLogs(s, a);
      ClientLogs(s, e);
    } else if e.RumorStored? && a == e.at {
      StoredLogs(s, e);
    } else {
      OtherNodeLogs(s, e, a);
    }
  }

  lemma StepPacketGenuine(s: State, e: Event, p: Packet)
    requires LogInv(s) && Enabled(s, e) && p in Apply(s, e).net && p.RumorPacket?
    ensures Genuine(Apply(s, e), p.rumor)
  {
    if p !in s.net { SentGenuine(s, e, p); }
    StepGrowsTexts(s, e);
    GenuineKept(s, Apply(s, e), p.rumor);
  }

  lemma StepKeepsNames(s: State, e: Event)
    requires Enabled(s, e)
    ensures Apply(s, e).nodes.Keys == s.nodes.Keys
    ensures forall a | a in s.nodes :: Apply(s, e).nodes[a].name == s.nodes[a].name
  {
  }

  lemma StepKeepsLogs(s: State, e: Event)
    requires LogInv(s) && Enabled(s, e) && Bounded(Apply(s, e))
    ensures LogInv(Apply(s, e))
  {
    var t := Apply(s, e);
    StepKeepsNames(s, e);
    forall a | a in t.nodes ensures NodeLogs(t, a) { StepNodeLogs(s, e, a); }
    forall p | p in t.net && p.RumorPacket? ensures Genuine(t, p.rumor) { StepPacketGenuine(s, e, p); }
  }

  lemma InitLogs(s: State)
    requires Init(s)
    ensures LogInv(s)
  {}

  lemma {:induction false} RunKeepsLogs(states: seq<State>, events: seq<Event>, k: nat)
    requires Run(states, events) && k < |states| && Bounded(states[k])
    ensures LogInv(states[k])
  {
    if k == 0 {
      InitLogs(states[0]);
    } else {
      StepGrowsTexts(states[k - 1], events[k - 1]);
      RunKeepsLogs(states, events, k - 1);
      StepKeepsLogs(states[k - 1], events[k - 1]);
    }
  }

  // ---------------------------------------------------------------- what is spread

  /** Storing a rumor starts to spread it exactly if the store did not hold its ID before and does now. */
  lemma SpreadIffStored(n: Node, r: Rumor)
    requires n.handling.Some?
    ensures var t, handled := StoreRumor(n), n.handling.value.1;
            && (r in t.mongering <==>
                  r in n.mongering
                  || (r == handled && r.id in LogOf(t.msgs, r.origin) && r.id !in LogOf(n.msgs, r.origin)))
            && t.handling == None
  {
    AddedExactly(n.msgs, n.handling.value.1, r.origin, r.id);
  }

  /** The events: what a node starts to spread when it stores is the rumor that arrived, if it is new,
      and it can be sent next. */
  lemma NewRumorSpreads(s: State, e: Event, peer: Address, r: Rumor)
    requires Enabled(s, e) && e.RumorStored?
    ensures var t, before, now := Apply(s, e), s.nodes[e.at].msgs, Apply(s, e).nodes[e.at].msgs;
            Enabled(t, TrySend(e.at, peer, r)) <==>
              || Enabled(s, TrySend(e.at, peer, r))
              || (r == s.nodes[e.at].handling.value.1 && Lookup(before, r.origin, r.id).None?
                  && Lookup(now, r.origin, r.id) == Some(r))
  {
    AddedExactly(s.nodes[e.at].msgs, s.nodes[e.at].handling.value.1, r.origin, r.id);
  }

  /** What a node publishes, and nothing else, starts to spread: without wrap-around it is held under the
      next ID, which was free, and can be sent next. */
  lemma PublishedSpreads(s: State, e: Event, peer: Address, r: Rumor)
    requires LogInv(s) && Enabled(s, e) && e.Client? && Bounded(Apply(s, e))
    ensures var t, before, now := Apply(s, e), s.nodes[e.at].msgs, Apply(s, e).nodes[e.at].msgs;
            Enabled(t, TrySend(e.at, peer, r)) <==>
              || Enabled(s, TrySend(e.at, peer, r))
              || (Lookup(before, r.origin, r.id).None? && Lookup(now, r.origin, r.id) == Some(r))
    ensures var name := s.nodes[e.at].name;
            var own := Rumor(name, |Texts(s, name)| + 1, e.text);
            && Enabled(Apply(s, e), TrySend(e.at, peer, own))
            && Lookup(Apply(s, e).nodes[e.at].msgs, name, own.id) == Some(own)
  {
    var n := s.nodes[e.at];
    assert NodeLogs(s, e.at) && Holds(s, n.name, LogOf(n.msgs, n.name));
    ClientCounts(s, e);
    AddedExtends(n.msgs, Rumor(n.name, n.counter, e.text));
    AddedExactly(n.msgs, Rumor(n.name, n.counter, e.text), r.origin, r.id);
  }

  // ---------------------------------------------------------------- the promise

  lemma ReachableLogs(s: State)
    requires Reachable(s) && Bounded(s)
    ensures LogInv(s)
  {
    var states, events :| Run(states, events) && states[|states| - 1] == s;
    RunKeepsLogs(states, events, |states| - 1);
  }

  lemma HeldLog(s: State, a: Address, o: string)
    requires Reachable(s) && Bounded(s) && a in s.nodes
    ensures Holds(s, o, LogOf(s.nodes[a].msgs, o)) && |Texts(s, o)| < WORD32 - 1
  {
    ReachableLogs(s);
    assert NodeLogs(s, a);
  }

  /** In every reachable state without wrap-around, the log of `o` at any node is exactly the
      first `n` messages `o` published, and the node advertises `n + 1`, the least ID it lacks. */
  lemma PrefixAgreement(s: State, a: Address, o: string) returns (n: nat)
    requires Reachable(s) && Bounded(s)
    requires a in s.nodes && o in s.nodes[a].msgs
    ensures n <= |Texts(s, o)|
    ensures forall i: uint32 :: i in s.nodes[a].msgs[o] <==> 1 <= i <= n
    ensures forall i: uint32 | 1 <= i <= n :: s.nodes[a].msgs[o][i] == Rumor(o, i, Texts(s, o)[i - 1])
    ensures Status(s.nodes[a].msgs)[o] == n + 1
  {
    HeldLog(s, a, o);
    var log := s.nodes[a].msgs[o];
    assert log == LogOf(s.nodes[a].msgs, o);
    n := MaxId(log.Keys);
    forall i: uint32 | 1 <= i <= n ensures log[i] == Rumor(o, i, Texts(s, o)[i - 1]) {
      assert i in log && Genuine(s, log[i]);
    }
  }

  /** Any two nodes agree on every message both hold. */
  lemma StoresAgree(s: State, a: Address, b: Address, o: string, i: uint32)
    requires Reachable(s) && Bounded(s)
    requires a in s.nodes && o in s.nodes[a].msgs && i in s.nodes[a].msgs[o]
    requires b in s.nodes && o in s.nodes[b].msgs && i in s.nodes[b].msgs[o]
    ensures s.nodes[a].msgs[o][i] == s.nodes[b].msgs[o][i]
  {
    var m := PrefixAgreement(s, a, o);
    var n := PrefixAgreement(s, b, o);
  }

  /** The exact bound: a node that published `n` messages keeps its own log a prefix by publishing
      another one if and only if its counter has not wrapped. After 2^32 - 1 messages the next
      one carries ID 0, and the store accepts it. */
  lemma PublishKeepsPrefixIff(n: Node, text: string)
    requires IsPrefix(LogOf(n.msgs, n.name)) && n.counter == Succ32(MaxId(LogOf(n.msgs, n.name).Keys))
    ensures IsPrefix(LogOf(OnClient(n, text).msgs, n.name)) <==> MaxId(LogOf(n.msgs, n.name).Keys) < WORD32 - 1
  {
    var r := Rumor(n.name, n.counter, text);
    var log := LogOf(n.msgs, n.name);
    if MaxId(log.Keys) < WORD32 - 1 {
      AddedExtends(n.msgs, r);
    } else {
      assert r.id == 0 && Pred32(r.id) in log;
      assert (0 as uint32) in LogOf(OnClient(n, text).msgs, n.name);
    }
  }
}
