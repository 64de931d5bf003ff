/**
 Anti-entropy between two gossipers: one round is a status, the messages sent for it
 (gossiper/rumorMongering.go) and their reception. Repeated rounds level both stores.
 */
module AntiEntropy {
  import opened Words
  import opened Messages
  import opened Routing
  import opened Gossip
  import opened Prefix

  ghost function Height(m: Store, o: string): uint32 {
    MaxId(LogOf(m, o).Keys)
  }

  /** A log is a prefix of rumors under their own names, and its NextID does not wrap. */
  ghost predicate GoodLog(log: Log, o: string) {
    IsPrefix(log) && MaxId(log.Keys) < WORD32 - 1 && forall i | i in log :: log[i].origin == o && log[i].id == i
  }

  ghost predicate Good(m: Store) {
    forall o | o in m :: GoodLog(m[o], o)
  }

  ghost predicate AgreeOn(p: Store, q: Store, o: string) {
    forall i | i in LogOf(p, o) && i in LogOf(q, o) :: LogOf(p, o)[i] == LogOf(q, o)[i]
  }

  ghost predicate Consistent(p: Store, q: Store) {
    forall o :: AgreeOn(p, q, o)
  }

  ghost predicate NonEmpty(m: Store) {
    forall o | o in m :: Height(m, o) >= 1
  }

  lemma HeightOf(m: Store, o: string)
    requires Good(m)
    ensures GoodLog(LogOf(m, o), o)
    ensures o in m ==> Status(m)[o] == Height(m, o) + 1
    ensures o !in m ==> Height(m, o) == 0
    ensures LogOf(m, o) == map[] <==> Height(m, o) == 0
  {
    var none: Log := map[];
    EmptyIsPrefix();
    assert none.Keys == {};
    if Height(m, o) == 0 && o in m { assert IsPrefix(m[o]) && m[o].Keys == {}; }
  }

  // ---------------------------------------------------------------- what is offered and served

  /** Whatever a peer asks for, however outdated, an offer can be served unless it is for an
      origin this node has only an empty entry of. */
  lemma ServedIff(p: Store, want: map<string, uint32>, o: string)
    requires Good(p) && o in Offers(Status(p), want)
    requires forall q | q in want :: want[q] >= 1
    ensures Lookup(p, o, Offers(Status(p), want)[o]).Some? <==> Height(p, o) >= 1
  {
    HeightOf(p, o);
  }

  /** What one round adds to the log of `o`: the next message, if the sender has it. */
  ghost function ExtendedLog(p: Log, q: Log): Log {
    var next := Succ32(MaxId(q.Keys));
    if MaxId(q.Keys) < MaxId(p.Keys) && next in p then q[next := p[next]] else q
  }

  /** The store of the receiver after one round. */
  ghost function Exchange(p: Store, q: Store): Store {
    map o | o in q.Keys + (set o | o in p && Height(p, o) > Height(q, o)) :: ExtendedLog(LogOf(p, o), LogOf(q, o))
  }

  /** A peer handles packets one by one. */
  function Receive(q: Store, packets: seq<Packet>): Store {
    if packets == [] then q
    else
      var before := Receive(q, packets[..|packets| - 1]);
      var p := packets[|packets| - 1];
      if p.RumorPacket? then Added(before, p.rumor) else before
  }

  /** A packet sent for the status of a peer carries the message the peer needs next. */
  ghost predicate IsNext(p: Store, q: Store, m: Rumor) {
    && Height(p, m.origin) > Height(q, m.origin) && m.id as int == Height(q, m.origin) + 1
    && m.id in LogOf(p, m.origin) && m == LogOf(p, m.origin)[m.id]
  }

  lemma ServedIsNext(n: Node, q: Store, self: Address, peer: Address, theirs: seq<PeerStatus>, x: Packet)
    requires Good(n.msgs) && Good(q) && Lists(theirs, Status(q)) && x in Served(n, self, peer, theirs)
    ensures x.RumorPacket? && IsNext(n.msgs, q, x.rumor)
  {
    WantMapOfLists(theirs, Status(q));
    var offers := Offers(Status(n.msgs), Status(q));
    var o :| o in offers && Lookup(n.msgs, o, offers[o]).Some?
      && x == RumorPacket(self, peer, Lookup(n.msgs, o, offers[o]).value);
    HeightOf(n.msgs, o);
    HeightOf(q, o);
  }

  /** Where the sender has more, a packet is sent. */
  lemma AheadIsServed(n: Node, q: Store, self: Address, peer: Address, theirs: seq<PeerStatus>, o: string)
    returns (x: Packet)
    requires Good(n.msgs) && Good(q) && Lists(theirs, Status(q)) && Height(n.msgs, o) > Height(q, o)
    ensures x in Served(n, self, peer, theirs) && x.RumorPacket? && x.rumor.origin == o
  {
    WantMapOfLists(theirs, Status(q));
    var offers := Offers(Status(n.msgs), Status(q));
    HeightOf(n.msgs, o);
    HeightOf(q, o);
    assert o in offers && Lookup(n.msgs, o, offers[o]).Some?;
    x := RumorPacket(self, peer, Lookup(n.msgs, o, offers[o]).value);
  }

  /** Some packets arrived, for the origins in `done`. */
  ghost predicate Partly(p: Store, q: Store, r: Store, done: set<string>) {
    forall o :: PartlyAt(p, q, r, done, o)
  }

  ghost predicate PartlyAt(p: Store, q: Store, r: Store, done: set<string>, o: string) {
    if o in done then o in r && r[o] == ExtendedLog(LogOf(p, o), LogOf(q, o)) && Height(p, o) > Height(q, o)
    else (o in r <==> o in q) && LogOf(r, o) == LogOf(q, o)
  }

  /** The receiver accepts the next message, and refuses it when it comes again. */
  lemma NextArrives(p: Store, q: Store, r: Store, done: set<string>, m: Rumor)
    requires Good(p) && Good(q) && Partly(p, q, r, done) && IsNext(p, q, m)
    ensures Partly(p, q, Added(r, m), done + {m.origin})
  {
    var o := m.origin;
    HeightOf(q, o);
    assert PartlyAt(p, q, r, done, o);
    if o in done {
      AcceptedOnce(p, q, m);
      assert Added(r, m) == r;
    } else {
      AddedExtends(r, m);
    }
    forall x ensures PartlyAt(p, q, Added(r, m), done + {o}, x) { assert PartlyAt(p, q, r, done, x); }
  }

  lemma AcceptedOnce(p: Store, q: Store, m: Rumor)
    requires Good(q) && IsNext(p, q, m)
    ensures ExtendedLog(LogOf(p, m.origin), LogOf(q, m.origin)) == LogOf(q, m.origin)[m.id := m]
  {
    HeightOf(q, m.origin);
  }

  function Origins(packets: seq<Packet>): set<string> {
    set x | x in packets && x.RumorPacket? :: x.rumor.origin
  }

  lemma {:induction false} PacketsArrive(p: Store, q: Store, packets: seq<Packet>)
    requires Good(p) && Good(q)
    requires forall x | x in packets :: x.RumorPacket? && IsNext(p, q, x.rumor)
    ensures Partly(p, q, Receive(q, packets), Origins(packets))
  {
    hide IsNext, Good, PartlyAt;
    if packets == [] {
      NothingArrived(p, q);
    } else {
      var front, x := packets[..|packets| - 1], packets[|packets| - 1];
      PacketsArrive(p, q, front);
      NextArrives(p, q, Receive(q, front), Origins(front), x.rumor);
      assert packets == front + [x];
      assert Origins(packets) == Origins(front) + {x.rumor.origin};
    }
  }

  lemma NothingArrived(p: Store, q: Store)
    ensures Partly(p, q, q, Origins([]))
  {
    assert Origins([]) == {};
  }

  /** The packets sent for a status turn the receiver's store into `Exchange`, whatever the order in
      which they arrive and however often: every message asked for and held is sent, and accepted once. */
  lemma RoundIsExchange(n: Node, q: Store, theirs: seq<PeerStatus>, self: Address, peer: Address, packets: seq<Packet>)
    requires Good(n.msgs) && Good(q) && Lists(theirs, Status(q))
    requires forall x :: x in packets <==> x in Served(n, self, peer, theirs)
    ensures Receive(q, packets) == Exchange(n.msgs, q)
  {
    hide Served, Good, IsNext, Lists, PartlyAt;
    var p, r := n.msgs, Receive(q, packets);
    forall x | x in packets ensures x.RumorPacket? && IsNext(p, q, x.rumor) {
      ServedIsNext(n, q, self, peer, theirs, x);
    }
    PacketsArrive(p, q, packets);
    forall o ensures (o in r <==> o in Exchange(p, q)) && (o in r ==> r[o] == Exchange(p, q)[o]) {
      assert PartlyAt(p, q, r, Origins(packets), o);
      if Height(p, o) > Height(q, o) { var x := AheadIsServed(n, q, self, peer, theirs, o); }
      ExchangedAt(p, q, r, Origins(packets), o);
    }
  }

  lemma ExchangedAt(p: Store, q: Store, r: Store, done: set<string>, o: string)
    requires Good(p) && Good(q) && PartlyAt(p, q, r, done, o) && (Height(p, o) > Height(q, o) ==> o in done)
    ensures (o in r <==> o in Exchange(p, q)) && (o in r ==> r[o] == Exchange(p, q)[o])
  {
    HeightOf(p, o);
  }

  /** In particular the packets in the order of the reply loop. */
  lemma RepliesExchange(n: Node, q: Store, mine: seq<PeerStatus>, theirs: seq<PeerStatus>, self: Address, peer: Address)
    requires Good(n.msgs) && Good(q) && Lists(mine, Status(n.msgs)) && Lists(theirs, Status(q))
    ensures Receive(q, Replies(Difference(mine, WantMap(theirs)), n.msgs, self, peer)) == Exchange(n.msgs, q)
  {
    hide Served;
    var packets := Replies(Difference(mine, WantMap(theirs)), n.msgs, self, peer);
    RepliesAreServed(n, mine, self, peer, theirs);
    assert forall x :: x in packets <==> x in (set y | y in packets);
    RoundIsExchange(n, q, theirs, self, peer, packets);
  }

  // ---------------------------------------------------------------- a round as events of the network

  /** The packets arrive at one gossiper, one after the other: each is routed and then stored. */
  ghost predicate Delivery(states: seq<State>, events: seq<Event>, at: Address, packets: seq<Packet>) {
    && |events| == 2 * |packets| && |states| == |events| + 1
    && (forall i | 0 <= i < |events| :: Enabled(states[i], events[i]) && states[i + 1] == Apply(states[i], events[i]))
    && (forall i | 0 <= i < |packets| ::
          && packets[i].RumorPacket? && packets[i].dst == at
          && events[2 * i] == RumorArrives(packets[i]) && events[2 * i + 1].RumorStored? && events[2 * i + 1].at == at)
  }

  lemma ArriveAndStore(s: State, x: Packet, at: Address, reply: seq<PeerStatus>)
    requires x.RumorPacket? && x.dst == at && Enabled(s, RumorArrives(x))
    requires Enabled(Apply(s, RumorArrives(x)), RumorStored(at, reply))
    ensures var t := Apply(Apply(s, RumorArrives(x)), RumorStored(at, reply));
            at in t.nodes && t.nodes[at].msgs == Added(s.nodes[at].msgs, x.rumor)
  {}

  lemma {:induction false} DeliveryReceives(states: seq<State>, events: seq<Event>, at: Address,
                                            packets: seq<Packet>, k: nat)
    requires Delivery(states, events, at, packets) && at in states[0].nodes && k <= |packets|
    ensures var t := states[2 * k]; at in t.nodes && t.nodes[at].msgs == Receive(states[0].nodes[at].msgs, packets[..k])
  {
    hide Apply, Enabled;
    if k > 0 {
      var i := k - 1;
      DeliveryReceives(states, events, at, packets, i);
      assert packets[..k][..i] == packets[..i] && packets[..k][i] == packets[i];
      assert events[2 * i] == RumorArrives(packets[i]) && events[2 * i + 1] == RumorStored(at, events[2 * i + 1].reply);
      assert states[2 * i + 1] == Apply(states[2 * i], events[2 * i]);
      assert states[2 * i + 1 + 1] == Apply(states[2 * i + 1], events[2 * i + 1]);
      ArriveAndStore(states[2 * i], packets[i], at, events[2 * i + 1].reply);
    }
  }

  /** One round in the network: a status arrives, and the packets sent for it are delivered in any
      order, any number of times each. The peer then has the store `Exchange` says. */
  lemma RoundInTheNetwork(s: State, sp: Packet, replies: bool, reply: seq<PeerStatus>,
                          states: seq<State>, events: seq<Event>, packets: seq<Packet>)
    requires Enabled(s, StatusArrives(sp, replies, reply)) && sp.src in s.nodes && sp.src != sp.dst
    requires Lists(sp.want, Status(s.nodes[sp.src].msgs)) && Good(s.nodes[sp.dst].msgs) && Good(s.nodes[sp.src].msgs)
    requires Delivery(states, events, sp.src, packets) && states[0] == Apply(s, StatusArrives(sp, replies, reply))
    requires forall x :: x in packets <==> x in Served(s.nodes[sp.dst], sp.dst, sp.src, sp.want)
    ensures var t := states[|events|];
            sp.src in t.nodes && t.nodes[sp.src].msgs == Exchange(s.nodes[sp.dst].msgs, s.nodes[sp.src].msgs)
  {
    hide Served, Good;
    assert states[0].nodes == s.nodes;
    DeliveryReceives(states, events, sp.src, packets, |packets|);
    assert packets[..|packets|] == packets;
    RoundIsExchange(s.nodes[sp.dst], s.nodes[sp.src].msgs, sp.want, sp.dst, sp.src, packets);
  }

  // ---------------------------------------------------------------- convergence

  lemma ExtendedLogGood(p: Log, q: Log, o: string)
    requires GoodLog(p, o) && GoodLog(q, o)
    ensures GoodLog(ExtendedLog(p, q), o)
    ensures MaxId(ExtendedLog(p, q).Keys) == MaxId(q.Keys) + (if MaxId(p.Keys) > MaxId(q.Keys) then 1 else 0)
  {
    if MaxId(p.Keys) > MaxId(q.Keys) {
      var m: Store := map[o := q];
      AddedExtends(m, p[MaxId(q.Keys) + 1]);
    }
  }

  lemma ExchangeAt(p: Store, q: Store, o: string)
    requires Good(p) && Good(q)
    ensures GoodLog(LogOf(Exchange(p, q), o), o)
    ensures Height(Exchange(p, q), o) == Height(q, o) + (if Height(p, o) > Height(q, o) then 1 else 0)
    ensures o in Exchange(p, q) <==> o in q || Height(p, o) >= 1
    ensures AgreeOn(p, q, o) ==> AgreeOn(p, Exchange(p, q), o)
  {
    HeightOf(p, o);
    HeightOf(q, o);
    ExtendedLogGood(LogOf(p, o), LogOf(q, o), o);
    if o !in Exchange(p, q) {
      assert LogOf(Exchange(p, q), o) == LogOf(q, o);
    }
  }

  lemma ExchangeGood(p: Store, q: Store)
    requires Good(p) && Good(q)
    ensures Good(Exchange(p, q))
  {
    var r := Exchange(p, q);
    forall o | o in r ensures GoodLog(r[o], o) {
      ExchangeAt(p, q, o);
      assert r[o] == LogOf(r, o);
    }
  }

  ghost function Rounds(p: Store, q: Store, n: nat): (r: Store)
    requires Good(p) && Good(q)
    ensures Good(r)
  {
    if n == 0 then q
    else
      ExchangeGood(p, Rounds(p, q, n - 1));
      Exchange(p, Rounds(p, q, n - 1))
  }

  function Max(a: int, b: int): int { if a < b then b else a }
  function Min(a: int, b: int): int { if a < b then a else b }

  /** Each round closes every open gap by exactly one message and opens none. */
  lemma {:induction false} RoundsAt(p: Store, q: Store, n: nat, o: string)
    requires Good(p) && Good(q)
    ensures Height(Rounds(p, q, n), o) == Max(Height(q, o), Min(Height(p, o), Height(q, o) + n))
    ensures o in Rounds(p, q, n) <==> o in q || (n >= 1 && Height(p, o) >= 1)
    ensures AgreeOn(p, q, o) ==> AgreeOn(p, Rounds(p, q, n), o)
  {
    if n > 0 {
      RoundsAt(p, q, n - 1, o);
      ExchangeAt(p, Rounds(p, q, n - 1), o);
    }
  }

  ghost predicate HeightBound(p: Store, n: nat) {
    forall o :: Height(p, o) <= n
  }

  /** There always is a least bound: the height of the longest log, or 0. */
  lemma HeightBoundExists(p: Store) returns (n: nat)
    requires Good(p)
    ensures HeightBound(p, n) && n < WORD32 && (n == 0 || exists o :: Height(p, o) == n)
  {
    n := TallestAmong(p, p.Keys);
    forall o ensures Height(p, o) <= n { HeightOf(p, o); }
  }

  lemma {:induction false} TallestAmong(p: Store, keys: set<string>) returns (n: nat)
    ensures (forall o | o in keys :: Height(p, o) <= n) && n < WORD32 && (n == 0 || exists o :: Height(p, o) == n)
  {
    n := 0;
    if keys != {} {
      var first :| first in keys;
      n := TallestAmong(p, keys - {first});
      if n < Height(p, first) { n := Height(p, first); }
      forall o | o in keys ensures Height(p, o) <= n { assert o == first || o in keys - {first}; }
    }
  }

  /** The receiver `r` has caught up on `o`: the only offer left is for an empty entry of the
      sender that the receiver did not know, and such an offer is never served. */
  ghost predicate CaughtUp(p: Store, q: Store, r: Store, o: string) {
    var left := Offers(Status(p), Status(r));
    && Height(r, o) == Max(Height(p, o), Height(q, o))
    && (o in left <==> o in p && o !in q && p[o] == map[])
    && (o in left ==> left[o] == 1)
  }

  lemma CatchesUpAt(p: Store, q: Store, n: nat, o: string)
    requires Good(p) && Good(q) && Height(p, o) <= n && n >= 1
    ensures CaughtUp(p, q, Rounds(p, q, n), o)
  {
    RoundsAt(p, q, n, o);
    HeightOf(p, o);
    HeightOf(Rounds(p, q, n), o);
  }

  /** After as many rounds as the longest log, the receiver has everything of the sender. */
  lemma OneWayConverges(p: Store, q: Store, n: nat)
    requires Good(p) && Good(q) && HeightBound(p, n) && n >= 1
    ensures forall o :: CaughtUp(p, q, Rounds(p, q, n), o)
  {
    forall o ensures CaughtUp(p, q, Rounds(p, q, n), o) {
      assert Height(p, o) <= n;
      CatchesUpAt(p, q, n, o);
    }
  }

  lemma SameLog(p: Log, q: Log, o: string)
    requires GoodLog(p, o) && GoodLog(q, o) && MaxId(p.Keys) == MaxId(q.Keys)
    requires forall i | i in p && i in q :: p[i] == q[i]
    ensures p == q
  {}

  /** Stores of the same origins and heights that agree on what both hold are equal. */
  lemma LevelStoresEqual(p: Store, q: Store)
    requires Good(p) && Good(q) && Consistent(p, q) && p.Keys == q.Keys
    requires forall o :: Height(p, o) == Height(q, o)
    ensures p == q
  {
    forall o | o in p ensures p[o] == q[o] { LevelLogsEqual(p, q, o); }
  }

  lemma NoOffersIff(a: map<string, uint32>, b: map<string, uint32>)
    requires forall o | o in a :: a[o] >= 1
    requires forall o | o in b :: b[o] >= 1
    ensures Offers(a, b) == map[] && Offers(b, a) == map[] <==> a == b
  {
    if Offers(a, b) == map[] && Offers(b, a) == map[] {
      forall o ensures (o in a <==> o in b) && (o in a ==> a[o] == b[o]) {
        assert o !in Offers(a, b) && o !in Offers(b, a);
      }
    }
  }

  /** Two nodes have nothing to offer each other exactly when their stores are equal, empty entries
      included. */
  lemma InSyncIff(p: Store, q: Store)
    requires Good(p) && Good(q) && Consistent(p, q)
    ensures Offers(Status(p), Status(q)) == map[] && Offers(Status(q), Status(p)) == map[] <==> p == q
  {
    hide Offers, Good, Consistent;
    forall o
      ensures o in p ==> Status(p)[o] == Height(p, o) + 1
      ensures o in q ==> Status(q)[o] == Height(q, o) + 1
    {
      HeightOf(p, o);
      HeightOf(q, o);
    }
    NoOffersIff(Status(p), Status(q));
    if Status(p) == Status(q) { LevelStatusEqual(p, q); }
  }

  lemma LevelStatusEqual(p: Store, q: Store)
    requires Good(p) && Good(q) && Consistent(p, q) && Status(p) == Status(q)
    ensures p == q
  {
    hide Good, Consistent, GoodLog;
    assert p.Keys == Status(p).Keys && q.Keys == Status(q).Keys;
    forall o ensures Height(p, o) == Height(q, o) {
      HeightOf(p, o);
      HeightOf(q, o);
    }
    LevelStoresEqual(p, q);
  }

  lemma NonEmptyKeys(p: Store, q: Store)
    requires Good(p) && Good(q) && NonEmpty(p) && NonEmpty(q)
    requires forall o :: Height(p, o) == Height(q, o)
    ensures p.Keys == q.Keys
  {
    forall o ensures o in p <==> o in q {
      HeightOf(p, o);
      HeightOf(q, o);
    }
  }

  lemma RoundsNonEmpty(p: Store, q: Store, n: nat)
    requires Good(p) && Good(q) && HeightBound(p, n) && NonEmpty(q)
    ensures NonEmpty(Rounds(p, q, n))
  {
    var r := Rounds(p, q, n);
    forall o | o in r ensures Height(r, o) >= 1 {
      RoundsAt(p, q, n, o);
      assert Height(p, o) <= n;
    }
  }

  lemma RoundsConsistent(p: Store, q: Store, n: nat)
    requires Good(p) && Good(q) && Consistent(p, q)
    ensures Consistent(p, Rounds(p, q, n)) && Consistent(Rounds(p, q, n), p)
  {
    var r := Rounds(p, q, n);
    forall o ensures AgreeOn(p, r, o) && AgreeOn(r, p, o) {
      assert AgreeOn(p, q, o);
      RoundsAt(p, q, n, o);
    }
  }

  /** Enough rounds in one direction and then in the other leave both nodes with the same log of every
      origin, at the larger height, and with equal stores if there were no empty entries. */
  lemma Converges(p: Store, q: Store, n: nat)
    requires Good(p) && Good(q) && Consistent(p, q)
    requires HeightBound(p, n) && HeightBound(q, n) && n >= 1
    ensures var q' := Rounds(p, q, n); var p' := Rounds(q', p, n);
            && (forall o :: LogOf(p', o) == LogOf(q', o) && Height(q', o) == Max(Height(p, o), Height(q, o)))
            && (NonEmpty(p) && NonEmpty(q) ==> p' == q')
  {
    hide Rounds;
    var q' := Rounds(p, q, n);
    var p' := Rounds(q', p, n);
    OneWayConverges(p, q, n);
    forall o ensures Height(q', o) == Max(Height(p, o), Height(q, o)) <= n {
      assert CaughtUp(p, q, q', o) && Height(p, o) <= n && Height(q, o) <= n;
    }
    OneWayConverges(q', p, n);
    RoundsConsistent(p, q, n);
    RoundsConsistent(q', p, n);
    forall o ensures LogOf(p', o) == LogOf(q', o) && Height(p', o) == Height(q', o) {
      assert CaughtUp(q', p, p', o);
      LevelLogsEqual(p', q', o);
    }
    if NonEmpty(p) && NonEmpty(q) {
      RoundsNonEmpty(p, q, n);
      RoundsNonEmpty(q', p, n);
      NonEmptyKeys(q', p');
      LevelStoresEqual(q', p');
    }
  }

  lemma LevelLogsEqual(p: Store, q: Store, o: string)
    requires Good(p) && Good(q) && Consistent(p, q) && Height(p, o) == Height(q, o)
    ensures LogOf(p, o) == LogOf(q, o)
  {
    HeightOf(p, o);
    HeightOf(q, o);
    assert AgreeOn(p, q, o);
    SameLog(LogOf(p, o), LogOf(q, o), o);
  }

  /** Every pair of gossipers of a reachable state meets the conditions of convergence. */
  lemma ReachableStoresGood(s: State, a: Address, b: Address)
    requires Reachable(s) && Bounded(s) && a in s.nodes && b in s.nodes
    ensures Good(s.nodes[a].msgs) && Consistent(s.nodes[a].msgs, s.nodes[b].msgs)
  {
    hide LogInv, Bounded, Reachable, Holds, GoodLog, AgreeOn;
    ReachableLogs(s);
    var p, q := s.nodes[a].msgs, s.nodes[b].msgs;
    forall o | o in p ensures GoodLog(p[o], o) { NodeLogGood(s, a, o); }
    forall o ensures AgreeOn(p, q, o) { NodesAgree(s, a, b, o); }
  }

  lemma NodesAgree(s: State, a: Address, b: Address, o: string)
    requires LogInv(s) && Bounded(s) && a in s.nodes && b in s.nodes
    ensures AgreeOn(s.nodes[a].msgs, s.nodes[b].msgs, o)
  {
    hide LogInv, Bounded, GoodLog;
    NodeLogGood(s, a, o);
    NodeLogGood(s, b, o);
  }

  lemma NodeLogGood(s: State, a: Address, o: string)
    requires LogInv(s) && Bounded(s) && a in s.nodes
    ensures GoodLog(LogOf(s.nodes[a].msgs, o), o) && Holds(s, o, LogOf(s.nodes[a].msgs, o))
  {
    assert NodeLogs(s, a);
    assert Holds(s, o, LogOf(s.nodes[a].msgs, o));
    assert |Texts(s, o)| < WORD32 - 1;
  }
}
