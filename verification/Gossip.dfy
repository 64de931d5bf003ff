/**
 N gossipers over a network that may lose, duplicate and reorder packets: a packet stays
 deliverable until it is lost. The routines of a gossiper interleave; `rumorListenRoutine` takes
 two steps, because the status routine may run between its route update and its store update.
 */
module Gossip {
  import opened Words
  import opened Messages
  import opened Routing

  // ---------------------------------------------------------------- state

  datatype Packet =
    | RumorPacket(src: Address, dst: Address, rumor: Rumor)
    | StatusPacket(src: Address, dst: Address, want: seq<PeerStatus>)

  /** `mongering` holds the rumors for which a `rumorMonger` routine was started, `handling` the
      rumor and sender that `rumorListenRoutine` has taken the route of but not stored yet. */
  datatype Node = Node(name: string, counter: uint32, msgs: Store, routes: Routes,
                       mongering: set<Rumor>, handling: Option<(Address, Rumor)>)

  /** `generated`, `adopted` and `clock` are history: the texts each origin ever published, the
      step at which a node took over its current route to an origin, and the number of steps. */
  datatype State = State(
    nodes: map<Address, Node>,
    net: set<Packet>,
    generated: map<string, seq<string>>,
    adopted: map<(Address, string), nat>,
    clock: nat)

  // ---------------------------------------------------------------- handlers of one node

  /** `clientListenRoutine`: publish a text under the next ID of this node. */
  function OnClient(n: Node, text: string): Node {
    var r := Rumor(n.name, n.counter, text);
    n.(counter := Succ32(n.counter), msgs := Added(n.msgs, r), mongering := n.mongering + {r})
  }

  /** `rumorListenRoutine`, first half (`updateDSDV`): nobody routes to itself. */
  function TakeRoute(n: Node, src: Address, r: Rumor): Node {
    n.(routes := if r.origin == n.name then n.routes else Updated(n.routes, r.origin, r.id, src),
       handling := Some((src, r)))
  }

  /** `rumorListenRoutine`, second half: store the rumor and, if it is new, spread it. */
  function StoreRumor(n: Node): Node
    requires n.handling.Some?
  {
    var r := n.handling.value.1;
    n.(msgs := Added(n.msgs, r),
       mongering := n.mongering + (if Accepts(n.msgs, r) then {r} else {}),
       handling := None)
  }

  /** `peerStatusListenRoutine`: the stored messages the peer lacks; an offer that cannot be
      served sends nothing a receiver would recognise. */
  ghost function Served(n: Node, self: Address, peer: Address, want: seq<PeerStatus>): set<Packet> {
    var offers := Offers(Status(n.msgs), WantMap(want));
    set o | o in offers && Lookup(n.msgs, o, offers[o]).Some? ::
      RumorPacket(self, peer, Lookup(n.msgs, o, offers[o]).value)
  }

  /** The packets `peerStatusListenRoutine` sends for a list of wanted messages, in order. */
  function Replies(l: seq<PeerStatus>, msgs: Store, self: Address, peer: Address): seq<Packet> {
    if l == [] then []
    else
      var v := l[|l| - 1];
      var found := Lookup(msgs, v.identifier, v.nextID);
      Replies(l[..|l| - 1], msgs, self, peer) + (if found.Some? then [RumorPacket(self, peer, found.value)] else [])
  }

  predicate Answers(v: PeerStatus, p: Packet, msgs: Store, self: Address, peer: Address) {
    var found := Lookup(msgs, v.identifier, v.nextID);
    found.Some? && p == RumorPacket(self, peer, found.value)
  }

  lemma {:induction false} RepliesContents(l: seq<PeerStatus>, msgs: Store, self: Address, peer: Address, p: Packet)
    ensures p in Replies(l, msgs, self, peer) <==> exists j :: 0 <= j < |l| && Answers(l[j], p, msgs, self, peer)
  {
    if l != [] {
      var front := l[..|l| - 1];
      RepliesContents(front, msgs, self, peer, p);
      if j :| 0 <= j < |front| && Answers(front[j], p, msgs, self, peer) {
        assert Answers(l[j], p, msgs, self, peer);
      }
      if j :| 0 <= j < |l| && Answers(l[j], p, msgs, self, peer) {
        if j < |front| { assert Answers(front[j], p, msgs, self, peer); }
      }
      assert Answers(l[|l| - 1], p, msgs, self, peer) ==> p in Replies(l, msgs, self, peer);
    }
  }

  /** Whatever order the status lists the origins in, the replies are the packets of the step. */
  lemma RepliesAreServed(n: Node, mine: seq<PeerStatus>, self: Address, peer: Address, want: seq<PeerStatus>)
    requires Lists(mine, Status(n.msgs))
    ensures (set p | p in Replies(Difference(mine, WantMap(want)), n.msgs, self, peer)) == Served(n, self, peer, want)
  {
    hide Status, WantMap, Difference, Replies;
    var l, offers := Difference(mine, WantMap(want)), Offers(Status(n.msgs), WantMap(want));
    DifferenceListsOffers(mine, Status(n.msgs), WantMap(want));
    forall p ensures p in Replies(l, n.msgs, self, peer) <==> p in Served(n, self, peer, want) {
      RepliesContents(l, n.msgs, self, peer, p);
      if p in Served(n, self, peer, want) {
        var o :| o in offers && Lookup(n.msgs, o, offers[o]).Some?
          && p == RumorPacket(self, peer, Lookup(n.msgs, o, offers[o]).value);
        assert Mentions(l, o);
        var j :| 0 <= j < |l| && l[j].identifier == o;
        assert Answers(l[j], p, n.msgs, self, peer);
      }
    }
  }

  /** `forward`: where a packet goes next and with which hop limit. The decrement is unsigned. */
  function OnForward(n: Node, destination: string, hopLimit: uint32): Option<(Address, uint32)> {
    if Pred32(hopLimit) > 0 && destination in n.routes
    then Some((n.routes[destination].hop, Pred32(hopLimit))) else None
  }

  // ---------------------------------------------------------------- steps of the network

  datatype Event =
    | Client(at: Address, text: string)
    | TrySend(at: Address, peer: Address, rumor: Rumor)
    | SendStatus(at: Address, peer: Address, want: seq<PeerStatus>)
    | RumorArrives(rumorPacket: Packet)
    | RumorStored(at: Address, reply: seq<PeerStatus>)
    | StatusArrives(statusPacket: Packet, replies: bool, reply: seq<PeerStatus>)
    | Lose(lost: Packet)

  ghost predicate Enabled(s: State, e: Event) {
    match e
    case Client(at, _) => at in s.nodes
    case TrySend(at, _, r) => at in s.nodes && r in s.nodes[at].mongering
    case SendStatus(at, _, want) => at in s.nodes && Lists(want, Status(s.nodes[at].msgs))
    case RumorArrives(p) =>
      p in s.net && p.RumorPacket? && p.dst in s.nodes && s.nodes[p.dst].handling.None?
    case RumorStored(at, reply) =>
      at in s.nodes && s.nodes[at].handling.Some? && Lists(reply, Status(StoreRumor(s.nodes[at]).msgs))
    case StatusArrives(p, replies, reply) =>
      && p in s.net && p.StatusPacket? && p.dst in s.nodes
      && var own := Status(s.nodes[p.dst].msgs);
      && Lists(reply, own)
      && (replies ==> Offers(own, WantMap(p.want)) == map[] && Difference(p.want, own) != [])
    case Lose(p) => p in s.net
  }

  /** The history of route adoption: stamped when the table entry was overwritten. */
  function Adopt(s: State, at: Address, r: Rumor): map<(Address, string), nat>
    requires at in s.nodes
  {
    if r.origin != s.nodes[at].name && Improves(s.nodes[at].routes, r.origin, r.id)
    then s.adopted[(at, r.origin) := s.clock] else s.adopted
  }

  ghost function Apply(s: State, e: Event): State
    requires Enabled(s, e)
  {
    match e
    case Client(at, text) =>
      var n := s.nodes[at];
      var texts := if n.name in s.generated then s.generated[n.name] else [];
      State(s.nodes[at := OnClient(n, text)], s.net, s.generated[n.name := texts + [text]], s.adopted, s.clock + 1)
    case TrySend(at, peer, r) =>
      s.(net := s.net + {RumorPacket(at, peer, r)}, clock := s.clock + 1)
    case SendStatus(at, peer, want) =>
      s.(net := s.net + {StatusPacket(at, peer, want)}, clock := s.clock + 1)
    case RumorArrives(p) =>
      s.(nodes := s.nodes[p.dst := TakeRoute(s.nodes[p.dst], p.src, p.rumor)],
         adopted := Adopt(s, p.dst, p.rumor), clock := s.clock + 1)
    case RumorStored(at, reply) =>
      s.(nodes := s.nodes[at := StoreRumor(s.nodes[at])],
         net := s.net + {StatusPacket(at, s.nodes[at].handling.value.0, reply)}, clock := s.clock + 1)
    case StatusArrives(p, replies, reply) =>
      s.(net := s.net + Served(s.nodes[p.dst], p.dst, p.src, p.want)
                + (if replies then {StatusPacket(p.dst, p.src, reply)} else {}),
         clock := s.clock + 1)
    case Lose(p) =>
      s.(net := s.net - {p}, clock := s.clock + 1)
  }

  /** Fresh gossipers, each with its own name. */
  ghost predicate Init(s: State) {
    && (forall a | a in s.nodes :: s.nodes[a] == Node(s.nodes[a].name, 1, map[], map[], {}, None))
    && (forall a, b | a in s.nodes && b in s.nodes && s.nodes[a].name == s.nodes[b].name :: a == b)
    && s.net == {} && s.generated == map[] && s.adopted == map[] && s.clock == 0
  }

  /** A run: every state follows from the one before by an enabled event. */
  ghost predicate Run(states: seq<State>, events: seq<Event>) {
    && |states| == |events| + 1
    && Init(states[0])
    && forall i | 0 <= i < |events| :: Enabled(states[i], events[i]) && states[i + 1] == Apply(states[i], events[i])
  }

  ghost predicate Reachable(s: State) {
    exists states, events :: Run(states, events) && states[|states| - 1] == s
  }
}
