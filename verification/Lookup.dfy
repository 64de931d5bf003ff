/**
 The node lookup (gossiper/dhtAPI.go) against every behaviour of the network. `reply` decides what
 each `reflect.Select` yields and `late` which queried nodes answered without being listened to;
 both may depend on the step, so every interleaving of answers and timeouts is some `World`.
 */
module Lookup {
  import opened Words
  import opened Ids
  import opened Frontier

  const ALPHA := 3

  /** `Silence`: none of the nodes waited for ever answers, and no ticker runs. */
  datatype Event = Timeout | Silence | Reply(from: TypeID, nodes: seq<NodeState>)

  /** `ids` are the other nodes of the network, and `address` where every node really is. */
  datatype World = World(
    me: TypeID,
    ids: set<TypeID>,
    reply: (nat, set<TypeID>, bool) -> Event,
    late: nat -> set<TypeID>,
    address: TypeID -> string)

  // ---------------------------------------------------------------- assumptions on the network

  /** Answers come from pending nodes and name nodes of the network; only a running ticker can
      time out, and without one the wait may never end. `lookupRound` stops its ticker before it waits. */
  ghost predicate Possible(w: World, pending: set<TypeID>, ticking: bool, e: Event) {
    match e
    case Timeout => ticking
    case Silence => !ticking
    case Reply(from, nodes) => from in pending && IdsOf(nodes) <= w.ids + {w.me}
  }

  ghost predicate Network(w: World) {
    && w.me !in w.ids
    && forall k: nat, pending, ticking | pending != {} && pending <= w.ids ::
         Possible(w, pending, ticking, w.reply(k, pending, ticking))
  }

  /** `x` is the node of `ids` closest to the target. */
  ghost predicate IsOwner(ids: set<TypeID>, target: TypeID, x: TypeID) {
    x in ids && forall y | y in ids :: Dist(target, x) <= Dist(target, y)
  }

  /** Every node but the closest one names, besides the initiator, a node nearer than itself. */
  ghost predicate Helpful(w: World, target: TypeID, from: TypeID, nodes: seq<NodeState>) {
    IsOwner(w.ids, target, from) || exists n :: n in nodes && n.id != w.me && D(target, n) < Dist(target, from)
  }

  /** Somebody always answers where no ticker runs. */
  ghost predicate Answering(w: World) {
    forall k: nat, pending | pending != {} && pending <= w.ids :: !w.reply(k, pending, false).Silence?
  }

  /** At this step a round waits for these nodes, and none of them ever answers. */
  ghost predicate Stuck(w: World, step: nat, waiting: set<TypeID>) {
    waiting != {} && w.reply(step, waiting, false).Silence?
  }

  /** The nodes of `dead` never answer; without a ticker somebody else does, as long as there is one. */
  ghost predicate Dead(w: World, dead: set<TypeID>) {
    forall k: nat, pending, ticking | pending != {} && pending <= w.ids ::
      var e := w.reply(k, pending, ticking);
      (e.Reply? ==> e.from !in dead) && (!ticking ==> (e.Silence? <==> pending <= dead))
  }

  ghost predicate Located(w: World, nodes: seq<NodeState>) {
    forall n | n in nodes :: n.address == w.address(n.id)
  }

  /** All nodes are named with their true addresses. */
  ghost predicate Honest(w: World) {
    forall k: nat, pending, ticking | pending != {} && pending <= w.ids ::
      var e := w.reply(k, pending, ticking); e.Reply? ==> Located(w, e.nodes)
  }

  /** No timeouts, and helpful answers only. */
  ghost predicate Prompt(w: World, target: TypeID) {
    forall k: nat, pending, ticking | pending != {} && pending <= w.ids ::
      var e := w.reply(k, pending, ticking); e.Reply? && Helpful(w, target, e.from, e.nodes)
  }

  // ---------------------------------------------------------------- the state between rounds

  ghost predicate Explores(w: World, snsa: SafeNodeStateArray)
    reads snsa, snsa.buf
  {
    && snsa.Valid()
    && snsa.present <= w.ids
    && snsa.Responded <= snsa.Queried <= snsa.present
  }

  /** Every queried node that was heard is the closest one or has been passed by the head. */
  ghost predicate Passed(w: World, target: TypeID, nodes: seq<NodeState>, heard: set<TypeID>) {
    forall x | x in heard :: IsOwner(w.ids, target, x) || (nodes != [] && D(target, nodes[0]) < Dist(target, x))
  }

  ghost predicate Settled(w: World, snsa: SafeNodeStateArray)
    requires Explores(w, snsa)
    reads snsa, snsa.buf
  {
    Prompt(w, snsa.Target) ==> Passed(w, snsa.Target, snsa.Nodes(), snsa.Queried) && snsa.Responded == snsa.Queried
  }

  ghost predicate HasUnqueried(snsa: SafeNodeStateArray)
    requires snsa.Valid()
    reads snsa, snsa.buf
  {
    exists n :: n in snsa.Nodes() && n.id !in snsa.Queried
  }

  // ---------------------------------------------------------------- what a lookup returns

  /** A strictly sorted list of at most 20 responders; every known node left out was queried and
      has not responded, or is further away than a full list. */
  ghost predicate Final(target: TypeID, known: seq<NodeState>, queried: set<TypeID>, responded: set<TypeID>,
                        closest: seq<NodeState>)
  {
    && Sorted(target, closest) && |closest| <= BUCKET_SIZE
    && (forall n | n in closest :: n in known && n.id in responded)
    && (forall n | n in known && n !in closest ::
          || (n.id in queried && n.id !in responded)
          || (|closest| == BUCKET_SIZE && forall m | m in closest :: D(target, m) < D(target, n)))
  }

  ghost predicate Outcome(w: World, snsa: SafeNodeStateArray, closest: seq<NodeState>)
    requires Explores(w, snsa)
    reads snsa, snsa.buf
  {
    && Final(snsa.Target, snsa.Nodes(), snsa.Queried, snsa.Responded, closest)
    && (Prompt(w, snsa.Target) && snsa.Nodes() != [] ==>
          closest != [] && IsOwner(w.ids, snsa.Target, closest[0].id))
  }

  /** A scan that leaves nothing to query returns a final list. */
  lemma ScanIsFinal(target: TypeID, known: seq<NodeState>, upTo: nat, queried: set<TypeID>, responded: set<TypeID>,
                    closest: seq<NodeState>)
    requires Sorted(target, known) && upTo <= |known|
    requires Unqueried(known[..upTo], queried + responded) == []
    requires closest == RespondedOf(known[..upTo], responded)
    requires |closest| <= BUCKET_SIZE && (upTo == |known| || |closest| == BUCKET_SIZE)
    ensures Final(target, known, queried, responded, closest)
  {
    var seen := known[..upTo];
    RespondedContents(target, seen, responded);
    UnqueriedContents(seen, queried + responded);
    forall n | n in known && n !in closest && !(n.id in queried && n.id !in responded)
      ensures |closest| == BUCKET_SIZE && forall m | m in closest :: D(target, m) < D(target, n)
    {
      assert n !in seen;
      var i :| 0 <= i < |known| && known[i] == n;
      assert i >= upTo;
      forall m | m in closest ensures D(target, m) < D(target, n) {
        assert m in seen;
        var j :| 0 <= j < |seen| && seen[j] == m;
        assert known[j] == m;
      }
    }
  }

  /** When every queried node was heard and passed, the head has responded and is the owner. */
  lemma HeadIsOwner(w: World, target: TypeID, known: seq<NodeState>, upTo: nat, queried: set<TypeID>,
                    closest: seq<NodeState>)
    requires known != [] && 0 < upTo <= |known| && Sorted(target, known)
    requires Unqueried(known[..upTo], queried) == []
    requires closest == RespondedOf(known[..upTo], queried)
    requires Passed(w, target, known, queried)
    ensures closest != [] && closest[0] == known[0] && IsOwner(w.ids, target, closest[0].id)
  {
    var seen, head := known[..upTo], known[0];
    assert seen[0] == head && head in seen;
    UnqueriedContents(seen, queried);
    assert head.id in queried;
    RespondedContents(target, seen, queried);
    assert head in closest;
    assert closest[0] in seen;
    var j :| 0 <= j < |seen| && seen[j] == closest[0];
    var i :| 0 <= i < |closest| && closest[i] == head;
  }

  // ---------------------------------------------------------------- waiting for answers

  class Wire {
    const w: World
    var step: nat
    ghost var awaited: set<TypeID> // the nodes waited for without a ticker so far

    constructor (w: World)
      ensures this.w == w && awaited == {}
    {
      this.w, this.step, awaited := w, 0, {};
    }

    method Select(pending: set<TypeID>, ticking: bool) returns (e: Event)
      modifies this
      ensures e == w.reply(old(step), pending, ticking) && step == old(step) + 1
      ensures awaited == old(awaited) + (if ticking then {} else pending)
    {
      e := w.reply(step, pending, ticking);
      step, awaited := step + 1, awaited + (if ticking then {} else pending);
    }
  }

  /** Queried nodes may answer at any time, also after their round has ended. */
  method LateAnswers(wire: Wire, snsa: SafeNodeStateArray)
    requires Explores(wire.w, snsa)
    modifies snsa`Responded
    ensures old(snsa.Responded) <= snsa.Responded <= snsa.Queried
  {
    snsa.SetResponded(wire.w.late(wire.step) * snsa.Queried);
  }

  method QueryAll(snsa: SafeNodeStateArray, batch: seq<NodeState>) returns (pending: set<TypeID>)
    modifies snsa`Queried
    ensures pending == IdsOf(batch) && snsa.Queried == old(snsa.Queried) + pending
  {
    pending := {};
    for i := 0 to |batch|
      invariant pending + IdsOf(batch[i..]) == IdsOf(batch) && snsa.Queried == old(snsa.Queried) + pending
    {
      assert batch[i..][0] == batch[i] && batch[i..][1..] == batch[i + 1..];
      snsa.SetQueried(batch[i].id);
      pending := pending + {batch[i].id};
    }
    assert batch[|batch|..] == [];
  }

  lemma PassedKept(w: World, target: TypeID, s: seq<NodeState>, r: seq<NodeState>, heard: set<TypeID>)
    requires Passed(w, target, s, heard)
    requires s != [] ==> r != [] && D(target, r[0]) <= D(target, s[0])
    ensures Passed(w, target, r, heard)
  {
  }

  /** Handling the answer of `from` keeps what was passed and passes `from` as well. */
  lemma AnswerPasses(w: World, target: TypeID, s: seq<NodeState>, from: TypeID, nodes: seq<NodeState>,
                     heard: set<TypeID>)
    requires Sorted(target, s) && from in IdsOf(s)
    requires Passed(w, target, s, heard) && Helpful(w, target, from, nodes)
    ensures Passed(w, target, InsertMany(target, s, nodes, w.me, false).0, heard + {from})
  {
    InsertManyAdvances(target, s, nodes, w.me);
    PassedKept(w, target, s, InsertMany(target, s, nodes, w.me, false).0, heard);
    if !IsOwner(w.ids, target, from) {
      var n :| n in nodes && n.id != w.me && D(target, n) < Dist(target, from);
      HeadPasses(target, s, nodes, w.me, from, n);
    }
  }

  /** A round waits for `pending`; everyone queried before was heard and passed. */
  ghost predicate Waiting(w: World, snsa: SafeNodeStateArray, pending: set<TypeID>)
    reads snsa, snsa.buf
  {
    && Explores(w, snsa)
    && snsa.Nodes() != []
    && pending <= snsa.Queried
    && (Prompt(w, snsa.Target) ==>
          Passed(w, snsa.Target, snsa.Nodes(), snsa.Queried - pending) && snsa.Queried - pending <= snsa.Responded)
  }

  lemma AnswerInserted(w: World, target: TypeID, s: seq<NodeState>, nodes: seq<NodeState>)
    requires Sorted(target, s) && s != [] && IdsOf(s) <= w.ids && IdsOf(nodes) <= w.ids + {w.me} && w.me !in w.ids
    ensures var (r, closer) := InsertMany(target, s, nodes, w.me, false);
            && r != [] && IdsOf(s) <= IdsOf(r) <= w.ids && r[0].id in IdsOf(r)
            && (closer ==> r[0] in r && r[0].id !in IdsOf(s)) && forall n | n in r :: n in s || n in nodes
  {
    hide InsertMany;
    InsertManyAdvances(target, s, nodes, w.me);
    var (r, closer) := InsertMany(target, s, nodes, w.me, false);
    HasId(r, r[0]);
  }

  method HandleAnswer(w: World, snsa: SafeNodeStateArray, ghost pending: set<TypeID>, from: TypeID,
                      nodes: seq<NodeState>)
    returns (closer: bool)
    requires Waiting(w, snsa, pending) && from in pending
    requires w.me !in w.ids && IdsOf(nodes) <= w.ids + {w.me}
    requires Prompt(w, snsa.Target) ==> Helpful(w, snsa.Target, from, nodes)
    modifies snsa, snsa.buf
    ensures snsa.buf == old(snsa.buf) || fresh(snsa.buf)
    ensures Waiting(w, snsa, pending - {from}) && snsa.Queried == old(snsa.Queried)
    ensures closer ==> HasUnqueried(snsa)
    ensures forall n | n in snsa.Nodes() :: n in old(snsa.Nodes()) || n in nodes
  {
    hide InsertMany, Advanced, Sorted, IdsOf, Helpful, IsOwner, Passed, Prompt;
    ghost var before := snsa.Nodes();
    snsa.SetResponded({from});
    AnswerInserted(w, snsa.Target, before, nodes);
    closer := snsa.InsertArray(nodes, w.me);
    if Prompt(w, snsa.Target) {
      AnswerPasses(w, snsa.Target, before, from, nodes, snsa.Queried - pending);
      assert snsa.Queried - pending + {from} == snsa.Queried - (pending - {from});
    }
  }

  /** A reply of an honest network keeps the addresses true. */
  lemma LocatedMore(w: World, k: nat, pending: set<TypeID>, ticking: bool, before: seq<NodeState>, now: seq<NodeState>)
    requires pending != {} && pending <= w.ids && w.reply(k, pending, ticking).Reply?
    requires forall n | n in now :: n in before || n in w.reply(k, pending, ticking).nodes
    ensures Honest(w) && Located(w, before) ==> Located(w, now)
  {
    if Honest(w) && Located(w, before) { assert Located(w, w.reply(k, pending, ticking).nodes); }
  }

  lemma Chosen(w: World, k: nat, pending: set<TypeID>, ticking: bool, target: TypeID, dead: set<TypeID>)
    requires Network(w) && pending != {} && pending <= w.ids
    ensures var e := w.reply(k, pending, ticking);
            && w.me !in w.ids && Possible(w, pending, ticking, e)
            && (Prompt(w, target) ==> e.Reply? && Helpful(w, target, e.from, e.nodes))
            && (Dead(w, dead) ==> (e.Reply? ==> e.from !in dead) && (!ticking ==> (e.Silence? <==> pending <= dead)))
  {}

  /** One select, with answers to earlier queries coming in before it. */
  method Await(wire: Wire, snsa: SafeNodeStateArray, pending: set<TypeID>, ticking: bool, ghost dead: set<TypeID>)
    returns (e: Event)
    requires Network(wire.w) && pending != {} && Waiting(wire.w, snsa, pending)
    modifies wire, snsa`Responded
    ensures Waiting(wire.w, snsa, pending) && pending <= wire.w.ids
    ensures wire.step == old(wire.step) + 1 && e == wire.w.reply(old(wire.step), pending, ticking)
    ensures wire.awaited == old(wire.awaited) + (if ticking then {} else pending)
    ensures wire.w.me !in wire.w.ids && Possible(wire.w, pending, ticking, e)
    ensures Prompt(wire.w, snsa.Target) ==> e.Reply? && Helpful(wire.w, snsa.Target, e.from, e.nodes)
    ensures Dead(wire.w, dead) ==> (e.Reply? ==> e.from !in dead) && (!ticking ==> (e.Silence? <==> pending <= dead))
  {
    hide Passed, IdsOf, Helpful, Network, Prompt, Dead;
    LateAnswers(wire, snsa);
    e := wire.Select(pending, ticking);
    Chosen(wire.w, wire.step - 1, pending, ticking, snsa.Target, dead);
  }

  /** One turn of the wait: what the select yields, with an answer inserted. */
  method TakeAnswer(wire: Wire, snsa: SafeNodeStateArray, pending: set<TypeID>, ticking: bool, ghost dead: set<TypeID>)
    returns (e: Event, closer: bool)
    requires Network(wire.w) && pending != {} && Waiting(wire.w, snsa, pending)
    modifies wire, snsa, snsa.buf
    ensures snsa.buf == old(snsa.buf) || fresh(snsa.buf)
    ensures Waiting(wire.w, snsa, if e.Reply? then pending - {e.from} else pending)
    ensures snsa.Queried == old(snsa.Queried) && (closer ==> HasUnqueried(snsa))
    ensures !e.Reply? ==> !Prompt(wire.w, snsa.Target) && (forall n :: n in snsa.Nodes() <==> n in old(snsa.Nodes()))
                          && (old(HasUnqueried(snsa)) ==> HasUnqueried(snsa))
    ensures Honest(wire.w) && old(Located(wire.w, snsa.Nodes())) ==> Located(wire.w, snsa.Nodes())
    ensures wire.step > 0 && e == wire.w.reply(wire.step - 1, pending, ticking) && Possible(wire.w, pending, ticking, e)
    ensures wire.awaited == old(wire.awaited) + (if ticking then {} else pending)
    ensures Dead(wire.w, dead) && e.Reply? ==> (pending - {e.from}) * dead == pending * dead
    ensures Dead(wire.w, dead) && !ticking ==> (e.Silence? <==> pending <= dead)
  {
    hide Passed, IdsOf, IsOwner, Helpful, Located, Honest, Network, Prompt, Dead;
    e := Await(wire, snsa, pending, ticking, dead);
    closer := false;
    if e.Reply? {
      ghost var before := snsa.Nodes();
      closer := HandleAnswer(wire.w, snsa, pending, e.from, e.nodes);
      LocatedMore(wire.w, wire.step - 1, pending, ticking, before, snsa.Nodes());
    }
  }

  /** The wait of both round kinds: `closer` is the verdict on the last answer handled. It never ends
      exactly when no ticker runs and a node of the batch is dead. */
  method Collect(wire: Wire, snsa: SafeNodeStateArray, batch: set<TypeID>, ticking: bool, ghost dead: set<TypeID>)
    returns (closer: bool, blocked: bool, ghost waiting: set<TypeID>)
    requires Network(wire.w) && batch != {} && Waiting(wire.w, snsa, batch)
    modifies wire, snsa, snsa.buf
    ensures snsa.buf == old(snsa.buf) || fresh(snsa.buf)
    ensures Explores(wire.w, snsa) && (!blocked ==> Settled(wire.w, snsa))
    ensures snsa.Queried == old(snsa.Queried) && snsa.Nodes() != []
    ensures closer ==> HasUnqueried(snsa)
    ensures blocked ==> !ticking && waiting <= batch && wire.step > 0 && Stuck(wire.w, wire.step - 1, waiting)
    ensures Dead(wire.w, dead) ==> (blocked <==> !ticking && batch * dead != {})
    ensures Dead(wire.w, dead) && blocked ==> waiting == batch * dead
    ensures Honest(wire.w) && old(Located(wire.w, snsa.Nodes())) ==> Located(wire.w, snsa.Nodes())
    ensures wire.awaited == old(wire.awaited) + (if ticking then {} else batch)
  {
    hide Passed, IdsOf, IsOwner, Helpful, Located, Honest, Network, Prompt, Dead;
    closer, blocked, waiting := false, false, {};
    var pending := batch;
    while pending != {}
      invariant snsa.buf == old(snsa.buf) || fresh(snsa.buf)
      invariant Waiting(wire.w, snsa, pending) && snsa.Queried == old(snsa.Queried)
      invariant closer ==> HasUnqueried(snsa)
      invariant pending <= batch && (Dead(wire.w, dead) ==> pending * dead == batch * dead)
      invariant Honest(wire.w) && old(Located(wire.w, snsa.Nodes())) ==> Located(wire.w, snsa.Nodes())
      invariant pending != batch ==> wire.awaited == old(wire.awaited) + (if ticking then {} else batch)
      invariant pending == batch ==> wire.awaited == old(wire.awaited)
      decreases pending
    {
      var e, last := TakeAnswer(wire, snsa, pending, ticking, dead);
      if e.Silence? {
        return closer, true, pending;
      }
      if e.Timeout? {
        return;
      }
      closer := last;
      pending := pending - {e.from};
    }
    assert snsa.Queried - {} == snsa.Queried;
  }

  // ---------------------------------------------------------------- when a lookup blocks

  /** A lookup is blocked only on nodes that its rounds asked and none of which answers; where all but
      the dead nodes answer, exactly if its rounds asked a dead one. */
  ghost predicate Blocks(wire: Wire, dead: set<TypeID>, blocked: bool, waiting: set<TypeID>)
    reads wire
  {
    && (blocked ==> wire.step > 0 && waiting <= wire.awaited && Stuck(wire.w, wire.step - 1, waiting))
    && (Dead(wire.w, dead) ==> (blocked <==> wire.awaited * dead != {}))
  }

  /** None of these nodes is dead. */
  ghost predicate Spared(w: World, dead: set<TypeID>, asked: set<TypeID>) {
    Dead(w, dead) ==> asked * dead == {}
  }

  // ---------------------------------------------------------------- the recursion

  function Unasked(w: World, snsa: SafeNodeStateArray): set<TypeID>
    reads snsa
  {
    w.ids - snsa.Queried
  }

  lemma FewerUnasked(ids: set<TypeID>, before: set<TypeID>, after: set<TypeID>, x: TypeID)
    requires before <= after && x in ids && x in after && x !in before
    ensures |ids - after| < |ids - before|
  {
    var big, small := ids - before, ids - after;
    assert small <= big - {x};
    SubsetSize(small, big - {x});
  }

  /** A frontier with nobody to query is empty when a round begins. */
  lemma NobodyKnown(w: World, snsa: SafeNodeStateArray)
    requires Explores(w, snsa) && (snsa.Nodes() == [] || HasUnqueried(snsa))
    requires Unqueried(snsa.Nodes(), snsa.Queried) == []
    ensures snsa.Nodes() == [] && Outcome(w, snsa, [])
  {
    UnqueriedContents(snsa.Nodes(), snsa.Queried);
  }

  /** Whom a round asks. */
  function Batch(known: seq<NodeState>, queried: set<TypeID>): seq<NodeState> {
    var all := Unqueried(known, queried);
    if |all| < ALPHA then all else all[..ALPHA]
  }

  lemma AllIds(s: seq<NodeState>)
    ensures forall n | n in s :: n.id in IdsOf(s)
  {
    forall n | n in s ensures n.id in IdsOf(s) { HasId(s, n); }
  }

  lemma BatchOfOne(n: NodeState)
    ensures Batch([n], {}) == [n]
  {
    assert [n][..0] == [] && Unqueried([n], {}) == [n];
  }

  /** `lookupRound`: query up to three unqueried nodes and go on. It is entered again only with
      something left to query; each call but the last marks at least one new node as queried. */
  method LookupRound(wire: Wire, snsa: SafeNodeStateArray, ghost dead: set<TypeID>)
    returns (closest: seq<NodeState>, blocked: bool, ghost calls: nat, ghost waiting: set<TypeID>)
    requires Network(wire.w) && Explores(wire.w, snsa) && Settled(wire.w, snsa)
    requires wire.awaited <= snsa.Queried && Spared(wire.w, dead, wire.awaited)
    requires snsa.Nodes() == [] || HasUnqueried(snsa)
    modifies wire, snsa, snsa.buf
    decreases |Unasked(wire.w, snsa)|
    ensures snsa.buf == old(snsa.buf) || fresh(snsa.buf)
    ensures Explores(wire.w, snsa) && (!blocked ==> Outcome(wire.w, snsa, closest))
    ensures old(wire.awaited) <= wire.awaited <= snsa.Queried && Blocks(wire, dead, blocked, waiting)
    ensures old(snsa.Nodes()) != [] ==> snsa.Nodes() != []
    ensures forall n | n in old(Batch(snsa.Nodes(), snsa.Queried)) :: n.id in wire.awaited
    ensures Honest(wire.w) && old(Located(wire.w, snsa.Nodes())) ==> Located(wire.w, snsa.Nodes())
    ensures 1 <= calls <= |old(Unasked(wire.w, snsa))| + 1
  {
    hide Stuck, Dead, Outcome, Network, IdsOf, Settled, HasUnqueried, Unqueried, Final, Located, Honest;
    var closestNodes := snsa.GetAlphaUnqueried(ALPHA);
    UnqueriedContents(snsa.Nodes(), snsa.Queried);
    if |closestNodes| == 0 {
      NobodyKnown(wire.w, snsa);
      return [], false, 1, {};
    }
    NewIds(snsa.Nodes(), closestNodes, snsa.Queried);
    AllIds(closestNodes);
    closest, blocked, calls, waiting := AskAndGoOn(wire, snsa, closestNodes, false, dead);
  }

  /** `lookupFinalPhase`: query the unqueried among the 20 closest live nodes; with none left, the
      responders among them are the result. */
  method LookupFinalPhase(wire: Wire, snsa: SafeNodeStateArray, ghost dead: set<TypeID>)
    returns (closest: seq<NodeState>, blocked: bool, ghost calls: nat, ghost waiting: set<TypeID>)
    requires Network(wire.w) && Explores(wire.w, snsa) && Settled(wire.w, snsa)
    requires wire.awaited <= snsa.Queried && Spared(wire.w, dead, wire.awaited)
    requires snsa.Nodes() != []
    modifies wire, snsa, snsa.buf
    decreases |Unasked(wire.w, snsa)|
    ensures snsa.buf == old(snsa.buf) || fresh(snsa.buf)
    ensures Explores(wire.w, snsa) && (!blocked ==> Outcome(wire.w, snsa, closest))
    ensures old(wire.awaited) <= wire.awaited <= snsa.Queried && Blocks(wire, dead, blocked, waiting)
    ensures snsa.Nodes() != []
    ensures Honest(wire.w) && old(Located(wire.w, snsa.Nodes())) ==> Located(wire.w, snsa.Nodes())
    ensures 1 <= calls <= |old(Unasked(wire.w, snsa))| + 1
  {
    var unqueried;
    unqueried, closest := FinalScan(wire, snsa);
    if |unqueried| == 0 {
      return closest, false, 1, {};
    }
    closest, blocked, calls, waiting := AskAndGoOn(wire, snsa, unqueried, true, dead);
  }

  method FinalScan(wire: Wire, snsa: SafeNodeStateArray) returns (unqueried: seq<NodeState>, responded: seq<NodeState>)
    requires Explores(wire.w, snsa) && Settled(wire.w, snsa) && snsa.Nodes() != []
    modifies snsa`Responded
    ensures Explores(wire.w, snsa) && Settled(wire.w, snsa)
    ensures IdsOf(unqueried) <= snsa.present && IdsOf(unqueried) !! snsa.Queried
    ensures unqueried == [] ==> Outcome(wire.w, snsa, responded)
  {
    LateAnswers(wire, snsa);
    ghost var upTo;
    unqueried, responded, upTo := snsa.GetKClosestUnqueried(BUCKET_SIZE);
    UnqueriedIds(snsa.Nodes(), upTo, snsa.Queried, snsa.Responded);
    if |unqueried| == 0 {
      ScanOutcome(wire.w, snsa, upTo, responded);
    }
  }

  lemma UnqueriedIds(known: seq<NodeState>, upTo: nat, queried: set<TypeID>, responded: set<TypeID>)
    requires upTo <= |known|
    ensures var unqueried := Unqueried(known[..upTo], queried + responded);
            IdsOf(unqueried) <= IdsOf(known) && IdsOf(unqueried) !! queried
  {
    var seen := known[..upTo];
    UnqueriedContents(seen, queried + responded);
    assert forall n | n in seen :: n in known;
    NewIds(known, Unqueried(seen, queried + responded), queried);
  }

  lemma ScanOutcome(w: World, snsa: SafeNodeStateArray, upTo: nat, closest: seq<NodeState>)
    requires Explores(w, snsa) && Settled(w, snsa) && snsa.Nodes() != []
    requires upTo <= snsa.len && Unqueried(snsa.Nodes()[..upTo], snsa.Queried + snsa.Responded) == []
    requires closest == RespondedOf(snsa.Nodes()[..upTo], snsa.Responded)
    requires |closest| <= BUCKET_SIZE && (upTo == snsa.len || |closest| == BUCKET_SIZE)
    ensures Outcome(w, snsa, closest)
  {
    var known, queried, responded := snsa.Nodes(), snsa.Queried, snsa.Responded;
    ScanIsFinal(snsa.Target, known, upTo, queried, responded, closest);
    if Prompt(w, snsa.Target) {
      assert queried + responded == queried;
      HeadIsOwner(w, snsa.Target, known, upTo, queried, closest);
    }
  }

  lemma {:induction false} NewIds(known: seq<NodeState>, batch: seq<NodeState>, queried: set<TypeID>)
    requires forall n | n in batch :: n in known && n.id !in queried
    ensures IdsOf(batch) <= IdsOf(known) && IdsOf(batch) !! queried
  {
    if batch != [] {
      assert batch[0] in batch;
      HasId(known, batch[0]);
      NewIds(known, batch[1..], queried);
    }
  }

  method StartQueries(w: World, snsa: SafeNodeStateArray, batch: seq<NodeState>) returns (pending: set<TypeID>)
    requires Explores(w, snsa) && Settled(w, snsa)
    requires batch != [] && IdsOf(batch) <= snsa.present && IdsOf(batch) !! snsa.Queried
    modifies snsa`Queried
    ensures pending != {} && pending == IdsOf(batch) && Waiting(w, snsa, pending)
    ensures snsa.Queried == old(snsa.Queried) + pending
    ensures |Unasked(w, snsa)| < |old(Unasked(w, snsa))|
  {
    ghost var asked := snsa.Queried;
    assert batch[0].id in IdsOf(batch);
    FewerUnasked(w.ids, asked, asked + IdsOf(batch), batch[0].id);
    pending := QueryAll(snsa, batch);
    assert snsa.Queried - pending == asked;
  }

  /** The common end of both: query the batch, wait, and continue with a round if the last answer
      moved the head, with the final phase otherwise. */
  method AskAndGoOn(wire: Wire, snsa: SafeNodeStateArray, batch: seq<NodeState>, ticking: bool, ghost dead: set<TypeID>)
    returns (closest: seq<NodeState>, blocked: bool, ghost calls: nat, ghost waiting: set<TypeID>)
    requires Network(wire.w) && Explores(wire.w, snsa) && Settled(wire.w, snsa)
    requires wire.awaited <= snsa.Queried && Spared(wire.w, dead, wire.awaited)
    requires batch != [] && IdsOf(batch) <= snsa.present && IdsOf(batch) !! snsa.Queried
    modifies wire, snsa, snsa.buf
    decreases |Unasked(wire.w, snsa)|, 0
    ensures snsa.buf == old(snsa.buf) || fresh(snsa.buf)
    ensures Explores(wire.w, snsa) && (!blocked ==> Outcome(wire.w, snsa, closest))
    ensures old(wire.awaited) <= wire.awaited <= snsa.Queried && Blocks(wire, dead, blocked, waiting)
    ensures snsa.Nodes() != [] && (!ticking ==> IdsOf(batch) <= wire.awaited)
    ensures Honest(wire.w) && old(Located(wire.w, snsa.Nodes())) ==> Located(wire.w, snsa.Nodes())
    ensures 1 <= calls <= |old(Unasked(wire.w, snsa))| + 1
  {
    hide Stuck, Dead, Outcome, Network, IdsOf, Settled, Waiting, HasUnqueried, Explores, Blocks, Spared, Located,
         Honest;
    var closer;
    closer, blocked, waiting := AskBatch(wire, snsa, batch, ticking, dead);
    if blocked {
      return [], true, 1, waiting;
    }
    if closer {
      closest, blocked, calls, waiting := LookupRound(wire, snsa, dead);
    } else {
      closest, blocked, calls, waiting := LookupFinalPhase(wire, snsa, dead);
    }
    calls := calls + 1;
  }

  /** Query a batch and wait for it. */
  method AskBatch(wire: Wire, snsa: SafeNodeStateArray, batch: seq<NodeState>, ticking: bool, ghost dead: set<TypeID>)
    returns (closer: bool, blocked: bool, ghost waiting: set<TypeID>)
    requires Network(wire.w) && Explores(wire.w, snsa) && Settled(wire.w, snsa)
    requires wire.awaited <= snsa.Queried && Spared(wire.w, dead, wire.awaited)
    requires batch != [] && IdsOf(batch) <= snsa.present && IdsOf(batch) !! snsa.Queried
    modifies wire, snsa, snsa.buf
    ensures snsa.buf == old(snsa.buf) || fresh(snsa.buf)
    ensures Explores(wire.w, snsa) && (!blocked ==> Settled(wire.w, snsa))
    ensures snsa.Nodes() != [] && (closer ==> HasUnqueried(snsa))
    ensures wire.awaited == old(wire.awaited) + (if ticking then {} else IdsOf(batch))
    ensures Honest(wire.w) && old(Located(wire.w, snsa.Nodes())) ==> Located(wire.w, snsa.Nodes())
    ensures snsa.Queried == old(snsa.Queried) + IdsOf(batch)
    ensures |Unasked(wire.w, snsa)| < |old(Unasked(wire.w, snsa))|
    ensures Blocks(wire, dead, blocked, waiting) && (!blocked ==> Spared(wire.w, dead, wire.awaited))
  {
    hide Stuck, Dead, Network, IdsOf, Settled, Waiting, HasUnqueried, Located, Honest;
    var pending := StartQueries(wire.w, snsa, batch);
    ghost var was := wire.awaited;
    closer, blocked, waiting := Collect(wire, snsa, pending, ticking, dead);
    if !ticking { assert (was + pending) * dead == was * dead + pending * dead; }
  }

  // ---------------------------------------------------------------- the API

  lemma OwnerUnique(ids: set<TypeID>, target: TypeID, x: TypeID, y: TypeID)
    requires IsOwner(ids, target, x) && IsOwner(ids, target, y)
    ensures x == y
  {
    DistInjective(target, x, y);
  }

  /** The result of a lookup: the initiator inserted into a final list and cut off at 20. */
  ghost predicate Answer(target: TypeID, me: NodeState, known: seq<NodeState>, queried: set<TypeID>,
                         responded: set<TypeID>, closest: seq<NodeState>)
  {
    && Sorted(target, closest) && 1 <= |closest| <= BUCKET_SIZE
    && (forall n | n in closest :: n == me || (n in known && n.id in responded))
    && (forall n | (n in known || n == me) && n !in closest ::
          || (n.id in queried && n.id !in responded)
          || (|closest| == BUCKET_SIZE && forall m | m in closest :: D(target, m) < D(target, n)))
  }

  function Truncated(s: seq<NodeState>): seq<NodeState> {
    if |s| > BUCKET_SIZE then s[..BUCKET_SIZE] else s
  }

  lemma TruncatedAnswer(target: TypeID, me: NodeState, known: seq<NodeState>, queried: set<TypeID>,
                        responded: set<TypeID>, closest: seq<NodeState>)
    requires Final(target, known, queried, responded, closest)
    requires forall n | n in known :: n.id != me.id
    ensures Answer(target, me, known, queried, responded, Truncated(Inserted(target, closest, me)))
    ensures Truncated(Inserted(target, closest, me))[0]
            == if closest == [] || D(target, me) < D(target, closest[0]) then me else closest[0]
  {
    hide Inserted, D;
    ShownNodes(target, me, known, responded, queried, closest);
    var r := Truncated(Inserted(target, closest, me));
    forall n | (n in known || n == me) && n !in r && !(n.id in queried && n.id !in responded)
      ensures |r| == BUCKET_SIZE && forall m | m in r :: D(target, m) < D(target, n)
    {
      LeftOut(target, me, known, queried, responded, closest, n);
    }
  }

  lemma ShownNodes(target: TypeID, me: NodeState, known: seq<NodeState>, responded: set<TypeID>, queried: set<TypeID>,
                   closest: seq<NodeState>)
    requires Final(target, known, queried, responded, closest)
    requires forall n | n in known :: n.id != me.id
    ensures var all, r := Inserted(target, closest, me), Truncated(Inserted(target, closest, me));
            && Sorted(target, all) && Sorted(target, r) && 1 <= |r| <= BUCKET_SIZE
            && (forall n | n in r :: n == me || (n in known && n.id in responded))
            && r[0] == if closest == [] || D(target, me) < D(target, closest[0]) then me else closest[0]
  {
    hide Inserted, D;
    InsertedSorted(target, closest, me);
    InsertedContents(target, closest, me);
    assert forall n | n in Truncated(Inserted(target, closest, me)) :: n in Inserted(target, closest, me);
  }

  /** A live node that is missing from the answer lies beyond a full list. */
  lemma LeftOut(target: TypeID, me: NodeState, known: seq<NodeState>, queried: set<TypeID>, responded: set<TypeID>,
                closest: seq<NodeState>, n: NodeState)
    requires Final(target, known, queried, responded, closest) && Sorted(target, Inserted(target, closest, me))
    requires (n in known || n == me) && n !in Truncated(Inserted(target, closest, me))
             && !(n.id in queried && n.id !in responded)
    ensures var r := Truncated(Inserted(target, closest, me));
            |r| == BUCKET_SIZE && forall m | m in r :: D(target, m) < D(target, n)
  {
    hide Inserted, D;
    InsertedContents(target, closest, me);
    var all := Inserted(target, closest, me);
    if n in all {
      CutOff(target, all, n);
    } else {
      CutOffBeyond(target, all, closest, me, n);
    }
  }

  lemma CutOff(target: TypeID, all: seq<NodeState>, n: NodeState)
    requires Sorted(target, all) && n in all && n !in Truncated(all)
    ensures |Truncated(all)| == BUCKET_SIZE && forall m | m in Truncated(all) :: D(target, m) < D(target, n)
  {}

  /** A full list without `n` stays closer than `n` when one node is inserted and one cut off. */
  lemma CutOffBeyond(target: TypeID, all: seq<NodeState>, closest: seq<NodeState>, me: NodeState, n: NodeState)
    requires Sorted(target, all) && |closest| == BUCKET_SIZE && |all| == BUCKET_SIZE + 1
    requires forall m | m in closest :: m in all && D(target, m) < D(target, n)
    requires forall m | m in all :: m in closest || m == me
    ensures forall m | m in Truncated(all) :: D(target, m) < D(target, n)
  {
    var r := Truncated(all);
    var last := all[BUCKET_SIZE];
    forall m | m in r ensures D(target, m) < D(target, n) {
      var j :| 0 <= j < |r| && r[j] == m;
      assert all[j] == m && D(target, m) < D(target, last);
      assert m in all && last in all;
    }
  }

  /** The first of the seeds that is not the initiator. */
  function FirstOther(seeds: seq<NodeState>, me: TypeID): seq<NodeState> {
    if seeds == [] then [] else if seeds[0].id != me then [seeds[0]] else FirstOther(seeds[1..], me)
  }

  /** Seeding keeps just that one: it becomes the head, and the rest of the list is not inserted. */
  lemma {:induction false} SeedKeepsOne(target: TypeID, seeds: seq<NodeState>, me: TypeID)
    ensures InsertMany(target, [], seeds, me, false).0 == FirstOther(seeds, me)
  {
    if seeds != [] {
      if seeds[0].id == me {
        SeedKeepsOne(target, seeds[1..], me);
      } else {
        InsertManyDone(target, [seeds[0]], seeds[1..], me);
      }
    }
  }

  method Seed(w: World, id: TypeID, seeds: seq<NodeState>) returns (snsa: SafeNodeStateArray)
    requires w.me !in w.ids && IdsOf(seeds) <= w.ids + {w.me}
    ensures fresh(snsa) && fresh(snsa.buf) && snsa.Target == id && snsa.Queried == {} && snsa.Responded == {}
    ensures Explores(w, snsa) && Settled(w, snsa)
    ensures snsa.Nodes() == [] || HasUnqueried(snsa)
    ensures (exists n :: n in seeds && n.id != w.me) ==> snsa.Nodes() != []
    ensures snsa.Nodes() == FirstOther(seeds, w.me) && (Located(w, seeds) ==> Located(w, snsa.Nodes()))
  {
    snsa := new SafeNodeStateArray(id);
    InsertManyAdvances(id, [], seeds, w.me);
    SeedKeepsOne(id, seeds, w.me);
    var closer := snsa.InsertArray(seeds, w.me);
    if n :| n in seeds && n.id != w.me {
      HasId(seeds, n);
      assert n.id in IdsOf(seeds) - {w.me};
    }
    assert snsa.Nodes() != [] ==> snsa.Nodes()[0] in snsa.Nodes();
  }

  method AddSelf(id: TypeID, closest: seq<NodeState>, me: NodeState) returns (r: seq<NodeState>)
    ensures r == Truncated(Inserted(id, closest, me))
  {
    var buf := new NodeState[|closest|](i requires 0 <= i < |closest| => closest[i]);
    assert buf[..|closest|] == closest;
    var out := InsertOrdered(id, buf, |closest|, me);
    r := out[..|closest| + 1];
    if |r| > BUCKET_SIZE {
      r := r[..BUCKET_SIZE];
    }
  }

  lemma OthersOnly(known: seq<NodeState>, ids: set<TypeID>, me: TypeID)
    requires IdsOf(known) <= ids && me !in ids
    ensures forall n | n in known :: n.id != me
  {}

  lemma FirstIsOwner(w: World, id: TypeID, closest: seq<NodeState>, me: NodeState)
    requires me.id == w.me && closest != [] && IsOwner(w.ids, id, closest[0].id)
    ensures IsOwner(w.ids + {w.me}, id, (if D(id, me) < D(id, closest[0]) then me else closest[0]).id)
  {
  }

  lemma NotStuck(wire: Wire, snsa: SafeNodeStateArray, target: TypeID, dead: set<TypeID>, waiting: set<TypeID>)
    requires Explores(wire.w, snsa) && wire.awaited <= snsa.Queried && Blocks(wire, dead, true, waiting)
    ensures !Answering(wire.w) && !Prompt(wire.w, target)
  {
    assert waiting <= wire.w.ids;
  }

  /** Seed the frontier and start the first round. */
  method LookupSeeds(wire: Wire, id: TypeID, seeds: seq<NodeState>, ghost dead: set<TypeID>)
    returns (s: SafeNodeStateArray, found: seq<NodeState>, blocked: bool, ghost calls: nat, ghost waiting: set<TypeID>)
    requires Network(wire.w) && IdsOf(seeds) <= wire.w.ids + {wire.w.me}
    modifies wire
    ensures fresh(s) && Explores(wire.w, s) && s.Target == id && (!blocked ==> Outcome(wire.w, s, found))
    ensures wire.awaited <= s.Queried && Blocks(wire, dead, blocked, waiting)
    ensures forall n | n in FirstOther(seeds, wire.w.me) :: n.id in wire.awaited
    ensures Honest(wire.w) && Located(wire.w, seeds) ==> Located(wire.w, s.Nodes())
    ensures (exists n :: n in seeds && n.id != wire.w.me) ==> s.Nodes() != []
    ensures calls <= |wire.w.ids| + 1
  {
    hide Stuck, Dead, Outcome, Answering, Prompt, Final, Settled, Possible, Located, Honest, Blocks, IsOwner;
    s := Seed(wire.w, id, seeds);
    FirstOtherOne(seeds, wire.w.me);
    if s.Nodes() != [] { BatchOfOne(s.Nodes()[0]); }
    wire.awaited := {};
    found, blocked, calls, waiting := LookupRound(wire, s, dead);
  }

  /** `LookupNodes`: whatever the network does, the answer is a truncated sorted frontier, unless a round
      waits for ever; over a prompt and helpful network its first node is the closest of all nodes.
      `awaited` are the nodes its rounds asked, without a ticker: the lookup never returns exactly when one
      of them is dead. The first seed is always asked. */
  method LookupNodes(wire: Wire, id: TypeID, seeds: seq<NodeState>, address: string, ghost dead: set<TypeID>)
    returns (closest: seq<NodeState>, blocked: bool, ghost snsa: SafeNodeStateArray, ghost calls: nat,
             ghost waiting: set<TypeID>)
    requires Network(wire.w) && IdsOf(seeds) <= wire.w.ids + {wire.w.me}
    modifies wire
    ensures fresh(snsa) && Explores(wire.w, snsa) && snsa.Target == id
    ensures !blocked ==> Answer(id, NodeState(wire.w.me, address), snsa.Nodes(), snsa.Queried, snsa.Responded, closest)
    ensures wire.awaited <= snsa.Queried && Blocks(wire, dead, blocked, waiting)
    ensures forall n | n in FirstOther(seeds, wire.w.me) :: n.id in wire.awaited
    ensures Honest(wire.w) && Located(wire.w, seeds) && address == wire.w.address(wire.w.me) && !blocked ==>
              Located(wire.w, closest)
    ensures Answering(wire.w) || Prompt(wire.w, id) ==> !blocked
    ensures Prompt(wire.w, id) && (exists n :: n in seeds && n.id != wire.w.me) ==>
              IsOwner(wire.w.ids + {wire.w.me}, id, closest[0].id)
    ensures calls <= |wire.w.ids| + 1
  {
    hide Stuck, Dead, Answer, Inserted, Answering, Prompt, Final, Settled, Possible, Located, Honest, Blocks,
         IsOwner;
    var found;
    var s;
    s, found, blocked, calls, waiting := LookupSeeds(wire, id, seeds, dead);
    snsa := s;
    if blocked {
      NotStuck(wire, s, id, dead, waiting);
      return [], true, snsa, calls, waiting;
    }
    closest := WithSelf(wire.w, s, found, address);
  }

  lemma AnswerLocated(w: World, target: TypeID, me: NodeState, known: seq<NodeState>, queried: set<TypeID>,
                      responded: set<TypeID>, closest: seq<NodeState>)
    requires Answer(target, me, known, queried, responded, closest)
    ensures Located(w, known) && me.address == w.address(me.id) ==> Located(w, closest)
  {}

  /** The end of a lookup that returned: the initiator joins the list. */
  method WithSelf(w: World, snsa: SafeNodeStateArray, found: seq<NodeState>, address: string)
    returns (closest: seq<NodeState>)
    requires Explores(w, snsa) && Outcome(w, snsa, found) && w.me !in w.ids
    ensures Answer(snsa.Target, NodeState(w.me, address), snsa.Nodes(), snsa.Queried, snsa.Responded, closest)
    ensures Prompt(w, snsa.Target) && snsa.Nodes() != [] ==> IsOwner(w.ids + {w.me}, snsa.Target, closest[0].id)
    ensures Located(w, snsa.Nodes()) && address == w.address(w.me) ==> Located(w, closest)
  {
    hide Answer, Inserted, Prompt, Final, IsOwner, Located;
    var id, myNode := snsa.Target, NodeState(w.me, address);
    OthersOnly(snsa.Nodes(), w.ids, w.me);
    TruncatedAnswer(id, myNode, snsa.Nodes(), snsa.Queried, snsa.Responded, found);
    closest := AddSelf(id, found, myNode);
    AnswerLocated(w, id, myNode, snsa.Nodes(), snsa.Queried, snsa.Responded, closest);
    if found != [] && IsOwner(w.ids, id, found[0].id) {
      FirstIsOwner(w, id, found, myNode);
    }
  }

  lemma {:induction false} FirstOtherOne(seeds: seq<NodeState>, me: TypeID)
    ensures FirstOther(seeds, me) == [] || |FirstOther(seeds, me)| == 1
  {
    if seeds != [] && seeds[0].id == me {
      FirstOtherOne(seeds[1..], me);
    }
  }

  /** `StoreInDHT`: the data goes to the first node found, and nowhere exactly when a round asks a dead
      node. Over a prompt and helpful network that node is the closest of all nodes to the key, whoever
      stores. */
  method StoreInDHT(wire: Wire, key: TypeID, seeds: seq<NodeState>, address: string, ghost dead: set<TypeID>)
    returns (owner: Option<NodeState>)
    requires Network(wire.w) && IdsOf(seeds) <= wire.w.ids + {wire.w.me}
    modifies wire
    ensures Dead(wire.w, dead) ==> (owner.None? <==> wire.awaited * dead != {})
    ensures wire.awaited <= wire.w.ids && forall n | n in FirstOther(seeds, wire.w.me) :: n.id in wire.awaited
    ensures Honest(wire.w) && Located(wire.w, seeds) && address == wire.w.address(wire.w.me) && owner.Some? ==>
              owner.value.address == wire.w.address(owner.value.id)
    ensures Answering(wire.w) || Prompt(wire.w, key) ==> owner.Some?
    ensures Prompt(wire.w, key) && (exists n :: n in seeds && n.id != wire.w.me) ==>
              IsOwner(wire.w.ids + {wire.w.me}, key, owner.value.id)
  {
    hide Dead, Answering, Prompt, Network;
    var closest, blocked;
    ghost var snsa, calls, waiting;
    closest, blocked, snsa, calls, waiting := LookupNodes(wire, key, seeds, address, dead);
    owner := if blocked then None else Some(closest[0]);
  }

  /** Two initiators in one network store a key at the same node. */
  method OwnersAgree(a: Wire, b: Wire, key: TypeID, seedsA: seq<NodeState>, seedsB: seq<NodeState>)
    returns (x: Option<NodeState>, y: Option<NodeState>)
    requires a != b && a.w.ids + {a.w.me} == b.w.ids + {b.w.me}
    requires Network(a.w) && IdsOf(seedsA) <= a.w.ids + {a.w.me} && Prompt(a.w, key)
    requires Network(b.w) && IdsOf(seedsB) <= b.w.ids + {b.w.me} && Prompt(b.w, key)
    requires (exists n :: n in seedsA && n.id != a.w.me) && (exists n :: n in seedsB && n.id != b.w.me)
    modifies a, b
    ensures x.Some? && y.Some? && x.value.id == y.value.id
  {
    x := StoreInDHT(a, key, seedsA, "", {});
    y := StoreInDHT(b, key, seedsB, "", {});
    OwnerUnique(a.w.ids + {a.w.me}, key, x.value.id, y.value.id);
  }

  /** A lookup that never returns: the only other node was heard of once and has gone since. */
  method SilentSeed(me: TypeID, gone: NodeState, id: TypeID) returns (blocked: bool)
    requires gone.id != me
    ensures blocked
  {
    var w := World(me, {gone.id}, (k, pending, ticking) => if ticking then Timeout else Silence, k => {}, id => "");
    var wire := new Wire(w);
    assert forall pending | pending != {} && pending <= w.ids :: pending <= {gone.id};
    HasId([gone], gone);
    assert IdsOf([gone][1..]) == {};
    var closest;
    ghost var snsa, calls, waiting;
    closest, blocked, snsa, calls, waiting := LookupNodes(wire, id, [gone], "", {gone.id});
    assert gone in FirstOther([gone], me) && gone.id in wire.awaited * {gone.id};
  }
}
