/**
 Anti-entropy inside a run of the whole network: how far complete exchanges lift a log, whatever
 else happens between and during them.
 */
module Exchanges {
  import opened Words
  import opened Messages
  import opened Routing
  import opened Gossip
  import opened Prefix
  import opened AntiEntropy

  /** The log of `o` at node `a`. */
  function LogAt(s: State, a: Address, o: string): Log {
    if a in s.nodes then LogOf(s.nodes[a].msgs, o) else map[]
  }

  ghost function HeightAt(s: State, a: Address, o: string): uint32 {
    MaxId(LogAt(s, a, o).Keys)
  }

  // ---------------------------------------------------------------- logs only grow

  ghost predicate Grown(s: State, t: State, a: Address, o: string) {
    && HeightAt(s, a, o) <= HeightAt(t, a, o)
    && forall i | i in LogAt(s, a, o) :: i in LogAt(t, a, o) && LogAt(t, a, o)[i] == LogAt(s, a, o)[i]
  }

  lemma AddedGrows(m: Store, r: Rumor, o: string)
    requires IsPrefix(LogOf(m, r.origin)) && r.id >= 1
    ensures MaxId(LogOf(m, o).Keys) <= MaxId(LogOf(Added(m, r), o).Keys)
    ensures forall i | i in LogOf(m, o) :: i in LogOf(Added(m, r), o) && LogOf(Added(m, r), o)[i] == LogOf(m, o)[i]
  {
    AddedExtends(m, r);
  }

  /** Only publishing and storing change a store, and they add one message at most. */
  lemma StepGrows(s: State, e: Event, a: Address, o: string)
    requires LogInv(s) && Enabled(s, e) && Bounded(Apply(s, e))
    ensures Grown(s, Apply(s, e), a, o)
  {
    if a in s.nodes && (e.Client? || e.RumorStored?) && a == e.at {
      var n := s.nodes[a];
      assert NodeLogs(s, a);
      if e.Client? {
        assert Holds(s, n.name, LogOf(n.msgs, n.name));
        ClientCounts(s, e);
        AddedGrows(n.msgs, Rumor(n.name, n.counter, e.text), o);
      } else {
        var m := n.handling.value.1;
        assert Holds(s, m.origin, LogOf(n.msgs, m.origin));
        AddedGrows(n.msgs, m, o);
      }
    } else if a in s.nodes {
      OtherStore(s, e, a);
    } else {
      StepKeepsNames(s, e);
    }
  }

  lemma OtherStore(s: State, e: Event, a: Address)
    requires Enabled(s, e) && a in s.nodes && ((e.Client? || e.RumorStored?) ==> a != e.at)
    ensures a in Apply(s, e).nodes && Apply(s, e).nodes[a].msgs == s.nodes[a].msgs
  {}

  datatype Trace = Trace(states: seq<State>, events: seq<Event>)

  /** A run of which the last state is bounded. */
  ghost predicate BoundedRun(r: Trace) {
    |r.states| == |r.events| + 1 && Run(r.states, r.events) && Bounded(r.states[|r.events|])
  }

  lemma {:induction false} BoundedBefore(r: Trace, k: nat)
    requires BoundedRun(r) && k <= |r.events|
    ensures Bounded(r.states[k]) && LogInv(r.states[k])
    decreases |r.events| - k
  {
    hide LogInv, Bounded, Apply, Enabled;
    if k < |r.events| {
      BoundedBefore(r, k + 1);
      StepGrowsTexts(r.states[k], r.events[k]);
    }
    RunKeepsLogs(r.states, r.events, k);
  }

  lemma {:induction false} RunGrows(r: Trace, j: nat, k: nat, a: Address, o: string)
    requires BoundedRun(r) && j <= k <= |r.events|
    ensures Grown(r.states[j], r.states[k], a, o)
    decreases k
  {
    hide LogInv, Bounded, Apply, Enabled, LogAt, HeightAt;
    if j < k {
      RunGrows(r, j, k - 1, a, o);
      BoundedBefore(r, k - 1);
      BoundedBefore(r, k);
      assert r.states[k] == Apply(r.states[k - 1], r.events[k - 1]);
      StepGrows(r.states[k - 1], r.events[k - 1], a, o);
    }
  }

  lemma GoodStore(r: Trace, k: nat, a: Address)
    requires BoundedRun(r) && k <= |r.events| && a in r.states[k].nodes
    ensures Good(r.states[k].nodes[a].msgs)
  {
    hide LogInv, Bounded, GoodLog;
    BoundedBefore(r, k);
    var m := r.states[k].nodes[a].msgs;
    forall o | o in m ensures GoodLog(m[o], o) { NodeLogGood(r.states[k], a, o); }
  }

  // ---------------------------------------------------------------- one exchange

  /** At step `k` the gossiper `q` stores the message `m`, from whomever it came. */
  ghost predicate StoresNow(r: Trace, k: nat, q: Address, m: Rumor)
    requires |r.states| == |r.events| + 1
  {
    && k < |r.events| && r.events[k].RumorStored? && r.events[k].at == q && q in r.states[k].nodes
    && r.states[k].nodes[q].handling.Some? && r.states[k].nodes[q].handling.value.1 == m
  }

  /** Messages of one origin on their way between two gossipers. */
  datatype Flow = Flow(sender: Address, receiver: Address, origin: string)

  ghost function Sent(r: Trace, f: Flow, k: nat): nat
    requires k < |r.states|
  {
    HeightAt(r.states[k], f.sender, f.origin) as nat
  }

  ghost function Received(r: Trace, f: Flow, k: nat): nat
    requires k < |r.states|
  {
    HeightAt(r.states[k], f.receiver, f.origin) as nat
  }

  /** A complete exchange between the steps `first` and `last`: a status of the receiver taken at step `t`
      reaches the sender at step `j`, and what that sends of the origin in return is stored. */
  ghost predicate Exchanges(r: Trace, f: Flow, first: nat, last: nat)
    requires |r.states| == |r.events| + 1
  {
    exists t: nat, j: nat :: ExchangesAt(r, f, first, last, t, j)
  }

  ghost predicate ExchangesAt(r: Trace, f: Flow, first: nat, last: nat, t: nat, j: nat)
    requires |r.states| == |r.events| + 1
  {
    && first <= t <= j < last <= |r.events|
    && f.receiver in r.states[t].nodes && f.sender in r.states[j].nodes
    && r.events[j].StatusArrives? && r.events[j].statusPacket.StatusPacket?
    && var sp := r.events[j].statusPacket;
    && sp.src == f.receiver && sp.dst == f.sender && Lists(sp.want, Status(r.states[t].nodes[f.receiver].msgs))
    && forall x | x in Served(r.states[j].nodes[f.sender], f.sender, f.receiver, sp.want) ::
         x.RumorPacket? && x.rumor.origin == f.origin ==> StoredBetween(r, f.receiver, x.rumor, j, last)
  }

  ghost predicate StoredBetween(r: Trace, q: Address, m: Rumor, j: nat, last: nat)
    requires |r.states| == |r.events| + 1
  {
    exists l: nat :: j < l < last && StoresNow(r, l, q, m)
  }

  /** Storing a message that was the next one lifts the log to it, unless it is higher already. */
  lemma StoredLifts(r: Trace, l: nat, q: Address, m: Rumor)
    requires BoundedRun(r) && StoresNow(r, l, q, m)
    requires m.id >= 1 && HeightAt(r.states[l], q, m.origin) + 1 >= m.id as int
    ensures HeightAt(r.states[l + 1], q, m.origin) >= m.id
  {
    hide Run, Bounded, LogInv;
    GoodStore(r, l, q);
    HeightOf(r.states[l].nodes[q].msgs, m.origin);
    AddedExtends(r.states[l].nodes[q].msgs, m);
    Applied(r, l);
  }

  lemma Applied(r: Trace, l: nat)
    requires Run(r.states, r.events) && l < |r.events|
    ensures Enabled(r.states[l], r.events[l]) && r.states[l + 1] == Apply(r.states[l], r.events[l])
  {}

  /** One exchange closes an open gap by one message at least. */
  lemma ExchangeLifts(r: Trace, f: Flow, first: nat, last: nat)
    requires BoundedRun(r) && Exchanges(r, f, first, last)
    ensures last <= |r.events|
    ensures Received(r, f, last) >= Min(Sent(r, f, first), Received(r, f, first) + 1)
  {
    hide Run, Bounded, LogInv, Served, Lists, StoresNow, Good, Enabled, Apply;
    var t: nat, j: nat :| ExchangesAt(r, f, first, last, t, j);
    RunGrows(r, first, t, f.receiver, f.origin);
    RunGrows(r, t, last, f.receiver, f.origin);
    RunGrows(r, first, j, f.sender, f.origin);
    if Sent(r, f, j) > Received(r, f, t) {
      ExchangeServes(r, f, first, last, t, j);
    }
  }

  /** The message the receiver lacks is sent, and storing it closes the gap by one. */
  lemma ExchangeServes(r: Trace, f: Flow, first: nat, last: nat, t: nat, j: nat)
    requires BoundedRun(r) && ExchangesAt(r, f, first, last, t, j)
    requires Sent(r, f, j) > Received(r, f, t)
    ensures Received(r, f, last) >= Received(r, f, t) + 1
  {
    hide Run, Bounded, LogInv, Served, Lists, StoresNow, Good, Enabled, Apply;
    var n, before := r.states[j].nodes[f.sender], r.states[t].nodes[f.receiver].msgs;
    var want := r.events[j].statusPacket.want;
    GoodStore(r, t, f.receiver);
    GoodStore(r, j, f.sender);
    var x := AheadIsServed(n, before, f.sender, f.receiver, want, f.origin);
    ServedIsNext(n, before, f.sender, f.receiver, want, x);
    assert StoredBetween(r, f.receiver, x.rumor, j, last);
    var l: nat :| j < l < last && StoresNow(r, l, f.receiver, x.rumor);
    RunGrows(r, t, l, f.receiver, f.origin);
    StoredLifts(r, l, f.receiver, x.rumor);
    RunGrows(r, l + 1, last, f.receiver, f.origin);
  }

  // ---------------------------------------------------------------- k exchanges

  /** Complete exchanges one after the other, each between two neighbouring `cuts` of the run. */
  ghost predicate Successive(r: Trace, f: Flow, cuts: seq<nat>)
    requires |r.states| == |r.events| + 1
  {
    && cuts != [] && (forall i | 0 <= i < |cuts| :: cuts[i] <= |r.events|)
    && forall i | 0 <= i < |cuts| - 1 :: Exchanges(r, f, cuts[i], cuts[i + 1])
  }

  /** After `k` complete exchanges of any run, whatever else happened meanwhile, the receiver holds at
      least `k` messages more than before, or all that the sender held before. */
  lemma {:induction false} ExchangesLift(r: Trace, f: Flow, cuts: seq<nat>)
    requires BoundedRun(r) && Successive(r, f, cuts)
    ensures Received(r, f, cuts[|cuts| - 1]) >= Min(Sent(r, f, cuts[0]), Received(r, f, cuts[0]) + |cuts| - 1)
    decreases |cuts|
  {
    hide BoundedRun, Exchanges, HeightAt;
    RunLength(r);
    if |cuts| > 1 {
      var front := cuts[..|cuts| - 1];
      ExchangesLift(r, f, front);
      var i := |cuts| - 2;
      assert front[|front| - 1] == cuts[i] && front[0] == cuts[0];
      assert Exchanges(r, f, cuts[i], cuts[i + 1]);
      CutsGrow(r, f, cuts, i);
      StatesGrow(r, cuts[0], cuts[i], f.sender, f.origin);
      ExchangeLifts(r, f, cuts[i], cuts[i + 1]);
    }
  }

  lemma RunLength(r: Trace)
    requires BoundedRun(r)
    ensures |r.states| == |r.events| + 1
  {}

  lemma StatesGrow(r: Trace, j: nat, k: nat, a: Address, o: string)
    requires BoundedRun(r) && j <= k <= |r.events|
    ensures HeightAt(r.states[j], a, o) <= HeightAt(r.states[k], a, o)
  {
    RunGrows(r, j, k, a, o);
  }

  lemma {:induction false} CutsGrow(r: Trace, f: Flow, cuts: seq<nat>, i: nat)
    requires |r.states| == |r.events| + 1 && Successive(r, f, cuts) && i < |cuts|
    ensures cuts[0] <= cuts[i]
    decreases i
  {
    if i > 0 {
      CutsGrow(r, f, cuts, i - 1);
      assert Exchanges(r, f, cuts[i - 1], cuts[i - 1 + 1]);
      var t: nat, j: nat :| ExchangesAt(r, f, cuts[i - 1], cuts[i], t, j);
    }
  }

  /** As many exchanges as the receiver is behind deliver every message the sender held at the start. */
  lemma ExchangesDeliver(r: Trace, f: Flow, cuts: seq<nat>, i: uint32)
    requires BoundedRun(r) && Successive(r, f, cuts)
    requires Sent(r, f, cuts[0]) <= Received(r, f, cuts[0]) + |cuts| - 1
    requires i in LogAt(r.states[cuts[0]], f.sender, f.origin) && f.receiver in r.states[0].nodes
    ensures var log := LogAt(r.states[cuts[|cuts| - 1]], f.receiver, f.origin);
            i in log && log[i] == LogAt(r.states[cuts[0]], f.sender, f.origin)[i]
  {
    hide LogInv, Bounded, Run, Exchanges, GoodLog;
    var s, t := r.states[cuts[0]], r.states[cuts[|cuts| - 1]];
    ExchangesLift(r, f, cuts);
    CutsGrow(r, f, cuts, |cuts| - 1);
    RunGrows(r, cuts[0], cuts[|cuts| - 1], f.sender, f.origin);
    SameNodes(r, cuts[|cuts| - 1], f.receiver);
    BoundedBefore(r, cuts[0]);
    BoundedBefore(r, cuts[|cuts| - 1]);
    NodeLogGood(s, f.sender, f.origin);
    NodeLogGood(t, f.sender, f.origin);
    NodeLogGood(t, f.receiver, f.origin);
  }

  lemma {:induction false} SameNodes(r: Trace, k: nat, a: Address)
    requires Run(r.states, r.events) && k <= |r.events| && a in r.states[0].nodes
    ensures a in r.states[k].nodes
  {
    if k > 0 {
      SameNodes(r, k - 1, a);
      StepKeepsNames(r.states[k - 1], r.events[k - 1]);
    }
  }
}
