/** The sorted frontier of a node lookup (dht/helpers.go, dht/SafeNodeStateArray.go). */
module Frontier {
  import opened Ids

  /** How many nodes a k-bucket and the answer of a lookup hold. */
  const BUCKET_SIZE := 20

  datatype NodeState = NodeState(id: TypeID, address: string)

  function D(target: TypeID, n: NodeState): nat {
    Dist(target, n.id)
  }

  /** From closest to furthest away. */
  ghost predicate Ordered(target: TypeID, s: seq<NodeState>) {
    forall i, j | 0 <= i < j < |s| :: D(target, s[i]) <= D(target, s[j])
  }

  ghost predicate Sorted(target: TypeID, s: seq<NodeState>) {
    forall i, j | 0 <= i < j < |s| :: D(target, s[i]) < D(target, s[j])
  }

  function IdsOf(s: seq<NodeState>): set<TypeID> {
    if s == [] then {} else {s[0].id} + IdsOf(s[1..])
  }

  lemma {:induction false} HasId(s: seq<NodeState>, n: NodeState)
    requires n in s
    ensures n.id in IdsOf(s)
  {
    if n != s[0] {
      HasId(s[1..], n);
    }
  }

  lemma {:induction false} HolderOf(s: seq<NodeState>, x: TypeID) returns (n: NodeState)
    requires x in IdsOf(s)
    ensures n in s && n.id == x
  {
    if x == s[0].id {
      n := s[0];
    } else {
      n := HolderOf(s[1..], x);
    }
  }

  // ---------------------------------------------------------------- ordered insertion

  /** `p` goes in front of the first element that is further away. */
  function Inserted(target: TypeID, s: seq<NodeState>, p: NodeState): seq<NodeState> {
    if s == [] then [p]
    else if D(target, p) < D(target, s[0]) then [p] + s
    else [s[0]] + Inserted(target, s[1..], p)
  }

  lemma {:induction false} InsertedContents(target: TypeID, s: seq<NodeState>, p: NodeState)
    ensures multiset(Inserted(target, s, p)) == multiset(s) + multiset{p}
    ensures forall n :: n in Inserted(target, s, p) <==> n in s || n == p
    ensures |Inserted(target, s, p)| == |s| + 1
  {
    if s != [] && D(target, p) >= D(target, s[0]) {
      InsertedContents(target, s[1..], p);
      assert s == [s[0]] + s[1..];
    }
  }

  lemma {:induction false} InsertedOrdered(target: TypeID, s: seq<NodeState>, p: NodeState)
    requires Ordered(target, s)
    ensures Ordered(target, Inserted(target, s, p))
  {
    if s != [] && D(target, p) >= D(target, s[0]) {
      InsertedOrdered(target, s[1..], p);
      InsertedContents(target, s[1..], p);
      var r := Inserted(target, s[1..], p);
      forall j | 0 <= j < |r| ensures D(target, s[0]) <= D(target, r[j]) {
        assert r[j] in r;
      }
    }
  }

  lemma {:induction false} InsertedIds(target: TypeID, s: seq<NodeState>, p: NodeState)
    ensures IdsOf(Inserted(target, s, p)) == IdsOf(s) + {p.id}
  {
    if s != [] {
      InsertedIds(target, s[1..], p);
      if D(target, p) < D(target, s[0]) {
        assert ([p] + s)[1..] == s;
      } else {
        var rest := Inserted(target, s[1..], p);
        assert ([s[0]] + rest)[1..] == rest;
      }
    }
  }

  lemma SortedCons(target: TypeID, first: NodeState, rest: seq<NodeState>)
    requires Sorted(target, rest) && forall n | n in rest :: D(target, first) < D(target, n)
    ensures Sorted(target, [first] + rest)
  {}

  lemma HeadBelow(target: TypeID, s: seq<NodeState>, n: NodeState)
    requires Sorted(target, s) && s != [] && n in s[1..]
    ensures D(target, s[0]) < D(target, n)
  {
  }

  /** A node whose ID is not in a strictly sorted list can be inserted, and the list stays so. */
  lemma {:induction false} InsertedSorted(target: TypeID, s: seq<NodeState>, p: NodeState)
    requires Sorted(target, s) && forall n | n in s :: n.id != p.id
    ensures Sorted(target, Inserted(target, s, p))
    ensures Inserted(target, s, p)[0] == if s == [] || D(target, p) < D(target, s[0]) then p else s[0]
  {
    if s == [] {
    } else if D(target, p) < D(target, s[0]) {
      forall n | n in s ensures D(target, p) < D(target, n) {
        if n in s[1..] { HeadBelow(target, s, n); } else { assert n == s[0]; }
      }
      SortedCons(target, p, s);
    } else {
      assert s[0] in s;
      if D(target, p) == D(target, s[0]) { DistInjective(target, p.id, s[0].id); }
      InsertedSorted(target, s[1..], p);
      InsertedContents(target, s[1..], p);
      forall n | n in Inserted(target, s[1..], p) ensures D(target, s[0]) < D(target, n) {
        if n in s[1..] { HeadBelow(target, s, n); }
      }
      SortedCons(target, s[0], Inserted(target, s[1..], p));
    }
  }

  /** The position at which `InsertOrdered` stops gives the inserted list. */
  lemma {:induction false} InsertedAt(target: TypeID, s: seq<NodeState>, p: NodeState, i: nat)
    requires i <= |s|
    requires forall k | 0 <= k < i :: D(target, s[k]) <= D(target, p)
    requires i < |s| ==> D(target, p) < D(target, s[i])
    ensures Inserted(target, s, p) == s[..i] + [p] + s[i..]
  {
    if i > 0 {
      InsertedAt(target, s[1..], p, i - 1);
      assert s[1..][..i - 1] == s[1..i] && s[1..][i - 1..] == s[i..];
      assert s[..i] == [s[0]] + s[1..i];
    }
  }

  /** Go's `append(buf[:at], items...)`: in place when the capacity suffices. */
  method Append(buf: array<NodeState>, at: nat, items: seq<NodeState>) returns (out: array<NodeState>)
    requires at <= buf.Length
    modifies buf
    ensures out == buf || fresh(out)
    ensures at + |items| <= out.Length && out[..at + |items|] == old(buf[..at]) + items
  {
    out := buf;
    if at + |items| > buf.Length {
      out := new NodeState[2 * (at + |items|)];
      for i := 0 to at
        invariant out[..i] == buf[..i] && buf[..] == old(buf[..])
      {
        out[i] := buf[i];
      }
    }
    ghost var front := old(buf[..at]);
    assert out[..at] == front;
    for i := 0 to |items|
      invariant out[..at + i] == front + items[..i]
    {
      out[at + i] := items[i];
      assert out[..at + i + 1] == out[..at + i] + [items[i]];
    }
  }

  /** `InsertOrdered` on the slice `buf[..len]`. The tail is copied before it is overwritten. */
  method InsertOrdered(target: TypeID, buf: array<NodeState>, len: nat, potential: NodeState)
    returns (out: array<NodeState>)
    requires len <= buf.Length
    modifies buf
    ensures out == buf || fresh(out)
    ensures len + 1 <= out.Length && out[..len + 1] == Inserted(target, old(buf[..len]), potential)
  {
    for i := 0 to len
      invariant buf[..] == old(buf[..])
      invariant forall k | 0 <= k < i :: D(target, buf[k]) <= D(target, potential)
    {
      var closer := IsCloser(target, buf[i].id, potential.id);
      if closer {
        ghost var s := buf[..len];
        InsertedAt(target, s, potential, i);
        var temp := [potential] + buf[i..len];
        assert s[i..] == buf[i..len] && s[..i] == buf[..i];
        out := Append(buf, i, temp);
        assert s[..i] + temp == s[..i] + [potential] + s[i..];
        return;
      }
    }
    InsertedAt(target, buf[..len], potential, len);
    out := Append(buf, len, [potential]);
  }

  // ---------------------------------------------------------------- the frontier as a value

  /** `Insert`: unknown nodes only; true when the new node became the head. */
  function InsertOne(target: TypeID, s: seq<NodeState>, p: NodeState): (seq<NodeState>, bool) {
    if p.id in IdsOf(s) then (s, false)
    else
      var r := Inserted(target, s, p);
      (r, r != [] && r[0] == p)
  }

  /** `InsertArray`: once a node became the head, the rest of the list is not inserted. */
  function InsertMany(target: TypeID, s: seq<NodeState>, nodes: seq<NodeState>, except: TypeID, closer: bool)
    : (seq<NodeState>, bool)
    decreases |nodes|
  {
    if nodes == [] then (s, closer)
    else if nodes[0].id == except || closer then InsertMany(target, s, nodes[1..], except, closer)
    else
      var (s', closer') := InsertOne(target, s, nodes[0]);
      InsertMany(target, s', nodes[1..], except, closer')
  }

  lemma InsertOneKeeps(target: TypeID, s: seq<NodeState>, p: NodeState)
    requires Sorted(target, s)
    ensures var (r, closer) := InsertOne(target, s, p);
            && Sorted(target, r) && IdsOf(r) == IdsOf(s) + {p.id} && r != []
            && (closer <==> s == [] || D(target, r[0]) < D(target, s[0]))
            && (closer ==> r[0].id !in IdsOf(s))
            && (!closer ==> r[0] == s[0])
            && D(target, r[0]) <= D(target, p)
            && (forall n | n in s :: n in r) && (forall n | n in r :: n in s || n == p) && (closer ==> r[0] == p)
  {
    if p.id in IdsOf(s) {
      HeadIsClosest(target, s, p.id);
    } else {
      forall n | n in s ensures n.id != p.id { HasId(s, n); }
      InsertedSorted(target, s, p);
      InsertedIds(target, s, p);
      InsertedContents(target, s, p);
      if s != [] { assert s[0] in s; }
    }
  }

  lemma {:induction false} InsertManyDone(target: TypeID, s: seq<NodeState>, nodes: seq<NodeState>, except: TypeID)
    ensures InsertMany(target, s, nodes, except, true) == (s, true)
  {
    if nodes != [] {
      InsertManyDone(target, s, nodes[1..], except);
    }
  }

  /** What `InsertArray` promises in spite of stopping early: nodes are kept and come from the list as they
      are, the head only moves closer, the answer says whether it did, and then the head is from the list;
      if it did not, every node of the list is known. */
  ghost predicate Advanced(target: TypeID, s: seq<NodeState>, nodes: seq<NodeState>, except: TypeID,
                           r: seq<NodeState>, closer: bool)
  {
    && Sorted(target, r)
    && IdsOf(s) <= IdsOf(r) <= IdsOf(s) + (IdsOf(nodes) - {except})
    && (s != [] ==> r != [] && D(target, r[0]) <= D(target, s[0]))
    && (closer <==> r != [] && (s == [] || D(target, r[0]) < D(target, s[0])))
    && (closer ==> r[0].id !in IdsOf(s))
    && (!closer ==> IdsOf(nodes) - {except} <= IdsOf(r))
    && (forall n | n in s :: n in r) && (forall n | n in r :: n in s || (n in nodes && n.id != except))
    && (closer ==> r[0] in nodes)
  }

  lemma {:induction false} InsertManyAdvances(target: TypeID, s: seq<NodeState>, nodes: seq<NodeState>, except: TypeID)
    requires Sorted(target, s)
    ensures var (r, closer) := InsertMany(target, s, nodes, except, false);
            Advanced(target, s, nodes, except, r, closer)
    decreases |nodes|
  {
    if nodes != [] {
      if nodes[0].id == except {
        InsertManyAdvances(target, s, nodes[1..], except);
      } else {
        var (s', closer') := InsertOne(target, s, nodes[0]);
        InsertOneKeeps(target, s, nodes[0]);
        if closer' {
          InsertManyDone(target, s', nodes[1..], except);
        } else {
          InsertManyAdvances(target, s', nodes[1..], except);
        }
      }
    }
  }

  /** A reply that names a node nearer than `x` moves the head past the known node `x`. */
  lemma HeadPasses(target: TypeID, s: seq<NodeState>, nodes: seq<NodeState>, except: TypeID, x: TypeID, n: NodeState)
    requires Sorted(target, s) && x in IdsOf(s)
    requires n in nodes && n.id != except && D(target, n) < Dist(target, x)
    ensures var (r, _) := InsertMany(target, s, nodes, except, false); r != [] && D(target, r[0]) < Dist(target, x)
  {
    InsertManyAdvances(target, s, nodes, except);
    var (r, closer) := InsertMany(target, s, nodes, except, false);
    HeadIsClosest(target, s, x);
    if !closer {
      HasId(nodes, n);
      HeadIsClosest(target, r, n.id);
    }
  }

  lemma HeadIsClosest(target: TypeID, s: seq<NodeState>, x: TypeID)
    requires Sorted(target, s) && x in IdsOf(s)
    ensures s != [] && D(target, s[0]) <= Dist(target, x)
  {}

  // ---------------------------------------------------------------- selections

  function Unqueried(s: seq<NodeState>, queried: set<TypeID>): seq<NodeState> {
    if s == [] then []
    else Unqueried(s[..|s| - 1], queried) + (if s[|s| - 1].id in queried then [] else [s[|s| - 1]])
  }

  lemma {:induction false} UnqueriedContents(s: seq<NodeState>, queried: set<TypeID>)
    ensures forall n :: n in Unqueried(s, queried) <==> n in s && n.id !in queried
  {
    if s != [] {
      UnqueriedContents(s[..|s| - 1], queried);
      assert s == s[..|s| - 1] + [s[|s| - 1]];
    }
  }

  lemma SelectNone(ids: set<TypeID>)
    ensures Unqueried([], ids) == [] && RespondedOf([], ids) == []
  {}

  lemma SelectMore(s: seq<NodeState>, i: nat, ids: set<TypeID>)
    requires i < |s|
    ensures Unqueried(s[..i + 1], ids) == Unqueried(s[..i], ids) + (if s[i].id in ids then [] else [s[i]])
    ensures RespondedOf(s[..i + 1], ids) == RespondedOf(s[..i], ids) + (if s[i].id in ids then [s[i]] else [])
  {
    assert s[..i + 1][..i] == s[..i] && s[..i + 1][i] == s[i];
  }

  /** The selection keeps the order. */
  lemma {:induction false} UnqueriedSorted(target: TypeID, s: seq<NodeState>, queried: set<TypeID>)
    requires Sorted(target, s)
    ensures Sorted(target, Unqueried(s, queried))
  {
    if s != [] {
      var front, last := s[..|s| - 1], s[|s| - 1];
      UnqueriedSorted(target, front, queried);
      UnqueriedContents(front, queried);
      assert s == front + [last];
      SortedSnoc(target, Unqueried(front, queried), front, last);
    }
  }

  /** The first `alpha` of the selection are its closest nodes. */
  lemma AlphaClosest(target: TypeID, s: seq<NodeState>, queried: set<TypeID>, alpha: nat, n: NodeState)
    requires Sorted(target, s)
    ensures var all := Unqueried(s, queried);
            var closest := if |all| < alpha then all else all[..alpha];
            && Sorted(target, closest) && |closest| <= alpha
            && (n in closest ==> n in s && n.id !in queried)
            && (n in s && n.id !in queried && n !in closest ==>
                  |closest| == alpha && forall m | m in closest :: D(target, m) < D(target, n))
  {
    UnqueriedSorted(target, s, queried);
    UnqueriedContents(s, queried);
  }

  function RespondedOf(s: seq<NodeState>, responded: set<TypeID>): seq<NodeState> {
    if s == [] then []
    else RespondedOf(s[..|s| - 1], responded) + (if s[|s| - 1].id in responded then [s[|s| - 1]] else [])
  }

  lemma {:induction false} RespondedContents(target: TypeID, s: seq<NodeState>, responded: set<TypeID>)
    requires Sorted(target, s)
    ensures forall n :: n in RespondedOf(s, responded) <==> n in s && n.id in responded
    ensures Sorted(target, RespondedOf(s, responded))
  {
    if s != [] {
      var front, last := s[..|s| - 1], s[|s| - 1];
      RespondedContents(target, front, responded);
      assert s == front + [last];
      SortedSnoc(target, RespondedOf(front, responded), front, last);
    }
  }

  /** What is selected from the front of a sorted list comes before its last node. */
  lemma SortedSnoc(target: TypeID, r: seq<NodeState>, front: seq<NodeState>, last: NodeState)
    requires Sorted(target, front + [last]) && Sorted(target, r) && forall n | n in r :: n in front
    ensures Sorted(target, r + [last])
  {
    var s := front + [last];
    forall i | 0 <= i < |r| ensures D(target, r[i]) < D(target, last) {
      assert r[i] in front;
      var j :| 0 <= j < |front| && front[j] == r[i];
      assert s[j] == r[i] && s[|front|] == last;
    }
  }

  // ---------------------------------------------------------------- the object

  class SafeNodeStateArray {
    const Target: TypeID
    var present: set<TypeID>
    var Queried: set<TypeID>
    var Responded: set<TypeID>
    var buf: array<NodeState>
    var len: nat

    ghost function Nodes(): seq<NodeState>
      reads this, buf
      requires len <= buf.Length
    {
      buf[..len]
    }

    ghost predicate Valid()
      reads this, buf
    {
      len <= buf.Length && Sorted(Target, Nodes()) && present == IdsOf(Nodes())
    }

    constructor (target: TypeID)
      ensures Valid() && Nodes() == [] && Target == target && Queried == {} && Responded == {} && fresh(buf)
    {
      Target := target;
      present, Queried, Responded := {}, {}, {};
      buf := new NodeState[0];
      len := 0;
    }

    method Insert(potential: NodeState) returns (closest: bool)
      requires Valid()
      modifies this`present, this`buf, this`len, buf
      ensures Valid() && (buf == old(buf) || fresh(buf))
      ensures (Nodes(), closest) == InsertOne(Target, old(Nodes()), potential)
    {
      if potential.id in present {
        return false;
      }
      present := present + {potential.id};
      forall n | n in Nodes() ensures n.id != potential.id { HasId(Nodes(), n); }
      InsertedSorted(Target, Nodes(), potential);
      InsertedIds(Target, Nodes(), potential);
      buf := InsertOrdered(Target, buf, len, potential);
      len := len + 1;
      closest := buf[0] == potential;
      assert Nodes()[0] == buf[0];
    }

    method InsertArray(nodes: seq<NodeState>, except: TypeID) returns (closer: bool)
      requires Valid()
      modifies this`present, this`buf, this`len, buf
      ensures Valid() && (buf == old(buf) || fresh(buf))
      ensures (Nodes(), closer) == InsertMany(Target, old(Nodes()), nodes, except, false)
    {
      closer := false;
      ghost var s := Nodes();
      for i := 0 to |nodes|
        invariant Valid() && (buf == old(buf) || fresh(buf))
        invariant InsertMany(Target, Nodes(), nodes[i..], except, closer) == InsertMany(Target, s, nodes, except, false)
      {
        var node := nodes[i];
        assert nodes[i..][0] == node && nodes[i..][1..] == nodes[i + 1..];
        if node.id != except {
          if !closer {
            closer := Insert(node);
          }
        }
      }
    }

    method SetQueried(id: TypeID)
      modifies this`Queried
      ensures Queried == old(Queried) + {id}
    {
      Queried := Queried + {id};
    }

    method SetResponded(ids: set<TypeID>)
      modifies this`Responded
      ensures Responded == old(Responded) + ids
    {
      Responded := Responded + ids;
    }

    /** The first `alpha` nodes that were not queried, or all if there are fewer. */
    method GetAlphaUnqueried(alpha: nat) returns (closest: seq<NodeState>)
      requires Valid() && alpha > 0
      ensures var all := Unqueried(Nodes(), Queried);
              closest == if |all| < alpha then all else all[..alpha]
    {
      closest := [];
      var left := alpha;
      for i := 0 to len
        invariant left == alpha - |closest| && left > 0
        invariant closest == Unqueried(Nodes()[..i], Queried)
      {
        var ns := buf[i];
        assert Nodes()[..i + 1][..i] == Nodes()[..i] && Nodes()[..i + 1][i] == ns;
        if ns.id !in Queried {
          closest := closest + [ns];
          left := left - 1;
          if left == 0 {
            UnqueriedPrefix(Nodes(), i + 1, Queried);
            return;
          }
        }
      }
      assert Nodes()[..len] == Nodes();
    }

    /** Scan from the closest node until `k` live nodes were seen. */
    method GetKClosestUnqueried(k: nat) returns (unqueried: seq<NodeState>, responded: seq<NodeState>, ghost upTo: nat)
      requires Valid() && k > 0
      ensures upTo <= len
      ensures unqueried == Unqueried(Nodes()[..upTo], Queried + Responded)
      ensures responded == RespondedOf(Nodes()[..upTo], Responded)
      ensures |unqueried| + |responded| <= k && (upTo == len || |unqueried| + |responded| == k)
    {
      hide Sorted, IdsOf, Unqueried, RespondedOf;
      SelectNone(Queried + Responded);
      SelectNone(Responded);
      unqueried, responded := [], [];
      var left := k;
      upTo := 0;
      for i := 0 to len
        invariant upTo == i && left == k - |unqueried| - |responded| && left > 0
        invariant unqueried == Unqueried(Nodes()[..i], Queried + Responded)
        invariant responded == RespondedOf(Nodes()[..i], Responded)
      {
        var node := buf[i];
        SelectMore(Nodes(), i, Queried + Responded);
        SelectMore(Nodes(), i, Responded);
        upTo := i + 1;
        if node.id in Responded {
          responded := responded + [node];
          left := left - 1;
        } else if node.id !in Queried {
          unqueried := unqueried + [node];
          left := left - 1;
        }
        if left == 0 {
          return;
        }
      }
    }
  }

  lemma {:induction false} UnqueriedPrefix(s: seq<NodeState>, i: nat, queried: set<TypeID>)
    requires i <= |s|
    ensures Unqueried(s[..i], queried) <= Unqueried(s, queried)
    decreases |s|
  {
    if i < |s| {
      UnqueriedPrefix(s[..|s| - 1], i, queried);
      assert s[..|s| - 1][..i] == s[..i];
    } else {
      assert s[..i] == s;
    }
  }
}
