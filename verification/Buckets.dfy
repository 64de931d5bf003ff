/**
 The k-buckets (gossiper/kBuckets.go) over every sequence of updates and ping outcomes. A node is
 confirmed when it is heard of while known, first inserted, or answers a ping; `seen` is the
 history of confirmations.
 */
module Buckets {
  import opened Ids
  import opened Frontier

  // ---------------------------------------------------------------- one bucket as a value

  predicate Knows(nodes: seq<NodeState>, id: TypeID) {
    exists i :: 0 <= i < |nodes| && nodes[i].id == id
  }

  ghost function IndexOf(nodes: seq<NodeState>, id: TypeID): (i: nat)
    requires Knows(nodes, id)
    ensures i < |nodes| && nodes[i].id == id
  {
    var i :| 0 <= i < |nodes| && nodes[i].id == id;
    i
  }

  function ToFront(nodes: seq<NodeState>, i: nat): seq<NodeState>
    requires i < |nodes|
  {
    [nodes[i]] + nodes[..i] + nodes[i + 1..]
  }

  predicate DistinctIds(nodes: seq<NodeState>) {
    forall i, j | 0 <= i < j < |nodes| :: nodes[i].id != nodes[j].id
  }

  /** The bucket after `updateNode`. A known node moves to the front as it was stored; in a full
      bucket the last node is kept, in front, if it answers the ping, and is dropped otherwise. */
  ghost function Updated(nodes: seq<NodeState>, ns: NodeState, pingOk: bool): seq<NodeState> {
    if Knows(nodes, ns.id) then ToFront(nodes, IndexOf(nodes, ns.id))
    else if |nodes| < BUCKET_SIZE then [ns] + nodes
    else if pingOk then ToFront(nodes, BUCKET_SIZE - 1)[..BUCKET_SIZE]
    else [ns] + nodes[..BUCKET_SIZE - 1]
  }

  /** Who is confirmed by the update: the last node of a full bucket if it had to be asked and answered,
      the reported node otherwise. */
  function Confirmed(nodes: seq<NodeState>, ns: NodeState, pingOk: bool): TypeID {
    if !Knows(nodes, ns.id) && |nodes| >= BUCKET_SIZE && pingOk then nodes[|nodes| - 1].id else ns.id
  }

  type History = map<TypeID, nat>

  /** Front to back the confirmations get strictly older. */
  ghost predicate ByRecency(nodes: seq<NodeState>, seen: History, now: nat) {
    && (forall n | n in nodes :: n.id in seen && seen[n.id] < now)
    && (forall i, j | 0 <= i < j < |nodes| :: seen[nodes[i].id] > seen[nodes[j].id])
  }

  ghost predicate BucketInv(nodes: seq<NodeState>, seen: History, now: nat) {
    |nodes| <= BUCKET_SIZE && DistinctIds(nodes) && ByRecency(nodes, seen, now)
  }

  lemma IndexUnique(nodes: seq<NodeState>, i: nat)
    requires DistinctIds(nodes) && i < |nodes|
    ensures Knows(nodes, nodes[i].id) && IndexOf(nodes, nodes[i].id) == i
  {}

  /** Where the elements of `ToFront(nodes, i)` come from. */
  function Origin(i: nat, k: nat): nat {
    if k == 0 then i else if k <= i then k - 1 else k
  }

  lemma ToFrontAt(nodes: seq<NodeState>, i: nat)
    requires i < |nodes|
    ensures |ToFront(nodes, i)| == |nodes|
    ensures forall k | 0 <= k < |nodes| :: ToFront(nodes, i)[k] == nodes[Origin(i, k)]
  {
  }

  lemma ToFrontContents(nodes: seq<NodeState>, i: nat)
    requires i < |nodes|
    ensures forall n :: n in ToFront(nodes, i) <==> n in nodes
  {}

  /** Moving an element to the front and confirming it keeps the order by recency. */
  lemma ToFrontKeeps(nodes: seq<NodeState>, i: nat, seen: History, now: nat)
    requires BucketInv(nodes, seen, now) && i < |nodes|
    ensures BucketInv(ToFront(nodes, i), seen[nodes[i].id := now], now + 1)
  {
    var r, seen' := ToFront(nodes, i), seen[nodes[i].id := now];
    ToFrontAt(nodes, i);
    ToFrontContents(nodes, i);
    forall j, k | 0 <= j < k < |r|
      ensures r[j].id != r[k].id && r[j].id in seen' && r[k].id in seen' && seen'[r[j].id] > seen'[r[k].id]
    {
      var x, y := Origin(i, j), Origin(i, k);
      assert r[j] == nodes[x] && r[k] == nodes[y] && nodes[x] in nodes && nodes[y] in nodes;
      assert y != i && (x == i || x < y);
    }
  }

  /** A new node in front of older ones. */
  lemma NewFrontKeeps(nodes: seq<NodeState>, ns: NodeState, seen: History, now: nat)
    requires BucketInv(nodes, seen, now) && |nodes| < BUCKET_SIZE && !Knows(nodes, ns.id)
    ensures BucketInv([ns] + nodes, seen[ns.id := now], now + 1)
  {}

  lemma PrefixKeeps(nodes: seq<NodeState>, k: nat, seen: History, now: nat)
    requires BucketInv(nodes, seen, now) && k <= |nodes|
    ensures BucketInv(nodes[..k], seen, now)
    ensures forall id :: Knows(nodes[..k], id) ==> Knows(nodes, id)
  {}

  /** One update keeps at most 20 nodes with distinct IDs, the most recently confirmed first. */
  lemma UpdateKeepsBucket(nodes: seq<NodeState>, ns: NodeState, pingOk: bool, seen: History, now: nat)
    requires BucketInv(nodes, seen, now)
    ensures var r := Updated(nodes, ns, pingOk);
            && r != []
            && BucketInv(r, seen[Confirmed(nodes, ns, pingOk) := now], now + 1)
            && forall n | n in r :: n in nodes || n == ns
  {
    if Knows(nodes, ns.id) {
      ToFrontKeeps(nodes, IndexOf(nodes, ns.id), seen, now);
      ToFrontContents(nodes, IndexOf(nodes, ns.id));
    } else if |nodes| < BUCKET_SIZE {
      NewFrontKeeps(nodes, ns, seen, now);
    } else if pingOk {
      ToFrontKeeps(nodes, BUCKET_SIZE - 1, seen, now);
      ToFrontContents(nodes, BUCKET_SIZE - 1);
      assert ToFront(nodes, BUCKET_SIZE - 1)[..BUCKET_SIZE] == ToFront(nodes, BUCKET_SIZE - 1);
    } else {
      PrefixKeeps(nodes, BUCKET_SIZE - 1, seen, now);
      NewFrontKeeps(nodes[..BUCKET_SIZE - 1], ns, seen, now);
    }
  }

  predicate Before(nodes: seq<NodeState>, x: NodeState, y: NodeState) {
    exists i, j :: 0 <= i < j < |nodes| && nodes[i] == x && nodes[j] == y
  }

  /** Who is confirmed is in front afterwards, as it was stored if it was known. An unknown node gets in
      exactly if there was room or the last node did not answer. */
  lemma ConfirmedInFront(nodes: seq<NodeState>, ns: NodeState, pingOk: bool)
    requires |nodes| <= BUCKET_SIZE && DistinctIds(nodes)
    ensures var r, room := Updated(nodes, ns, pingOk), |nodes| < BUCKET_SIZE || !pingOk;
            && r != [] && r[0].id == Confirmed(nodes, ns, pingOk)
            && (Knows(nodes, ns.id) ==> r[0] in nodes && |r| == |nodes|)
            && (!Knows(nodes, ns.id) ==> (ns in r <==> room) && (room ==> r[0] == ns))
  {
    if !Knows(nodes, ns.id) {
      assert forall i | 0 <= i < |nodes| :: nodes[i].id != ns.id;
      if |nodes| == BUCKET_SIZE { ToFrontContents(nodes, BUCKET_SIZE - 1); }
    }
  }

  lemma ToFrontOrder(nodes: seq<NodeState>, i: nat, x: NodeState, y: NodeState)
    requires i < |nodes| && x != nodes[i] && y != nodes[i]
    ensures Before(ToFront(nodes, i), x, y) <==> Before(nodes, x, y)
  {
    if p: nat, q: nat :| p < q < |nodes| && nodes[p] == x && nodes[q] == y { ToFrontLater(nodes, i, p, q); }
    if p: nat, q: nat :| p < q < |nodes| && ToFront(nodes, i)[p] == x && ToFront(nodes, i)[q] == y {
      ToFrontEarlier(nodes, i, p, q);
    }
  }

  lemma ToFrontLater(nodes: seq<NodeState>, i: nat, p: nat, q: nat)
    requires i < |nodes| && p < q < |nodes| && p != i && q != i
    ensures Before(ToFront(nodes, i), nodes[p], nodes[q])
  {
    hide ToFront;
    ToFrontAt(nodes, i);
    var p', q' := if p < i then p + 1 else p, if q < i then q + 1 else q;
    assert ToFront(nodes, i)[p'] == nodes[Origin(i, p')] && ToFront(nodes, i)[q'] == nodes[Origin(i, q')];
  }

  lemma ToFrontEarlier(nodes: seq<NodeState>, i: nat, p: nat, q: nat)
    requires i < |nodes| && 0 < p < q < |nodes|
    ensures |ToFront(nodes, i)| == |nodes| && Before(nodes, ToFront(nodes, i)[p], ToFront(nodes, i)[q])
  {
    hide ToFront;
    ToFrontAt(nodes, i);
    assert ToFront(nodes, i)[p] == nodes[Origin(i, p)] && ToFront(nodes, i)[q] == nodes[Origin(i, q)];
  }

  lemma NewFrontOrder(nodes: seq<NodeState>, ns: NodeState, x: NodeState, y: NodeState)
    requires x != ns && y != ns
    ensures Before([ns] + nodes, x, y) <==> Before(nodes, x, y)
  {
    var r := [ns] + nodes;
    if p, q :| 0 <= p < q < |r| && r[p] == x && r[q] == y {
      assert nodes[p - 1] == x && nodes[q - 1] == y;
    }
    if p, q :| 0 <= p < q < |nodes| && nodes[p] == x && nodes[q] == y {
      assert r[p + 1] == x && r[q + 1] == y;
    }
  }

  /** All others that are left keep their order. */
  lemma OthersKeepOrder(nodes: seq<NodeState>, ns: NodeState, pingOk: bool, x: NodeState, y: NodeState)
    requires |nodes| <= BUCKET_SIZE && DistinctIds(nodes)
    requires x in Updated(nodes, ns, pingOk) && x.id != Confirmed(nodes, ns, pingOk)
    requires y in Updated(nodes, ns, pingOk) && y.id != Confirmed(nodes, ns, pingOk)
    ensures Before(Updated(nodes, ns, pingOk), x, y) <==> Before(nodes, x, y)
  {
    hide Before;
    if Knows(nodes, ns.id) {
      ToFrontOrder(nodes, IndexOf(nodes, ns.id), x, y);
    } else if |nodes| < BUCKET_SIZE {
      NewFrontOrder(nodes, ns, x, y);
    } else if pingOk {
      ToFrontOrder(nodes, BUCKET_SIZE - 1, x, y);
      ToFrontAt(nodes, BUCKET_SIZE - 1);
      assert ToFront(nodes, BUCKET_SIZE - 1)[..BUCKET_SIZE] == ToFront(nodes, BUCKET_SIZE - 1);
    } else {
      NewFrontOrder(nodes[..BUCKET_SIZE - 1], ns, x, y);
      FrontOrder(nodes, BUCKET_SIZE - 1, x, y);
    }
  }

  lemma FrontOrder(nodes: seq<NodeState>, k: nat, x: NodeState, y: NodeState)
    requires k <= |nodes| && DistinctIds(nodes) && x in nodes[..k] && y in nodes[..k]
    ensures Before(nodes[..k], x, y) <==> Before(nodes, x, y)
  {
    if p, q :| 0 <= p < q < |nodes| && nodes[p] == x && nodes[q] == y {
      assert nodes[..k][p] == x && nodes[..k][q] == y;
    }
    if p, q :| 0 <= p < q < k && nodes[..k][p] == x && nodes[..k][q] == y {
      assert nodes[p] == x && nodes[q] == y;
    }
  }

  /** A node leaves exactly when it is the least recently confirmed of a full bucket, did not
      answer the ping, and the reported node is not in the bucket. */
  lemma LeavesIff(nodes: seq<NodeState>, ns: NodeState, pingOk: bool, seen: History, now: nat, n: NodeState)
    requires BucketInv(nodes, seen, now) && n in nodes
    ensures n !in Updated(nodes, ns, pingOk) <==>
              !Knows(nodes, ns.id) && |nodes| == BUCKET_SIZE && !pingOk
              && forall m | m in nodes && m != n :: seen[n.id] < seen[m.id]
  {
    var i :| 0 <= i < |nodes| && nodes[i] == n;
    if Knows(nodes, ns.id) {
      ToFrontContents(nodes, IndexOf(nodes, ns.id));
    } else if |nodes| < BUCKET_SIZE {
      assert ([ns] + nodes)[i + 1] == n;
    } else if pingOk {
      ToFrontContents(nodes, BUCKET_SIZE - 1);
      assert ToFront(nodes, BUCKET_SIZE - 1)[..BUCKET_SIZE] == ToFront(nodes, BUCKET_SIZE - 1);
    } else if i < BUCKET_SIZE - 1 {
      assert ([ns] + nodes[..BUCKET_SIZE - 1])[i + 1] == n;
      assert nodes[BUCKET_SIZE - 1] in nodes && seen[n.id] > seen[nodes[BUCKET_SIZE - 1].id];
    } else {
      var front := nodes[..BUCKET_SIZE - 1];
      assert n != ns;
      forall k | 0 <= k < |front| ensures front[k] != n { assert front[k] == nodes[k]; }
      forall m | m in nodes && m != n ensures seen[n.id] < seen[m.id] {
        var j :| 0 <= j < |nodes| && nodes[j] == m;
      }
    }
  }

  // ---------------------------------------------------------------- the table as a value

  type Table = seq<seq<NodeState>>

  ghost predicate TableInv(me: TypeID, t: Table, seen: History, now: nat) {
    && |t| == ID_BITS
    && (forall b | 0 <= b < ID_BITS :: BucketInv(t[b], seen, now))
    && (forall b, n | 0 <= b < ID_BITS && n in t[b] :: SharesBits(me, n.id, b))
  }

  datatype Update = Update(ns: NodeState, pingOk: bool)

  /** The bucket a node belongs to, or 512 for the owner itself. */
  ghost function BucketOf(me: TypeID, id: TypeID): (b: nat)
    ensures SharesBits(me, id, b) && b <= ID_BITS
  {
    assert exists b: nat :: SharesBits(me, id, b) by {
      var _ := SharesBitsExists(me, id);
    }
    var b: nat :| SharesBits(me, id, b);
    b
  }

  ghost function Apply(me: TypeID, t: Table, u: Update): Table
    requires |t| == ID_BITS
  {
    var b := BucketOf(me, u.ns.id);
    if b < ID_BITS then t[b := Updated(t[b], u.ns, u.pingOk)] else t
  }

  ghost function Stamp(me: TypeID, t: Table, u: Update, seen: History, now: nat): History
    requires |t| == ID_BITS
  {
    var b := BucketOf(me, u.ns.id);
    if b < ID_BITS then seen[Confirmed(t[b], u.ns, u.pingOk) := now] else seen
  }

  lemma HistoryGrows(nodes: seq<NodeState>, seen: History, id: TypeID, now: nat)
    requires BucketInv(nodes, seen, now) && forall n | n in nodes :: n.id != id
    ensures BucketInv(nodes, seen[id := now], now + 1)
  {}

  lemma UpdateKeepsTable(me: TypeID, t: Table, u: Update, seen: History, now: nat)
    requires TableInv(me, t, seen, now)
    ensures TableInv(me, Apply(me, t, u), Stamp(me, t, u, seen, now), now + 1)
  {
    hide Updated, Confirmed, BucketInv;
    var b := BucketOf(me, u.ns.id);
    var t', seen' := Apply(me, t, u), Stamp(me, t, u, seen, now);
    if b < ID_BITS {
      var id := Confirmed(t[b], u.ns, u.pingOk);
      UpdateKeepsBucket(t[b], u.ns, u.pingOk, seen, now);
      ConfirmedShares(me, t[b], u, b);
      forall c | 0 <= c < ID_BITS ensures BucketInv(t'[c], seen', now + 1) {
        if c != b {
          forall n: NodeState | n in t[c] ensures n.id != id {
            if n.id == id { SharesBitsUnique(me, n.id, b, c); }
          }
          HistoryGrows(t[c], seen, id, now);
        }
      }
    } else {
      forall c | 0 <= c < ID_BITS ensures BucketInv(t[c], seen, now + 1) { LaterInv(t[c], seen, now); }
    }
  }

  lemma LaterInv(nodes: seq<NodeState>, seen: History, now: nat)
    requires BucketInv(nodes, seen, now)
    ensures BucketInv(nodes, seen, now + 1)
  {}

  lemma ConfirmedShares(me: TypeID, nodes: seq<NodeState>, u: Update, b: nat)
    requires SharesBits(me, u.ns.id, b) && forall n | n in nodes :: SharesBits(me, n.id, b)
    ensures SharesBits(me, Confirmed(nodes, u.ns, u.pingOk), b)
  {
    if |nodes| > 0 { assert nodes[|nodes| - 1] in nodes; }
  }

  /** In the table that is the bucket of the shared bits, and no other bucket changes. */
  lemma UpdateConfirms(me: TypeID, t: Table, u: Update, seen: History, now: nat, b: nat)
    requires TableInv(me, t, seen, now) && SharesBits(me, u.ns.id, b)
    ensures b < ID_BITS ==>
              var r := Apply(me, t, u);
              && r[b] != [] && r[b][0].id == Confirmed(t[b], u.ns, u.pingOk)
              && forall c | 0 <= c < ID_BITS && c != b :: r[c] == t[c]
    ensures b >= ID_BITS ==> Apply(me, t, u) == t
  {
    SharesBitsUnique(me, u.ns.id, b, BucketOf(me, u.ns.id));
    if b < ID_BITS {
      assert BucketInv(t[b], seen, now);
      ConfirmedInFront(t[b], u.ns, u.pingOk);
    }
  }

  ghost predicate Runs(me: TypeID, tables: seq<Table>, seens: seq<History>, updates: seq<Update>) {
    && |tables| == |seens| == |updates| + 1
    && |tables[0]| == ID_BITS && (forall b | 0 <= b < ID_BITS :: tables[0][b] == []) && seens[0] == map[]
    && forall i | 0 <= i < |updates| ::
         && |tables[i]| == ID_BITS
         && tables[i + 1] == Apply(me, tables[i], updates[i])
         && seens[i + 1] == Stamp(me, tables[i], updates[i], seens[i], i)
  }

  lemma {:induction false} RunKeepsTable(me: TypeID, tables: seq<Table>, seens: seq<History>, updates: seq<Update>,
                                         k: nat)
    requires Runs(me, tables, seens, updates) && k <= |updates|
    ensures TableInv(me, tables[k], seens[k], k)
  {
    if k > 0 {
      RunKeepsTable(me, tables, seens, updates, k - 1);
      UpdateKeepsTable(me, tables[k - 1], updates[k - 1], seens[k - 1], k - 1);
    }
  }

  /** Over every run no ID occurs twice in the table and the owner never does. */
  lemma NoDuplicates(me: TypeID, tables: seq<Table>, seens: seq<History>, updates: seq<Update>, k: nat,
                     b: nat, i: nat, c: nat, j: nat)
    requires Runs(me, tables, seens, updates) && k <= |updates| && |tables[k]| == ID_BITS
    requires b < ID_BITS && i < |tables[k][b]| && c < ID_BITS && j < |tables[k][c]|
    ensures tables[k][b][i].id != me
    ensures tables[k][b][i].id == tables[k][c][j].id ==> b == c && i == j
  {
    RunKeepsTable(me, tables, seens, updates, k);
    var t := tables[k];
    var x: NodeState, y: NodeState := t[b][i], t[c][j];
    assert x in t[b] && y in t[c];
    assert SharesBits(me, x.id, b) && SharesBits(me, y.id, c);
    if x.id == y.id { SharesBitsUnique(me, x.id, b, c); }
  }

  // ---------------------------------------------------------------- the objects

  class Bucket {
    var Nodes: seq<NodeState>

    constructor ()
      ensures Nodes == []
    {
      Nodes := [];
    }

    /** `pingOk` is the answer of `sendPing`, asked for only when the bucket is full. */
    method UpdateNode(ns: NodeState, pingOk: bool) returns (changed: bool)
      requires |Nodes| <= BUCKET_SIZE && DistinctIds(Nodes)
      modifies this
      ensures Nodes == Updated(old(Nodes), ns, pingOk)
      ensures changed <==> !Knows(old(Nodes), ns.id) && (|old(Nodes)| < BUCKET_SIZE || !pingOk)
    {
      for i := 0 to |Nodes|
        invariant Nodes == old(Nodes)
        invariant forall k | 0 <= k < i :: Nodes[k].id != ns.id
      {
        if Nodes[i].id == ns.id {
          IndexUnique(Nodes, i);
          Nodes := [Nodes[i]] + Nodes[..i] + Nodes[i + 1..];
          return false;
        }
      }
      if |Nodes| >= BUCKET_SIZE {
        var lastNode := Nodes[BUCKET_SIZE - 1];
        if pingOk {
          Nodes := [lastNode] + Nodes[..BUCKET_SIZE - 1];
          return false;
        }
        Nodes := Nodes[..BUCKET_SIZE - 1];
      }
      Nodes := [ns] + Nodes;
      return true;
    }
  }

  class BucketTable {
    const MyNodeID: TypeID
    const Buckets: seq<Bucket>

    ghost predicate Valid()
      reads this, Buckets
    {
      && |Buckets| == ID_BITS
      && (forall i, j | 0 <= i < j < ID_BITS :: Buckets[i] != Buckets[j])
      && (forall i | 0 <= i < ID_BITS :: |Buckets[i].Nodes| <= BUCKET_SIZE && DistinctIds(Buckets[i].Nodes))
    }

    ghost function Contents(): Table
      reads this, Buckets
    {
      seq(|Buckets|, i requires 0 <= i < |Buckets| reads this, Buckets => Buckets[i].Nodes)
    }

    constructor (myNodeID: TypeID)
      ensures Valid() && fresh(Buckets) && MyNodeID == myNodeID
      ensures forall b | 0 <= b < ID_BITS :: Contents()[b] == []
    {
      var buckets: seq<Bucket> := [];
      for i := 0 to ID_BITS
        invariant |buckets| == i && fresh(buckets)
        invariant forall j | 0 <= j < i :: buckets[j].Nodes == []
        invariant forall j, k | 0 <= j < k < i :: buckets[j] != buckets[k]
      {
        var bucket := new Bucket();
        buckets := buckets + [bucket];
      }
      MyNodeID, Buckets := myNodeID, buckets;
    }

    method UpdateNode(ns: NodeState, pingOk: bool) returns (changed: bool)
      requires Valid()
      modifies Buckets
      ensures Valid() && Contents() == Apply(MyNodeID, old(Contents()), Update(ns, pingOk))
      ensures var b := BucketOf(MyNodeID, ns.id);
              changed <==> b < ID_BITS && !Knows(old(Contents())[b], ns.id)
                           && (|old(Contents())[b]| < BUCKET_SIZE || !pingOk)
    {
      var clb := CommonLeadingBits(MyNodeID, ns.id);
      SharesBitsUnique(MyNodeID, ns.id, clb, BucketOf(MyNodeID, ns.id));
      if clb < ID_BITS {
        UpdatedShape(Buckets[clb].Nodes, ns, pingOk);
        changed := Buckets[clb].UpdateNode(ns, pingOk);
      } else {
        changed := false;
      }
    }
  }

  lemma UpdatedShape(nodes: seq<NodeState>, ns: NodeState, pingOk: bool)
    requires |nodes| <= BUCKET_SIZE && DistinctIds(nodes)
    ensures |Updated(nodes, ns, pingOk)| <= BUCKET_SIZE && DistinctIds(Updated(nodes, ns, pingOk))
  {
  }

  lemma SharesBitsExists(id1: TypeID, id2: TypeID) returns (k: nat)
    ensures SharesBits(id1, id2, k)
  {
    if id1 == id2 {
      k := ID_BITS;
    } else {
      var q := FirstDifference(id1, id2);
      SharesBitsFrom(id1, id2, q);
      k := 8 * q + LeadingZeros8(XorByte(id1[q], id2[q]));
    }
  }

  /** The targets `dhtJoin` looks up: the i-th belongs to bucket i of the joining node. */
  method JoinTargets(me: TypeID, fills: seq<TypeID>) returns (targets: seq<TypeID>)
    requires |fills| == ID_BITS
    ensures |targets| == ID_BITS && forall i | 0 <= i < ID_BITS :: BucketOf(me, targets[i]) == i
  {
    targets := [];
    for i := 0 to ID_BITS
      invariant |targets| == i && forall k | 0 <= k < i :: BucketOf(me, targets[k]) == k
    {
      var id := RandNodeID(me, i, fills[i]);
      SharesBitsUnique(me, id, i, BucketOf(me, id));
      targets := targets + [id];
    }
  }
}
