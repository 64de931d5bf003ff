/**
 Splitting the budget of a file search among peers (gossiper/fileSearching.go), and what it bounds
 across the network.
 */
module SearchBudget {
  import opened Words

  // ---------------------------------------------------------------- machine arithmetic

  /** `int(u)` for an unsigned 64-bit word. */
  function ToInt(u: uint64): int {
    if u < WORD64 / 2 then u else u - WORD64
  }

  /** Division and remainder truncate towards zero. */
  function Quot(a: int, n: int): int
    requires n > 0
  {
    if a >= 0 then a / n else -((-a) / n)
  }

  function Rem(a: int, n: int): int
    requires n > 0
  {
    a - n * Quot(a, n)
  }

  function Pred64(u: uint64): uint64 {
    (u + WORD64 - 1) % WORD64
  }

  // ---------------------------------------------------------------- shares

  function Without(first: seq<string>, second: seq<string>): seq<string> {
    if first == [] then []
    else Without(first[..|first| - 1], second)
         + (if first[|first| - 1] in second then [] else [first[|first| - 1]])
  }

  /** `at` are the places of the entries of `first` that are not in `second`, and `rest` lists these entries. */
  ghost predicate Places(first: seq<string>, second: seq<string>, rest: seq<string>, at: seq<nat>) {
    && |at| == |rest|
    && (forall k, l | 0 <= k < l < |at| :: at[k] < at[l])
    && (forall k | 0 <= k < |at| :: at[k] < |first| && rest[k] == first[at[k]])
    && (forall i: nat | i < |first| :: first[i] !in second <==> i in at)
  }

  /** The difference holds every entry of `first` that is not in `second`, repeats included and in order. */
  lemma {:induction false} WithoutAt(first: seq<string>, second: seq<string>) returns (at: seq<nat>)
    ensures Places(first, second, Without(first, second), at)
  {
    hide Places;
    if first == [] {
      at := [];
      NoPlaces(second);
    } else {
      var n := |first| - 1;
      at := WithoutAt(first[..n], second);
      MorePlaces(first, second, Without(first[..n], second), at);
      at := at + (if first[n] in second then [] else [n]);
    }
  }

  lemma NoPlaces(second: seq<string>)
    ensures Places([], second, [], [])
  {}

  lemma MorePlaces(first: seq<string>, second: seq<string>, rest: seq<string>, at: seq<nat>)
    requires first != [] && Places(first[..|first| - 1], second, rest, at)
    ensures var n := |first| - 1;
            Places(first, second, rest + (if first[n] in second then [] else [first[n]]),
                   at + (if first[n] in second then [] else [n]))
  {
    var n := |first| - 1;
    var front, at' := first[..n], at + (if first[n] in second then [] else [n]);
    forall i: nat | i < |first| ensures first[i] !in second <==> i in at' {
      if i < n { assert front[i] == first[i]; }
      if n in at { assert false; }
    }
  }

  method StringArrayDifference(first: seq<string>, second: seq<string>) returns (difference: seq<string>)
    ensures difference == Without(first, second)
  {
    difference := [];
    for i := 0 to |first|
      invariant difference == Without(first[..i], second)
    {
      assert first[..i + 1][..i] == first[..i];
      if first[i] !in second {
        difference := difference + [first[i]];
      }
    }
    assert first[..|first|] == first;
  }

  /** The budgets sent, in the order of the peers: nothing is sent for an empty share. */
  function Shares(budget: uint64, peers: nat): seq<uint64> {
    var k := ToInt(budget);
    if peers == 0 || k <= 0 then []
    else seq(if k < peers then k else peers, i requires 0 <= i => Share(k, peers, i))
  }

  function Share(k: int, peers: nat, i: nat): (s: uint64)
    requires 0 < k < WORD64 / 2 && peers > 0
  {
    assert k / peers <= k;
    k / peers + (if i < k % peers then 1 else 0)
  }

  function Sum(s: seq<uint64>): nat {
    if s == [] then 0 else Sum(s[..|s| - 1]) + s[|s| - 1]
  }

  lemma {:induction false} SumPrefix(k: int, peers: nat, m: nat, s: seq<uint64>)
    requires 0 < k < WORD64 / 2 && peers > 0 && |s| == m
    requires forall i | 0 <= i < m :: s[i] == Share(k, peers, i)
    ensures Sum(s) == m * (k / peers) + (if m < k % peers then m else k % peers)
  {
    if m > 0 {
      SumPrefix(k, peers, m - 1, s[..m - 1]);
      var share := k / peers;
      assert m * share == (m - 1) * share + share;
      assert s[m - 1] == Share(k, peers, m - 1);
    }
  }

  predicate Positive(s: seq<uint64>) {
    forall i | 0 <= i < |s| :: s[i] >= 1
  }

  lemma SharesSum(k: int, peers: nat, s: seq<uint64>)
    requires 0 < k < WORD64 / 2 && 0 < peers && |s| == if k < peers then k else peers
    requires forall i | 0 <= i < |s| :: s[i] == Share(k, peers, i)
    ensures Sum(s) == k
  {
    SumPrefix(k, peers, |s|, s);
    DivMod(k, peers);
  }

  lemma SharesAt(budget: uint64, peers: nat)
    requires peers > 0 && ToInt(budget) > 0
    ensures var k, s := ToInt(budget), Shares(budget, peers);
            && |s| == (if k < peers then k else peers)
            && forall i | 0 <= i < |s| :: s[i] == Share(k, peers, i)
  {
  }

  lemma SharesRange(k: int, peers: nat, s: seq<uint64>)
    requires 0 < k < WORD64 / 2 && 0 < peers && |s| == if k < peers then k else peers
    requires forall i | 0 <= i < |s| :: s[i] == Share(k, peers, i)
    ensures Positive(s)
    ensures forall i, j | 0 <= i < |s| && 0 <= j < |s| :: s[i] as int <= s[j] as int + 1
  {}

  /** The shares sum to exactly the budget, unless there is nobody to send to or the word reads
      as a negative number; no share is empty, any two differ by at most one, the larger ones go first,
      and as many peers as possible get one. */
  lemma SharesConserve(budget: uint64, peers: nat)
    ensures Sum(Shares(budget, peers)) == if peers > 0 && budget < WORD64 / 2 then budget else 0
    ensures Positive(Shares(budget, peers))
    ensures forall i, j | 0 <= i < |Shares(budget, peers)| && 0 <= j < |Shares(budget, peers)| ::
              Shares(budget, peers)[i] as int <= Shares(budget, peers)[j] as int + 1
    ensures |Shares(budget, peers)| == if budget >= WORD64 / 2 then 0 else if budget < peers then budget else peers
    ensures forall i, j | 0 <= i < j < |Shares(budget, peers)| :: Shares(budget, peers)[i] >= Shares(budget, peers)[j]
  {
    var k, s := ToInt(budget), Shares(budget, peers);
    if peers > 0 && k > 0 {
      SharesAt(budget, peers);
      SharesSum(k, peers, s);
      SharesRange(k, peers, s);
    }
  }

  class SearchRequest {
    var Budget: uint64

    constructor (budget: uint64)
      ensures Budget == budget
    {
      Budget := budget;
    }
  }

  /** One request object is reused for all peers; what is sent is its budget at that moment. */
  method ForwardSearchRequest(sreq: SearchRequest, peers: seq<string>) returns (sent: seq<(string, uint64)>)
    modifies sreq
    ensures |sent| == |Shares(old(sreq.Budget), |peers|)|
    ensures forall i | 0 <= i < |sent| :: sent[i] == (peers[i], Shares(old(sreq.Budget), |peers|)[i])
  {
    sent := [];
    if |peers| == 0 {
      return;
    }
    var k := ToInt(sreq.Budget);
    var eqSplit := Quot(k, |peers|);
    var remainder := Rem(k, |peers|);
    ghost var shares := Shares(sreq.Budget, |peers|);
    QuotRem(k, |peers|);
    for i := 0 to |peers|
      invariant k >= 0 ==> remainder == if i < k % |peers| then k % |peers| - i else 0
      invariant k < 0 ==> remainder <= 0 && sent == []
      invariant |sent| == if i < |shares| then i else |shares|
      invariant forall j | 0 <= j < |sent| :: sent[j] == (peers[j], shares[j])
    {
      var budget := eqSplit;
      if remainder > 0 {
        remainder := remainder - 1;
        budget := budget + 1;
      }
      if budget > 0 {
        sreq.Budget := budget;
        sent := sent + [(peers[i], sreq.Budget)];
      }
    }
  }

  lemma QuotientRange(k: int, n: nat, q: int, r: int)
    requires n > 0 && k >= 0 && k == n * q + r && 0 <= r < n
    ensures 0 <= q <= k && (k < n ==> q == 0) && (k >= n ==> q >= 1)
  {}

  lemma DivMod(k: int, n: nat)
    requires n > 0 && k >= 0
    ensures k == n * (k / n) + k % n && 0 <= k / n <= k && 0 <= k % n < n
    ensures k < n ==> k / n == 0
    ensures k >= n ==> k / n >= 1
  {
    QuotientRange(k, n, k / n, k % n);
  }

  lemma QuotRem(k: int, n: nat)
    requires n > 0
    ensures k >= 0 ==> Quot(k, n) == k / n && Rem(k, n) == k % n && 0 <= k / n <= k
    ensures k < 0 ==> Quot(k, n) <= 0 && Rem(k, n) <= 0
    ensures 0 <= k < n ==> k / n == 0 && k % n == k
    ensures k >= n ==> k / n >= 1
  {
    if k >= 0 {
      DivMod(k, n);
    } else {
      DivMod(-k, n);
      var q := (-k) / n;
      assert Rem(k, n) == k - n * (-q) == k + n * q;
    }
  }

  /** The handling of a received request that is no repeat: count this node, pass on the rest. */
  method HandleSearchRequest(sreq: SearchRequest, origin: string, sender: string, known: seq<string>)
    returns (sent: seq<(string, uint64)>)
    modifies sreq
    ensures var peers := Without(known, [origin, sender]);
            && |sent| == |Shares(Pred64(old(sreq.Budget)), |peers|)|
            && forall i | 0 <= i < |sent| :: sent[i] == (peers[i], Shares(Pred64(old(sreq.Budget)), |peers|)[i])
  {
    sreq.Budget := Pred64(sreq.Budget);
    var peers := StringArrayDifference(known, [origin, sender]);
    sent := ForwardSearchRequest(sreq, peers);
  }

  /** A received budget `b` passes on exactly `b - 1` if that is a positive `int` and there is
      somebody to pass it to, and nothing otherwise: also a budget of 0, whose decrement wraps. */
  lemma ForwardedTotal(b: uint64, peers: nat)
    ensures Sum(Shares(Pred64(b), peers)) == if peers > 0 && 1 <= b <= WORD64 / 2 then b - 1 else 0
  {
    hide Shares, Sum;
    SharesConserve(Pred64(b), peers);
  }

  // ---------------------------------------------------------------- across the network

  /** The budgets of the packets under way, and how many were received so far. */
  datatype Search = Search(inFlight: seq<uint64>, receptions: nat)

  /** A packet is lost, or received once by a node that ignores it or passes it on. */
  datatype Step = Lose(at: nat) | Receive(at: nat, ignored: bool, peers: nat)

  predicate Enabled(s: Search, e: Step) {
    e.at < |s.inFlight|
  }

  function Taken(s: seq<uint64>, i: nat): seq<uint64>
    requires i < |s|
  {
    s[..i] + s[i + 1..]
  }

  function Apply(s: Search, e: Step): Search
    requires Enabled(s, e)
  {
    var rest := Taken(s.inFlight, e.at);
    match e
    case Lose(_) => Search(rest, s.receptions)
    case Receive(at, ignored, peers) =>
      Search(if ignored then rest else rest + Shares(Pred64(s.inFlight[at]), peers), s.receptions + 1)
  }

  function Run(s: Search, steps: seq<Step>): (r: Option<Search>) {
    if steps == [] then Some(s)
    else
      match Run(s, steps[..|steps| - 1])
      case None => None
      case Some(t) => if Enabled(t, steps[|steps| - 1]) then Some(Apply(t, steps[|steps| - 1])) else None
  }

  lemma {:induction false} SumConcat(a: seq<uint64>, b: seq<uint64>)
    ensures Sum(a + b) == Sum(a) + Sum(b)
  {
    if b == [] {
      assert a + b == a;
    } else {
      SumConcat(a, b[..|b| - 1]);
      assert (a + b)[..|a + b| - 1] == a + b[..|b| - 1];
    }
  }

  lemma {:induction false} SumAtLeastLength(s: seq<uint64>)
    requires Positive(s)
    ensures Sum(s) >= |s|
  {
    if s != [] {
      SumAtLeastLength(s[..|s| - 1]);
    }
  }

  lemma SumSplit(s: seq<uint64>, i: nat)
    requires i < |s|
    ensures Sum(s) == Sum(s[..i]) + s[i] + Sum(s[i + 1..])
  {
    var front := s[..i + 1];
    assert front[..i] == s[..i];
    assert front + s[i + 1..] == s;
    SumConcat(front, s[i + 1..]);
  }

  lemma SumTaken(s: seq<uint64>, i: nat)
    requires i < |s|
    ensures Sum(s) == Sum(Taken(s, i)) + s[i]
  {
    SumSplit(s, i);
    SumConcat(s[..i], s[i + 1..]);
  }

  /** Receptions and outstanding budget never grow together. */
  lemma StepSpendsBudget(s: Search, e: Step)
    requires Enabled(s, e) && Positive(s.inFlight)
    ensures var t := Apply(s, e);
            && t.receptions + Sum(t.inFlight) <= s.receptions + Sum(s.inFlight)
            && Positive(t.inFlight)
  {
    SumTaken(s.inFlight, e.at);
    var rest := Taken(s.inFlight, e.at);
    if e.Receive? && !e.ignored {
      var b := s.inFlight[e.at];
      ForwardedTotal(b, e.peers);
      SharesConserve(Pred64(b), e.peers);
      SumConcat(rest, Shares(Pred64(b), e.peers));
    }
  }

  lemma {:induction false} RunSpendsBudget(s: Search, steps: seq<Step>)
    requires Run(s, steps).Some? && Positive(s.inFlight)
    ensures var t := Run(s, steps).value;
            && t.receptions + Sum(t.inFlight) <= s.receptions + Sum(s.inFlight)
            && Positive(t.inFlight)
  {
    if steps != [] {
      var front := steps[..|steps| - 1];
      RunSpendsBudget(s, front);
      StepSpendsBudget(Run(s, front).value, steps[|steps| - 1]);
    }
  }

  /** One search of budget `budget` is received at most `budget` times across the whole network,
      and at most as many packets as budget is left are still under way. */
  lemma SearchIsBounded(budget: uint64, peers: nat, steps: seq<Step>)
    requires Run(Search(Shares(budget, peers), 0), steps).Some?
    ensures var t := Run(Search(Shares(budget, peers), 0), steps).value;
            t.receptions + |t.inFlight| <= budget
  {
    SharesConserve(budget, peers);
    RunSpendsBudget(Search(Shares(budget, peers), 0), steps);
    SumAtLeastLength(Run(Search(Shares(budget, peers), 0), steps).value.inFlight);
  }
}
