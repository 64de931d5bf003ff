/**
 For which sets of blocks all orders of arrival agree: exactly the compatible ones, which lead to their
 ledger, and those of which every block is refused in every order.
 */
module Agreement {
  import opened Words
  import opened Chain
  import opened Forest
  import opened Ledger
  import opened Arrival

  // ---------------------------------------------------------------- blocks that find nothing waiting

  /** The next insert works and finds no orphan to adopt, as long as it is one of `rest`. */
  ghost predicate Quiet(ledger: BlockchainLedger, rest: set<Hash>)
    reads ledger
  {
    && Shape(ledger.chains) && Rooted(ledger.chains, Zero) && ledger.chains[Zero].forks <= ledger.chains.Keys
    && ledger.longestChain in ledger.chains && rest !! ledger.chains.Keys
    && Unwaited(ledger.chains, {}, rest)
  }

  /** No orphan but those of `known` waits for a block of `rest`. */
  ghost predicate Unwaited(chains: Chains, known: set<Hash>, rest: set<Hash>)
    requires Zero in chains
  {
    forall g: Hash | g in chains[Zero].forks && g.Digest? && g !in known :: g.prev !in rest
  }

  /** `b` is one of the shallowest of `rest`. */
  ghost predicate First(b: Hash, rest: set<Hash>) {
    b in rest && b.Digest? && forall x | x in rest :: Depth(b) <= Depth(x)
  }

  lemma HungUnwaited(chains: Chains, known: set<Hash>, rest: set<Hash>, b: Hash)
    requires Shape(chains) && Unwaited(chains, known, rest) && First(b, rest)
    ensures Unwaited(Hung(chains, b), known, rest - {b}) && Unwaited(Placed(chains, b), known, rest - {b})
    ensures b.prev !in rest
  {
    assert Depth(b.prev) < Depth(b);
    assert Zero in Placed(chains, b);
    forall g: Hash | g in Placed(chains, b)[Zero].forks && g.Digest? && g !in known ensures g.prev !in rest - {b} {
      assert g in Hung(chains, b)[Zero].forks || b == Zero;
      assert g in chains[Zero].forks || g == b;
    }
  }

  lemma NoneWaiting(chains: Chains, known: set<Hash>, rest: set<Hash>, b: Hash)
    requires Shape(chains) && Unwaited(chains, known, rest) && First(b, rest) && b !in chains
    ensures Zero in Placed(chains, b)
    ensures Waiting(Placed(chains, b), b) <= known
  {
    assert b.prev != b by { assert Depth(b.prev) < Depth(b); }
    assert Placed(chains, b)[Zero].forks <= chains[Zero].forks + {b};
  }

  lemma EmptyOrder(order: seq<Hash>, waiting: set<Hash>)
    requires waiting == {} && forall a | a in order :: a in waiting
    ensures order == []
  {
    FirstOf(order);
  }

  /** A block that is not refused in every order arrives after its ancestors: the insert works. */
  method InsertQuiet(ledger: BlockchainLedger, b: Hash, ghost rest: set<Hash>) returns (ok: bool)
    requires Quiet(ledger, rest) && First(b, rest) && !Repeats(b)
    modifies ledger
    ensures ok && Quiet(ledger, rest - {b}) && (b in ledger.chains <==> !Refused(old(ledger.chains), b))
    ensures var before := old(ledger.chains);
            ledger.chains == if Refused(before, b) then Hung(before, b) else Placed(before, b)
  {
    hide Shape, Rooted, Unwaited, Placed, Hung, ClaimsAt, IsLongest, Waiting;
    ghost var before, order := ledger.chains, [];
    HungUnwaited(before, {}, rest, b);
    NoneWaiting(before, {}, rest, b);
    QuietForks(before, b);
    var valid, changed, grew;
    ok, valid, changed, grew, order := ledger.InsertBlock(b, {});
    if valid { EmptyOrder(order, Waiting(Placed(before, b), b)); }
  }

  /** What the insert does to the forks of genesis and to the keys. */
  lemma QuietForks(before: Chains, b: Hash)
    requires Shape(before) && b.Digest? && b !in before && before[Zero].forks <= before.Keys && Rooted(before, Zero)
    ensures Zero in Placed(before, b) && Placed(before, b).Keys == before.Keys + {b}
    ensures Placed(before, b)[Zero].forks <= Placed(before, b).Keys
    ensures Shape(Hung(before, b)) && Hung(before, b).Keys == before.Keys
    ensures Refused(before, b) && !Repeats(b) ==>
            Hung(before, b)[Zero].forks == before[Zero].forks && Rooted(Hung(before, b), Zero)
  {
    HungShape(before, b);
    PlacedShape(before, b);
    if Refused(before, b) && b.prev == Zero { assert BranchNames(before.Keys, b) == b.names; }
  }

  // ---------------------------------------------------------------- a refused block stays lost

  /** The parent of `y` lists it, but there is no such entry. */
  ghost predicate Lost(chains: Chains, y: Hash) {
    y.Digest? && y !in chains && y.prev in chains && y in chains[y.prev].forks
  }

  lemma LostStays(chains: Chains, y: Hash, b: Hash)
    requires Shape(chains) && b.Digest? && b != y && b !in chains
    ensures y.Digest? && y.prev != b ==>
              (Lost(Hung(chains, b), y) <==> Lost(chains, y)) && (Lost(Placed(chains, b), y) <==> Lost(chains, y))
    ensures Lost(chains, y) ==> Lost(Hung(chains, b), y) && Lost(Placed(chains, b), y)
  {}

  lemma RefusedIsLost(chains: Chains, y: Hash)
    requires Zero in chains && y.Digest? && y !in chains && Refused(chains, y)
    ensures Lost(Hung(chains, y), y)
  {}

  lemma PlacedLedger(blocks: set<Hash>, b: Hash)
    requires Blocks(blocks) && b.Digest? && b !in blocks && Kids(blocks, b) == {}
    ensures Zero in LedgerOf(blocks) && Placed(LedgerOf(blocks), b) == LedgerOf(blocks + {b})
  {
    assert Zero in LedgerOf(blocks);
    LedgerPlaced(blocks, b);
    AdoptedAll(blocks, b, Placed(LedgerOf(blocks), b));
  }

  /** Insert blocks by depth, after a new ledger: the insert always works. Either none is refused, or one
      of them is lost and the blocks are not compatible. */
  method InsertInOrder(ledger: BlockchainLedger, sorted: seq<Hash>) returns (refused: Option<Hash>)
    requires Quiet(ledger, SetOf(sorted)) && ledger.Holds({})
    requires Distinct(sorted) && ByDepth(sorted) && forall b | b in sorted :: b.Digest? && !Repeats(b)
    modifies ledger
    ensures Shape(ledger.chains)
    ensures refused.None? ==> ledger.chains == LedgerOf(SetOf(sorted))
    ensures refused.Some? ==>
              && refused.value in sorted && refused.value.prev != Zero
              && Lost(ledger.chains, refused.value) && !Compatible(SetOf(sorted))
  {
    hide Quiet, Lost, Compatible, IsLongest, Refused, Placed, Hung, ByDepth, Distinct;
    refused := None;
    assert sorted[0..] == sorted && SetOf(sorted[..0]) == {};
    for i := 0 to |sorted|
      invariant Quiet(ledger, SetOf(sorted[i..]))
      invariant refused.None? ==> ledger.chains == LedgerOf(SetOf(sorted[..i]))
      invariant refused.Some? ==>
                  && refused.value in sorted[..i] && refused.value.prev != Zero
                  && Lost(ledger.chains, refused.value) && !Compatible(SetOf(sorted))
    {
      ghost var before, front, rest := ledger.chains, SetOf(sorted[..i]), SetOf(sorted[i..]);
      var b := sorted[i];
      Turn(sorted, i);
      QuietKeys(ledger, rest, b);
      QuietShape(ledger, rest);
      var ok := InsertQuiet(ledger, b, rest);
      if refused.None? {
        if b !in ledger.chains {
          RefusedIsLost(before, b);
          RefusedClashes(front, b, SetOf(sorted));
          RefusedDeep(before, b);
          refused := Some(b);
        } else {
          PlacedLedger(front, b);
        }
      } else {
        LostStays(before, refused.value, b);
      }
    }
    assert sorted[..|sorted|] == sorted;
    QuietShape(ledger, SetOf(sorted[|sorted|..]));
  }

  lemma QuietShape(ledger: BlockchainLedger, rest: set<Hash>)
    requires Quiet(ledger, rest)
    ensures Shape(ledger.chains)
  {}

  lemma QuietKeys(ledger: BlockchainLedger, rest: set<Hash>, b: Hash)
    requires Quiet(ledger, rest) && b in rest
    ensures b !in ledger.chains && Zero in ledger.chains
  {}

  lemma RefusedDeep(chains: Chains, b: Hash)
    requires b.Digest? && Refused(chains, b) && !Repeats(b)
    ensures b.prev != Zero
  {
    assert b.names + BranchNames(chains.Keys, Zero) == b.names;
  }

  /** The turn of `sorted[i]`. */
  lemma Turn(sorted: seq<Hash>, i: nat)
    requires i < |sorted| && Distinct(sorted) && ByDepth(sorted) && forall b | b in sorted :: b.Digest?
    ensures var b, front, rest := sorted[i], SetOf(sorted[..i]), SetOf(sorted[i..]);
            && First(b, rest) && SetOf(sorted[i + 1..]) == rest - {b} && b !in sorted[..i]
            && Blocks(front) && b !in front && Kids(front, b) == {} && front + {b} <= SetOf(sorted)
            && SetOf(sorted[..i + 1]) == front + {b}
  {
    FrontGrows(sorted, i);
    TurnRest(sorted, i);
    var b := sorted[i];
    forall x | x in sorted[..i] ensures x != b && x in sorted && Depth(x) <= Depth(b) {
      var j :| 0 <= j < i && sorted[..i][j] == x;
      assert x == sorted[j];
    }
  }

  lemma TurnRest(sorted: seq<Hash>, i: nat)
    requires i < |sorted| && Distinct(sorted) && ByDepth(sorted) && forall b | b in sorted :: b.Digest?
    ensures var b, rest := sorted[i], SetOf(sorted[i..]); First(b, rest) && SetOf(sorted[i + 1..]) == rest - {b}
  {
    var b := sorted[i];
    assert sorted[i..] == [b] + sorted[i + 1..];
    forall x | x in sorted[i + 1..] ensures x != b && Depth(b) <= Depth(x) {
      var j :| 0 <= j < |sorted[i + 1..]| && sorted[i + 1..][j] == x;
      assert x == sorted[i + 1 + j];
    }
  }

  // ---------------------------------------------------------------- the refused block first

  /** `y` waits for its parent, or is not lost any more. */
  ghost predicate Loose(chains: Chains, y: Hash, rest: set<Hash>) {
    Shape(chains) && y.Digest? && y !in rest && Unwaited(chains, {y}, rest) && !Lost(chains, y)
  }

  method InsertLoose(ledger: BlockchainLedger, b: Hash, ghost y: Hash, ghost rest: set<Hash>) returns (ok: bool)
    requires Loose(ledger.chains, y, rest) && First(b, rest)
    modifies ledger
    ensures ok ==> Loose(ledger.chains, y, rest - {b})
  {
    hide Shape, Placed, Hung, ClaimsAt, IsLongest, Refused, Lost, Unwaited, Rehung, Waiting, LoneGap, AllFine;
    ghost var before, order := ledger.chains, [];
    HungUnwaited(before, {y}, rest, b);
    if b !in before {
      NoneWaiting(before, {y}, rest, b);
      LostStays(before, y, b);
    }
    var valid, changed, grew;
    ok, valid, changed, grew, order := ledger.InsertBlock(b, {});
    if valid && ok {
      ghost var placed := Placed(before, b);
      if y.prev == b {
        Reclaimed(placed, ledger.chains, y, rest - {b}, before);
      } else {
        NotWaiting(placed, b, y);
        EmptyOrder(order, Waiting(placed, b));
      }
    } else if ok && b in before {
      FewerWaited(before, y, rest, b);
    } else if ok {
      RefusedLoose(before, y, b);
    }
  }

  lemma RefusedLoose(before: Chains, y: Hash, b: Hash)
    requires Shape(before) && b.Digest? && b !in before && Refused(before, b) && b != y && y.Digest? && !Lost(before, y)
    ensures !Lost(Hung(before, b), y)
  {}

  lemma FewerWaited(chains: Chains, y: Hash, rest: set<Hash>, b: Hash)
    requires Shape(chains) && Unwaited(chains, {y}, rest)
    ensures Unwaited(chains, {y}, rest - {b})
  {}

  lemma NotWaiting(chains: Chains, b: Hash, y: Hash)
    requires Zero in chains && y.Digest? && y.prev != b && Waiting(chains, b) <= {y}
    ensures Waiting(chains, b) == {}
  {
    assert y !in Waiting(chains, b);
  }

  /** The parent of `y` has come: its forks are present. */
  lemma Reclaimed(placed: Chains, now: Chains, y: Hash, rest: set<Hash>, before: Chains)
    requires y.Digest? && y.prev.Digest? && y.prev !in before && Shape(before)
    requires placed == Placed(before, y.prev) && Zero in placed && Zero in now && y.prev in now
             && Rehung(placed, now, y.prev)
    requires Unwaited(placed, {y}, rest)
    ensures !Lost(now, y) && Unwaited(now, {y}, rest)
  {}

  /** `y` arrives first and waits for its parent; the others come by depth. If all inserts work, `y` is
      not lost at the end. */
  method InsertAhead(y: Hash, sorted: seq<Hash>) returns (ledger: BlockchainLedger, ok: bool)
    requires y.Digest? && y.prev != Zero && y !in sorted
    requires Distinct(sorted) && ByDepth(sorted) && forall b | b in sorted :: b.Digest?
    ensures fresh(ledger) && (ok ==> !Lost(ledger.chains, y))
  {
    hide Shape, IsLongest, Lost, Unwaited, ByDepth, Distinct, Refused;
    ledger := new BlockchainLedger();
    AheadStarts(y, SetOf(sorted));
    ok := InsertDeeper(ledger, y, {});
    assert {} + {y} == {y} && sorted[0..] == sorted;
    for i := 0 to |sorted|
      invariant ok && Loose(ledger.chains, y, SetOf(sorted[i..]))
    {
      Turn(sorted, i);
      ok := InsertLoose(ledger, sorted[i], y, SetOf(sorted[i..]));
      if !ok {
        return;
      }
    }
  }

  lemma AheadStarts(y: Hash, rest: set<Hash>)
    requires y.Digest? && y.prev != Zero && y !in rest
    ensures !Refused(LedgerOf({}), y) && Loose(LedgerOf({y}), y, rest)
  {
    assert LedgerOf({}).Keys == {Zero} && LedgerOf({y}).Keys == {y, Zero};
    LedgerPlaced({}, y);
    PlacedLedger({}, y);
    assert {} + {y} == {y};
    PlacedShape(LedgerOf({}), y);
    assert Forks({y}, Zero) <= {y};
  }

  // ---------------------------------------------------------------- all orders

  /** Insert blocks that are always refused: nothing fails. */
  method InsertRefused(ledger: BlockchainLedger, bad: seq<Hash>) returns (ok: bool)
    requires Shape(ledger.chains) && forall b | b in bad :: Repeats(b)
    modifies ledger
    ensures ok && Shape(ledger.chains)
  {
    hide Shape, IsLongest, Hung, Placed;
    for i := 0 to |bad|
      invariant Shape(ledger.chains)
    {
      ghost var order;
      var valid, changed, grew;
      AlwaysRefused(ledger.chains, bad[i]);
      ok, valid, changed, grew, order := ledger.InsertBlock(bad[i], {});
    }
    ok := true;
  }

  lemma AlwaysRefused(chains: Chains, b: Hash)
    requires Shape(chains) && Repeats(b)
    ensures Refused(chains, b)
  {
    assert BranchNames(chains.Keys, b) == b.names;
  }

  lemma RepeatsIncompatible(blocks: set<Hash>, b: Hash)
    requires b in blocks && Repeats(b)
    ensures !Compatible(blocks)
  {
    assert !Clean(blocks, b);
  }

  lemma NewIsQuiet(ledger: BlockchainLedger, rest: set<Hash>)
    requires ledger.Holds({}) && ledger.longestChain == Zero && Zero !in rest
    ensures Quiet(ledger, rest)
  {
    assert Forks({}, Zero) == {} && LedgerOf({}).Keys == {Zero};
  }

  lemma TwoFirst(x: Hash, y: Hash, others: seq<Hash>, blocks: set<Hash>)
    requires x in blocks && y in blocks && x != y && Distinct(others) && SetOf(others) == blocks - {x, y}
    ensures SetOf([x, y] + others) == blocks && Distinct([x, y] + others)
  {
    var all := [x, y] + others;
    forall k ensures k in SetOf(all) <==> k in blocks { assert k in all <==> k in {x, y} + SetOf(others); }
    forall i | 0 <= i < |others| ensures others[i] != x && others[i] != y { assert others[i] in SetOf(others); }
  }

  lemma OneFirst(y: Hash, others: seq<Hash>, blocks: set<Hash>)
    requires y in blocks && Distinct(others) && SetOf(others) == blocks - {y}
    ensures SetOf([y] + others) == blocks && Distinct([y] + others) && y !in others
  {
    forall k ensures k in SetOf([y] + others) <==> k in blocks {
      assert k in [y] + others <==> k in {y} + SetOf(others);
    }
    Members(others, blocks - {y});
    forall i | 0 <= i < |others| ensures others[i] != y { assert others[i] in SetOf(others); }
  }

  lemma Appended(s: seq<Hash>, t: seq<Hash>)
    requires Distinct(s) && Distinct(t) && SetOf(s) !! SetOf(t)
    ensures Distinct(s + t) && SetOf(s + t) == SetOf(s) + SetOf(t)
  {
    forall i, j | 0 <= i < |s| && 0 <= j < |t| ensures s[i] != t[j] { assert s[i] in SetOf(s) && t[j] in SetOf(t); }
  }

  /** Some, but not all blocks are refused in every order: one such block first makes the insert fail. */
  method MixedOrders(blocks: set<Hash>, bad: set<Hash>)
    returns (first: seq<Hash>, second: seq<Hash>, a: BlockchainLedger, b: BlockchainLedger, okA: bool, okB: bool)
    requires Blocks(blocks) && bad == (set x | x in blocks && Repeats(x)) && bad != {} && bad != blocks
    ensures SetOf(first) == SetOf(second) == blocks && Distinct(first) && Distinct(second)
    ensures okA && !okB && !Compatible(blocks) && !Hopeless(blocks)
  {
    hide Compatible, Shape, IsLongest, Lost, Quiet, Distinct, ByDepth;
    var good := SortByDepth(blocks - bad);
    var rest := SortByDepth(bad);
    assert bad <= blocks;
    var x :| x in bad;
    assert blocks - bad + bad == blocks;
    var g :| g in blocks - bad;
    Members(good, blocks - bad);
    Members(rest, bad);
    a := new BlockchainLedger();
    NewIsQuiet(a, SetOf(good));
    var refused := InsertInOrder(a, good);
    okA := InsertRefused(a, rest);
    Appended(good, rest);
    var others := SortByDepth(blocks - {x, g});
    var valid;
    b, okB, valid := LostForkOfGenesis(x, g);
    TwoFirst(x, g, others, blocks);
    RepeatsIncompatible(blocks, x);
    first, second := good + rest, [x, g] + others;
  }

  lemma Members(s: seq<Hash>, blocks: set<Hash>)
    requires SetOf(s) == blocks
    ensures forall b | b in s :: b in blocks
  {
    forall b | b in s ensures b in blocks { assert b in SetOf(s); }
  }

  /** No block is refused in every order. */
  method PlainOrders(blocks: set<Hash>)
    returns (first: seq<Hash>, second: seq<Hash>, a: BlockchainLedger, b: BlockchainLedger, okA: bool, okB: bool)
    requires Blocks(blocks) && forall x | x in blocks :: !Repeats(x)
    ensures SetOf(first) == SetOf(second) == blocks && Distinct(first) && Distinct(second)
    ensures okA && ((okB && a.chains == b.chains) <==> Compatible(blocks))
  {
    hide Compatible, Shape, IsLongest, Lost, Quiet, Distinct, ByDepth;
    first := SortByDepth(blocks);
    okA := true;
    Members(first, blocks);
    a := new BlockchainLedger();
    NewIsQuiet(a, SetOf(first));
    var refused := InsertInOrder(a, first);
    if refused.None? {
      second, b, okB := WorstOrder(blocks);
    } else {
      var y := refused.value;
      var others := SortByDepth(blocks - {y});
      Members(others, blocks - {y});
      OneFirst(y, others, blocks);
      second := [y] + others;
      b, okB := InsertAhead(y, others);
    }
  }

  /** For every set of blocks there are two orders, the first of which always works, such that they end
      in the same chains if and only if the blocks are compatible or are all refused in every order. In
      these two cases `InsertAll` leads to the same chains in all orders. */
  method TwoOrders(blocks: set<Hash>)
    returns (first: seq<Hash>, second: seq<Hash>, a: BlockchainLedger, b: BlockchainLedger, okA: bool, okB: bool)
    requires Blocks(blocks)
    ensures SetOf(first) == SetOf(second) == blocks && Distinct(first) && Distinct(second)
    ensures okA && ((okB && a.chains == b.chains) <==> Compatible(blocks) || Hopeless(blocks))
  {
    hide Compatible, Distinct, ByDepth;
    var bad := set x | x in blocks && Repeats(x);
    if bad == blocks {
      first := SortByDepth(blocks);
      second := first;
      Members(first, blocks);
      a, okA := InsertAll(first);
      b, okB := InsertAll(second);
    } else if bad == {} {
      assert forall x | x in blocks :: x !in bad;
      first, second, a, b, okA, okB := PlainOrders(blocks);
      ghost var some :| some in blocks;
      assert !Hopeless(blocks) by { assert !Repeats(some); }
    } else {
      first, second, a, b, okA, okB := MixedOrders(blocks, bad);
    }
  }
}
