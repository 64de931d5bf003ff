/**
 When every order in which blocks arrive leads to the ledger of their set: exactly when no two blocks
 of one tree claim the same name (and no block repeats a name, unless it is an orphan without children).
 */
module Arrival {
  import opened Words
  import opened Chain
  import opened Forest
  import opened Ledger

  // ---------------------------------------------------------------- the condition

  /** No two blocks that descend from `p` claim the same name. */
  predicate Apart(blocks: set<Hash>, p: Hash) {
    forall x, y | x in blocks && y in blocks && x != y && InSub(blocks, p, x) && InSub(blocks, p, y) ::
      Disjoint(x, y)
  }

  predicate Disjoint(x: Hash, y: Hash) {
    x.Digest? && y.Digest? ==> forall n | n in x.names :: n !in y.names
  }

  /** An orphan without children. */
  predicate Alone(blocks: set<Hash>, b: Hash)
    requires b.Digest?
  {
    b.prev != Zero && b.prev !in blocks && Kids(blocks, b) == {}
  }

  predicate Clean(blocks: set<Hash>, b: Hash) {
    b.Digest? ==> NoDuplicates(b.names) || Alone(blocks, b)
  }

  predicate Compatible(blocks: set<Hash>) {
    forall b | b in blocks :: Clean(blocks, b) && Apart(blocks, b)
  }

  /** The first block on the way down to `h`. */
  function RootOf(blocks: set<Hash>, h: Hash): Hash {
    if h.Digest? && h.prev in blocks then RootOf(blocks, h.prev) else h
  }

  lemma {:induction false} RootAbove(blocks: set<Hash>, h: Hash)
    requires Blocks(blocks) && h in blocks
    ensures var r := RootOf(blocks, h);
            r in blocks && InSub(blocks, r, h) && r == PathToRoot(blocks, h)[|PathToRoot(blocks, h)| - 1]
    decreases h
  {
    if h.prev in blocks {
      RootAbove(blocks, h.prev);
    }
  }

  lemma {:induction false} RootBelow(blocks: set<Hash>, r: Hash, h: Hash)
    requires Blocks(blocks) && r in blocks && InSub(blocks, r, h)
    ensures RootOf(blocks, h) == RootOf(blocks, r)
    decreases h
  {
    if h != r {
      RootBelow(blocks, r, h.prev);
      InSubPresent(blocks, r, h.prev);
    }
  }

  lemma InSubPresent(blocks: set<Hash>, r: Hash, h: Hash)
    requires r in blocks && InSub(blocks, r, h)
    ensures h in blocks
  {}

  /** The condition in terms of trees: two blocks with the same root claim different names. */
  lemma CompatibleIff(blocks: set<Hash>)
    requires Blocks(blocks)
    ensures Compatible(blocks) <==>
              && (forall b | b in blocks :: Clean(blocks, b))
              && forall x, y | x in blocks && y in blocks && x != y && RootOf(blocks, x) == RootOf(blocks, y) ::
                  Disjoint(x, y)
  {
    if Compatible(blocks) {
      forall x, y | x in blocks && y in blocks && x != y && RootOf(blocks, x) == RootOf(blocks, y)
        ensures Disjoint(x, y)
      {
        RootAbove(blocks, x);
        RootAbove(blocks, y);
        assert Apart(blocks, RootOf(blocks, x));
      }
    }
    if forall x, y | x in blocks && y in blocks && x != y && RootOf(blocks, x) == RootOf(blocks, y) :: Disjoint(x, y) {
      forall b, x, y | b in blocks && x in blocks && y in blocks && x != y && InSub(blocks, b, x) && InSub(blocks, b, y)
        ensures Disjoint(x, y)
      {
        RootBelow(blocks, b, x);
        RootBelow(blocks, b, y);
      }
    }
  }

  lemma {:induction false} InSubGrows(blocks: set<Hash>, more: set<Hash>, p: Hash, k: Hash)
    requires blocks <= more && InSub(blocks, p, k)
    ensures InSub(more, p, k)
    decreases k
  {
    if k != p {
      InSubGrows(blocks, more, p, k.prev);
    }
  }

  lemma CompatiblePart(blocks: set<Hash>, more: set<Hash>)
    requires blocks <= more && Compatible(more)
    ensures Compatible(blocks)
  {
    forall b | b in blocks ensures Clean(blocks, b) && Apart(blocks, b) {
      assert Clean(more, b) && Apart(more, b);
      forall x, y | x in blocks && y in blocks && x != y && InSub(blocks, b, x) && InSub(blocks, b, y)
        ensures Disjoint(x, y)
      {
        InSubGrows(blocks, more, b, x);
        InSubGrows(blocks, more, b, y);
      }
    }
  }

  // ---------------------------------------------------------------- one arrival

  /** The proper descendants of `b`. */
  ghost function Descendants(blocks: set<Hash>, b: Hash): set<Hash> {
    set k | k in blocks && k != b && InSub(blocks, b, k)
  }

  ghost function Trees(chains: Chains, order: seq<Hash>): set<Hash> {
    if order == [] then {} else Trees(chains, order[..|order| - 1]) + Tree(chains, order[|order| - 1])
  }

  lemma {:induction false} TreesApart(chains: Chains, order: seq<Hash>, a: Hash)
    requires a !in order && forall x | x in order :: Depth(x) == Depth(a)
    ensures Trees(chains, order) !! Tree(chains, a)
  {
    if order != [] {
      var front, x := order[..|order| - 1], order[|order| - 1];
      TreesApart(chains, front, a);
      forall k | k in Tree(chains, x) ensures k !in Tree(chains, a) {
        if k in Tree(chains, a) { SameDepth(Linked(chains), Linked(chains), x, a, k); }
      }
    }
  }

  lemma TreeOwn(chains: Chains, a: Hash, c: Claims)
    requires a.Digest? && Clear(Tree(chains, a), c)
    ensures OwnClear(a, c)
  {
    assert a in Tree(chains, a);
    ClearPart({a}, Tree(chains, a), c);
    OwnClearIff(a, c);
  }

  /** Whether all orphans can stay does not depend on the order in which they are adopted. */
  lemma {:induction false} StayIff(chains: Chains, c: Claims, order: seq<Hash>, depth: nat)
    requires Distinct(order) && forall x | x in order :: x.Digest? && Depth(x) == depth && Whole(chains, x)
    ensures AllFine(chains, c, order) && NoneGoes(chains, c, order) <==> Clear(Trees(chains, order), c)
    ensures NoneGoes(chains, c, order) ==> ClaimsAfter(chains, c, order) == With(c, Names(Trees(chains, order)))
  {
    if order == [] {
      assert Names({}) == {};
      if c.Some? { assert c.value + {} == c.value; }
    } else {
      var front, a := order[..|order| - 1], order[|order| - 1];
      forall x | x in front ensures x in order && x != a {}
      StayIff(chains, c, front, depth);
      StayStep(chains, c, front, a);
      assert order == front + [a];
    }
  }

  lemma StayStep(chains: Chains, c: Claims, front: seq<Hash>, a: Hash)
    requires a.Digest? && Whole(chains, a) && a !in front && forall x | x in front :: Depth(x) == Depth(a)
    requires AllFine(chains, c, front) && NoneGoes(chains, c, front) <==> Clear(Trees(chains, front), c)
    requires NoneGoes(chains, c, front) ==> ClaimsAfter(chains, c, front) == With(c, Names(Trees(chains, front)))
    ensures var order := front + [a];
            && Trees(chains, order) == Trees(chains, front) + Tree(chains, a)
            && (AllFine(chains, c, order) && NoneGoes(chains, c, order) <==> Clear(Trees(chains, order), c))
            && (NoneGoes(chains, c, order) ==> ClaimsAfter(chains, c, order) == With(c, Names(Trees(chains, order))))
  {
    hide Clear, Tree, Whole, Names;
    var order, before, mine := front + [a], Trees(chains, front), Tree(chains, a);
    assert order[..|order| - 1] == front;
    OneMore(chains, c, front, a);
    TreesApart(chains, front, a);
    ClearUnion(before, mine, c);
    NamesUnion(before, mine);
    WithTwice(c, Names(before), Names(mine));
    if Clear(mine, With(c, Names(before))) { TreeOwn(chains, a, With(c, Names(before))); }
  }

  lemma WithTwice(c: Claims, a: set<string>, b: set<string>)
    ensures With(With(c, a), b) == With(c, a + b)
  {
    if c.Some? { assert c.value + a + b == c.value + (a + b); }
  }

  lemma {:induction false} NothingGoneIff(chains: Chains, c: Claims, order: seq<Hash>)
    ensures NoneGoes(chains, c, order) <==> Gone(chains, c, order) == {}
  {
    if order != [] {
      NothingGoneIff(chains, c, order[..|order| - 1]);
      var a := order[|order| - 1];
      assert a in Tree(chains, a);
    }
  }

  /** In the ledger of blocks the trees through forks are the subtrees. */
  lemma {:induction false} ReadyBelow(blocks: set<Hash>, b: Hash, placed: Chains, a: Hash, k: Hash)
    requires Ready(blocks, b, placed) && a in Kids(blocks, b)
    ensures Below(placed, a, k) <==> InSub(blocks + {b}, a, k)
    ensures Below(placed, a, k) ==> k in blocks
    decreases k
  {
    if k != a && k.Digest? {
      ReadyBelow(blocks, b, placed, a, k.prev);
      assert placed.Keys == blocks + {b, Zero} == blocks + {b} + {Zero};
      if InSub(blocks + {b}, a, k.prev) {
        InSubWithZero(blocks + {b}, a, k.prev);
        AdoptingBelow(blocks, b, {}, placed, a, k.prev);
        ReadyNotB(blocks, b, placed, a, k);
      }
    }
  }

  lemma ReadyNotB(blocks: set<Hash>, b: Hash, placed: Chains, a: Hash, k: Hash)
    requires Ready(blocks, b, placed) && a in Kids(blocks, b) && k.Digest? && InSub(blocks + {b}, a, k.prev)
    ensures k != b
  {
    SubDeeper(blocks + {b}, a, k.prev);
  }

  lemma ReadyTree(blocks: set<Hash>, b: Hash, placed: Chains, a: Hash)
    requires Ready(blocks, b, placed) && a in Kids(blocks, b)
    ensures Whole(placed, a) && Tree(placed, a) <= Descendants(blocks + {b}, b)
  {
    assert placed.Keys == blocks + {b, Zero};
    forall k | Below(placed, a, k) ensures k in placed && k in Descendants(blocks + {b}, b) {
      ReadyBelow(blocks, b, placed, a, k);
      assert a in Kids(blocks + {b}, b);
      KidSubIsSub(blocks + {b}, b, a, k);
    }
  }

  lemma {:induction false} TreesInside(blocks: set<Hash>, b: Hash, placed: Chains, order: seq<Hash>)
    requires Ready(blocks, b, placed) && SetOf(order) <= Kids(blocks, b)
    ensures Trees(placed, order) <= Descendants(blocks + {b}, b)
  {
    if order != [] {
      var front, a := order[..|order| - 1], order[|order| - 1];
      forall x | x in front ensures x in SetOf(order) {}
      assert a in SetOf(order);
      TreesInside(blocks, b, placed, front);
      ReadyTree(blocks, b, placed, a);
    }
  }

  lemma {:induction false} TreeAmong(chains: Chains, order: seq<Hash>, a: Hash)
    requires a in order
    ensures Tree(chains, a) <= Trees(chains, order)
  {
    var front := order[..|order| - 1];
    if a != order[|order| - 1] {
      TreeAmong(chains, front, a);
    }
  }

  lemma TreesAll(blocks: set<Hash>, b: Hash, placed: Chains, order: seq<Hash>)
    requires Ready(blocks, b, placed) && SetOf(order) == Kids(blocks, b)
    ensures Trees(placed, order) == Descendants(blocks + {b}, b)
  {
    hide Ready, Descendants, Trees;
    TreesInside(blocks, b, placed, order);
    forall k | k in Descendants(blocks + {b}, b) ensures k in Trees(placed, order) {
      DescendantInTree(blocks, b, placed, order, k);
    }
  }

  lemma DescendantInTree(blocks: set<Hash>, b: Hash, placed: Chains, order: seq<Hash>, k: Hash)
    requires Ready(blocks, b, placed) && SetOf(order) == Kids(blocks, b) && k in Descendants(blocks + {b}, b)
    ensures k in Trees(placed, order)
  {
    hide Ready, Trees;
    SubThroughKid(blocks + {b}, b, k);
    var a := AncestorAt(k, Depth(b) + 1);
    KidOfOthers(blocks, b, a);
    ReadyBelow(blocks, b, placed, a, k);
    TreeAmong(placed, order, a);
    BelowInTree(placed, a, k);
  }

  lemma KidOfOthers(blocks: set<Hash>, b: Hash, a: Hash)
    requires a in Kids(blocks + {b}, b)
    ensures a in Kids(blocks, b)
  {
    assert Depth(a.prev) < Depth(a);
  }

  lemma BelowInTree(chains: Chains, a: Hash, k: Hash)
    requires Below(chains, a, k)
    ensures k in Tree(chains, a)
  {}

  lemma {:induction false} InSubTrans(blocks: set<Hash>, a: Hash, b: Hash, k: Hash)
    requires InSub(blocks, a, b) && InSub(blocks, b, k)
    ensures InSub(blocks, a, k)
    decreases k
  {
    if k != b {
      InSubTrans(blocks, a, b, k.prev);
    }
  }

  /** A name of a branch is claimed by an ancestor. */
  lemma {:induction false} BranchAncestor(blocks: set<Hash>, keys: set<Hash>, h: Hash, n: string) returns (c: Hash)
    requires Blocks(blocks) && keys <= blocks + {Zero} && h in blocks && n in BranchNames(keys, h)
    ensures c in blocks && n in c.names && InSub(blocks, c, h) && Depth(c) <= Depth(h)
    decreases h
  {
    if n in h.names {
      c := h;
    } else {
      c := BranchAncestor(blocks, keys, h.prev, n);
    }
  }

  lemma NotAlone(blocks: set<Hash>, b: Hash, k: Hash)
    requires Blocks(blocks) && b in blocks && k in blocks && InSub(blocks, b, k) && k != b
    ensures !Alone(blocks, b) && !Alone(blocks, k)
  {
    SubThroughKid(blocks, b, k);
    InSubPresent(blocks, b, k.prev);
  }

  /** In compatible blocks every branch passes the name check, except that of a lone orphan. */
  lemma {:induction false} BranchPasses(blocks: set<Hash>, keys: set<Hash>, h: Hash)
    requires Blocks(blocks) && Compatible(blocks) && h in blocks && !Alone(blocks, h) && keys <= blocks + {Zero}
    ensures NoDuplicates(BranchNames(keys, h))
    decreases h
  {
    assert Clean(blocks, h);
    if h.prev in keys && h.prev != Zero {
      assert InSub(blocks, h.prev, h);
      NotAlone(blocks, h.prev, h);
      BranchPasses(blocks, keys, h.prev);
      forall n | n in h.names ensures n !in BranchNames(keys, h.prev) {
        if n in BranchNames(keys, h.prev) { BranchClash(blocks, keys, h, n); }
      }
      NoDuplicatesConcat(h.names, BranchNames(keys, h.prev));
    } else {
      assert BranchNames(keys, h) == h.names;
    }
  }

  lemma BranchClash(blocks: set<Hash>, keys: set<Hash>, h: Hash, n: string)
    requires Blocks(blocks) && keys <= blocks + {Zero} && h in blocks && h.prev in blocks
    requires n in h.names && n in BranchNames(keys, h.prev)
    ensures !Compatible(blocks)
  {
    var c := BranchAncestor(blocks, keys, h.prev, n);
    assert InSub(blocks, c, h) && InSub(blocks, c, c) && c != h;
    assert !Disjoint(c, h);
    assert !Apart(blocks, c);
  }

  lemma CompatibleAccepted(blocks: set<Hash>, b: Hash)
    requires Blocks(blocks) && b.Digest? && b !in blocks && Compatible(blocks + {b})
    ensures !Refused(LedgerOf(blocks), b)
  {
    var keys := LedgerOf(blocks).Keys;
    assert keys == blocks + {Zero};
    if b.prev in keys { BranchPasses(blocks + {b}, keys, b); }
  }

  /** What a compatible block finds below it can stay. */
  lemma DescendantsClear(blocks: set<Hash>, b: Hash)
    requires Blocks(blocks) && b.Digest? && b !in blocks && Compatible(blocks + {b})
    ensures Clear(Descendants(blocks + {b}, b), ClaimsAt(LedgerOf(blocks), b))
  {
    var all, below := blocks + {b}, Descendants(blocks + {b}, b);
    if below == {} {
      assert Names(below) == {};
    } else {
      var some :| some in below;
      NotAlone(all, b, some);
      assert LedgerOf(blocks).Keys == blocks + {Zero};
      BranchPasses(all, blocks + {Zero}, b);
      forall k | k in below ensures NoDuplicates(k.names) {
        NotAlone(all, b, k);
        assert Clean(all, k);
      }
      assert Apart(all, b);
      forall x, y, n | x in below && y in below && n in x.names && n in y.names ensures x == y {
        assert x != y ==> Disjoint(x, y);
      }
      forall n | n in Names(below) ensures n !in BranchNames(blocks + {Zero}, b) {
        if n in BranchNames(blocks + {Zero}, b) { BelowClash(blocks, b, n); }
      }
    }
  }

  lemma BelowClash(blocks: set<Hash>, b: Hash, n: string)
    requires Blocks(blocks) && b.Digest? && b !in blocks
    requires n in Names(Descendants(blocks + {b}, b)) && n in BranchNames(blocks + {Zero}, b)
    ensures !Compatible(blocks + {b})
  {
    var all := blocks + {b};
    var k :| k in Descendants(all, b) && n in k.names;
    var c := BranchAncestor(all, blocks + {Zero}, b, n);
    InSubTrans(all, c, b, k);
    SubDeeper(all, b, k);
    assert c != k && !Disjoint(c, k) && InSub(all, c, c);
    assert !Apart(all, c);
  }

  /** What stays below a block is apart from it and among itself. */
  lemma ClearIsApart(blocks: set<Hash>, b: Hash)
    requires Blocks(blocks) && b.Digest? && b !in blocks
    requires Clear(Descendants(blocks + {b}, b), ClaimsAt(LedgerOf(blocks), b))
    ensures Apart(blocks + {b}, b)
  {
    var all := blocks + {b};
    var below := Descendants(all, b);
    forall x, y | x in all && y in all && x != y && InSub(all, b, x) && InSub(all, b, y) ensures Disjoint(x, y) {
      forall n | n in x.names && n in y.names ensures false {
        assert x in below ==> n in Names(below);
        assert y in below ==> n in Names(below);
        OwnInBranch(LedgerOf(blocks).Keys, b, n);
      }
    }
  }

  lemma OwnInBranch(keys: set<Hash>, b: Hash, n: string)
    requires b.Digest?
    ensures n in b.names ==> n in BranchNames(keys, b)
  {}

  /** Placed among compatible blocks, the orphans can be adopted in every order, and all stay. */
  lemma CompatibleStays(blocks: set<Hash>, b: Hash, order: seq<Hash>)
    requires Blocks(blocks) && b.Digest? && b !in blocks && Compatible(blocks + {b})
    requires var placed := Placed(LedgerOf(blocks), b);
             Zero in placed && Distinct(order) && forall a | a in order :: a in Waiting(placed, b)
    ensures var placed, c := Placed(LedgerOf(blocks), b), ClaimsAt(LedgerOf(blocks), b);
            AllFine(placed, c, order) && NoneGoes(placed, c, order)
  {
    hide Clear, AllFine, NoneGoes, Trees, Placed, ClaimsAt, Descendants, Compatible, Ready, Whole;
    var placed, c := Placed(LedgerOf(blocks), b), ClaimsAt(LedgerOf(blocks), b);
    LedgerPlaced(blocks, b);
    ReadyWaiting(blocks, b, placed);
    forall a | a in order ensures Depth(a) == Depth(b) + 1 && Whole(placed, a) { ReadyTree(blocks, b, placed, a); }
    TreesInside(blocks, b, placed, order);
    DescendantsClear(blocks, b);
    ClearPart(Trees(placed, order), Descendants(blocks + {b}, b), c);
    StayIff(placed, c, order, Depth(b) + 1);
  }

  /** Conversely, when all orphans stayed, no two blocks below `b`, or `b` and one below, clash. */
  lemma StayedApart(blocks: set<Hash>, b: Hash, order: seq<Hash>)
    requires Blocks(blocks) && b.Digest? && b !in blocks
    requires var placed, c := Placed(LedgerOf(blocks), b), ClaimsAt(LedgerOf(blocks), b);
             && Zero in placed && Distinct(order) && SetOf(order) == Waiting(placed, b)
             && AllFine(placed, c, order) && NoneGoes(placed, c, order)
    ensures Apart(blocks + {b}, b)
  {
    hide Clear, AllFine, NoneGoes, Trees, Placed, ClaimsAt, Descendants, Ready, Whole;
    var placed, c := Placed(LedgerOf(blocks), b), ClaimsAt(LedgerOf(blocks), b);
    LedgerPlaced(blocks, b);
    ReadyWaiting(blocks, b, placed);
    forall a | a in order ensures Depth(a) == Depth(b) + 1 && a.Digest? && Whole(placed, a) {
      assert a in SetOf(order);
      ReadyTree(blocks, b, placed, a);
    }
    TreesAll(blocks, b, placed, order);
    StayIff(placed, c, order, Depth(b) + 1);
    ClearIsApart(blocks, b);
  }

  // ---------------------------------------------------------------- blocks that are always refused

  /** A child of genesis that repeats a name: it is refused whenever it arrives. */
  predicate Repeats(b: Hash) {
    b.Digest? && b.prev == Zero && !NoDuplicates(b.names)
  }

  ghost predicate Hopeless(blocks: set<Hash>) {
    forall b | b in blocks :: Repeats(b)
  }

  /** The ledger after only children of genesis that repeat a name. */
  ghost function Refusals(blocks: set<Hash>): Chains {
    map[Zero := Entry(0, blocks)]
  }

  lemma LostFork(refused: set<Hash>, next: Hash)
    requires next.Digest? && Blocks(refused)
    ensures LedgerOf({}) == Refusals({}) && next !in Refusals(refused)
    ensures Refused(Refusals(refused), next) <==> Repeats(next)
    ensures Repeats(next) ==> Hung(Refusals(refused), next) == Refusals(refused + {next})
    ensures refused != {} && next !in refused ==>
              !(Placed(Refusals(refused), next)[Zero].forks <= Placed(Refusals(refused), next).Keys)
  {
    assert Forks({}, Zero) == {};
    assert LedgerOf({}).Keys == {Zero} == Refusals(refused).Keys;
    assert BranchNames({Zero}, next) == next.names;
    if refused != {} && next !in refused {
      var lost :| lost in refused;
      assert lost in Placed(Refusals(refused), next)[Zero].forks;
    }
  }

  // ---------------------------------------------------------------- any order of arrival

  /** Offer blocks one by one until one cannot be handled. Compatible blocks can, in every order, with
      repeats and orphans, and leave the ledger of their set. */
  method Offer(ledger: BlockchainLedger, arrivals: seq<Hash>, ghost blocks: set<Hash>) returns (ok: bool)
    requires Shape(ledger.chains) && forall b | b in arrivals :: b.Digest?
    modifies ledger
    ensures Shape(ledger.chains) && ledger.chains.Keys <= old(ledger.chains).Keys + SetOf(arrivals)
    ensures old(ledger.Holds(blocks)) && Compatible(blocks + SetOf(arrivals)) ==>
              ok && ledger.Holds(blocks + SetOf(arrivals))
    ensures old(ledger.chains) == Refusals(blocks) && Hopeless(blocks + SetOf(arrivals)) ==>
              ok && ledger.chains == Refusals(blocks + SetOf(arrivals))
  {
    hide Compatible, Shape;
    assert blocks + SetOf(arrivals[..0]) == blocks;
    ghost var good := ledger.Holds(blocks) && Compatible(blocks + SetOf(arrivals));
    ghost var bad := ledger.chains == Refusals(blocks) && Hopeless(blocks + SetOf(arrivals));
    for i := 0 to |arrivals|
      invariant Shape(ledger.chains) && ledger.chains.Keys <= old(ledger.chains).Keys + SetOf(arrivals[..i])
      invariant good ==> ledger.Holds(blocks + SetOf(arrivals[..i]))
      invariant bad ==> ledger.chains == Refusals(blocks + SetOf(arrivals[..i]))
    {
      ghost var before := blocks + SetOf(arrivals[..i]);
      FrontGrows(arrivals, i);
      assert blocks + SetOf(arrivals[..i + 1]) == before + {arrivals[i]};
      if good { CompatiblePart(before + {arrivals[i]}, blocks + SetOf(arrivals)); }
      ok := OfferOne(ledger, arrivals[i], before);
      if !ok {
        FrontWithin(arrivals, i + 1);
        return false;
      }
    }
    assert arrivals[..|arrivals|] == arrivals;
    return true;
  }

  lemma FrontGrows(arrivals: seq<Hash>, i: nat)
    requires i < |arrivals|
    ensures SetOf(arrivals[..i + 1]) == SetOf(arrivals[..i]) + {arrivals[i]} <= SetOf(arrivals)
  {
    assert arrivals[..i + 1] == arrivals[..i] + [arrivals[i]];
  }

  lemma FrontWithin(arrivals: seq<Hash>, i: nat)
    requires i <= |arrivals|
    ensures SetOf(arrivals[..i]) <= SetOf(arrivals)
  {}

  method OfferOne(ledger: BlockchainLedger, b: Hash, ghost blocks: set<Hash>) returns (ok: bool)
    requires Shape(ledger.chains) && b.Digest?
    modifies ledger
    ensures Shape(ledger.chains) && ledger.chains.Keys <= old(ledger.chains).Keys + {b}
    ensures old(ledger.Holds(blocks)) && Compatible(blocks + {b}) ==> ok && ledger.Holds(blocks + {b})
    ensures old(ledger.chains) == Refusals(blocks) && Hopeless(blocks + {b}) ==>
              ok && ledger.chains == Refusals(blocks + {b})
  {
    hide Compatible, Shape, IsLongest, AllFine, NoneGoes, Placed, ClaimsAt, Refused, Refusals, Hung;
    if Hopeless(blocks + {b}) { LostFork(blocks, b); }
    ghost var good := ledger.Holds(blocks) && Compatible(blocks + {b});
    ghost var order;
    var valid, changed, grew;
    ok, valid, changed, grew, order := ledger.InsertBlock(b, blocks);
    if good {
      if b in blocks {
        assert blocks + {b} == blocks;
      } else {
        CompatibleAccepted(blocks, b);
        CompatibleStays(blocks, b, order);
      }
    }
  }

  /** Offer blocks to a new ledger: it becomes that of their set, with a head of maximal length. Blocks
      that are always refused leave only their hashes among the forks of genesis. */
  method InsertAll(arrivals: seq<Hash>) returns (ledger: BlockchainLedger, ok: bool)
    requires forall b | b in arrivals :: b.Digest?
    ensures fresh(ledger)
    ensures Compatible(SetOf(arrivals)) ==>
              ok && ledger.chains == LedgerOf(SetOf(arrivals)) && IsLongest(SetOf(arrivals), ledger.longestChain)
    ensures Hopeless(SetOf(arrivals)) ==> ok && ledger.chains == Refusals(SetOf(arrivals))
  {
    ledger := new BlockchainLedger();
    LostFork({}, Digest(Zero, 0, []));
    assert {} + SetOf(arrivals) == SetOf(arrivals);
    ok := Offer(ledger, arrivals, {});
  }

  /** Two ledgers offered the same compatible blocks in any two orders hold the same chains and heads
      of the same length. */
  method OrderDoesNotMatter(first: seq<Hash>, second: seq<Hash>) returns (a: BlockchainLedger, b: BlockchainLedger)
    requires forall h | h in first :: h.Digest?
    requires SetOf(first) == SetOf(second) && Compatible(SetOf(first))
    ensures a.chains == b.chains
    ensures Length(SetOf(first), a.longestChain) == Length(SetOf(first), b.longestChain)
  {
    forall h | h in second ensures h.Digest? { assert h in SetOf(first); }
    var ok;
    a, ok := InsertAll(first);
    b, ok := InsertAll(second);
  }

  // ---------------------------------------------------------------- the worst order

  lemma {:induction false} ShallowestExists(blocks: set<Hash>) returns (m: Hash)
    requires blocks != {}
    ensures m in blocks && forall k | k in blocks :: Depth(m) <= Depth(k)
  {
    var first :| first in blocks;
    var rest := blocks - {first};
    m := first;
    if rest != {} {
      var other := ShallowestExists(rest);
      if Depth(other) < Depth(first) { m := other; }
    }
    forall k | k in blocks ensures Depth(m) <= Depth(k) { assert k == first || k in rest; }
  }

  predicate ByDepth(s: seq<Hash>) {
    forall i, j | 0 <= i < j < |s| :: Depth(s[i]) <= Depth(s[j])
  }

  method SortByDepth(blocks: set<Hash>) returns (s: seq<Hash>)
    ensures SetOf(s) == blocks && Distinct(s) && ByDepth(s)
  {
    s := [];
    var rest := blocks;
    while rest != {}
      invariant rest <= blocks && SetOf(s) == blocks - rest && Distinct(s) && ByDepth(s)
      invariant forall x, k | x in s && k in rest :: Depth(x) <= Depth(k)
      decreases rest
    {
      ghost var shallowest := ShallowestExists(rest);
      var m :| m in rest && forall k | k in rest :: Depth(m) <= Depth(k);
      forall i | 0 <= i < |s| ensures s[i] in s && s[i] != m { assert s[i] in SetOf(s); }
      assert SetOf(s + [m]) == SetOf(s) + {m};
      s, rest := s + [m], rest - {m};
    }
  }

  lemma {:induction false} DeepestExists(blocks: set<Hash>) returns (m: Hash)
    requires blocks != {}
    ensures m in blocks && forall k | k in blocks :: Depth(k) <= Depth(m)
  {
    var first :| first in blocks;
    var rest := blocks - {first};
    m := first;
    if rest != {} {
      var other := DeepestExists(rest);
      if Depth(other) > Depth(first) { m := other; }
    }
    forall k | k in blocks ensures Depth(k) <= Depth(m) { assert k == first || k in rest; }
  }

  /** Every block whose parent is present or genesis passes the name check. */
  ghost predicate AllPass(blocks: set<Hash>) {
    forall x | x in blocks && x.Digest? :: Passes(blocks, x)
  }

  ghost predicate Passes(blocks: set<Hash>, x: Hash)
    requires x.Digest?
  {
    x.prev in blocks + {Zero} ==> NoDuplicates(BranchNames(blocks + {Zero}, x))
  }

  lemma {:induction false} BranchStable(keys: set<Hash>, e: Hash, x: Hash)
    requires x.Digest? && Depth(x) <= Depth(e)
    ensures BranchNames(keys + {e}, x) == BranchNames(keys, x)
    decreases x
  {
    assert Depth(x.prev) < Depth(x);
    if x.prev in keys && x.prev.Digest? {
      BranchStable(keys, e, x.prev);
    }
  }

  /** A deeper block that passes keeps all others passing. */
  lemma PassesGrow(blocks: set<Hash>, e: Hash)
    requires AllPass(blocks) && e.Digest? && e !in blocks && !Refused(LedgerOf(blocks), e)
    requires forall x | x in blocks :: Depth(x) <= Depth(e)
    ensures AllPass(blocks + {e})
  {
    var keys := blocks + {Zero};
    assert LedgerOf(blocks).Keys == keys && blocks + {e} + {Zero} == keys + {e};
    forall x | x in blocks + {e} && x.Digest? ensures Passes(blocks + {e}, x) {
      BranchStable(keys, e, x);
      assert x.prev != e by { assert Depth(x.prev) < Depth(x); }
      if x != e { assert Passes(blocks, x); }
    }
  }

  /** When every branch passes and every tree is apart, the blocks are compatible. */
  lemma PassesCompatible(blocks: set<Hash>)
    requires Blocks(blocks) && AllPass(blocks) && forall r | r in blocks :: Apart(blocks, r)
    ensures Compatible(blocks)
  {
    forall b | b in blocks ensures Clean(blocks, b) {
      assert Passes(blocks, b);
      if b.prev in blocks + {Zero} {
        PassesOwn(blocks, b);
      } else if Kids(blocks, b) != {} {
        var c :| c in Kids(blocks, b);
        assert Passes(blocks, c);
        PassesOwn(blocks, c);
      }
    }
  }

  lemma PassesOwn(blocks: set<Hash>, x: Hash)
    requires x.Digest? && Passes(blocks, x) && x.prev in blocks + {Zero}
    ensures NoDuplicates(x.names) && (x.prev.Digest? ==> NoDuplicates(x.prev.names))
  {
    var keys := blocks + {Zero};
    NoDuplicatesConcat(x.names, BranchNames(keys, x.prev));
    if x.prev.Digest? {
      NoDuplicatesConcat(x.prev.names, if x.prev.prev in keys then BranchNames(keys, x.prev.prev) else []);
    }
  }

  /** Insert one more block that is no deeper than none before: it finds no orphans to adopt. */
  method InsertDeeper(ledger: BlockchainLedger, b: Hash, ghost blocks: set<Hash>) returns (ok: bool)
    requires ledger.Holds(blocks) && Shape(ledger.chains) && b.Digest? && b !in blocks
    requires forall x | x in blocks :: Depth(x) <= Depth(b)
    modifies ledger
    ensures Shape(ledger.chains) && ledger.chains.Keys <= old(ledger.chains).Keys + {b} && ok
    ensures if Refused(LedgerOf(blocks), b) then b !in ledger.chains else ledger.Holds(blocks + {b})
  {
    hide IsLongest, ClaimsAt, Shape;
    ghost var order;
    var valid, changed, grew;
    ok, valid, changed, grew, order := ledger.InsertBlock(b, blocks);
    if valid {
      LedgerPlaced(blocks, b);
      ReadyWaiting(blocks, b, Placed(LedgerOf(blocks), b));
      NoneWaits(blocks, b, order);
    } else {
      assert LedgerOf(blocks).Keys == blocks + {Zero};
    }
  }

  lemma NoneWaits(blocks: set<Hash>, b: Hash, order: seq<Hash>)
    requires forall x | x in blocks :: Depth(x) <= Depth(b)
    requires forall a | a in order :: a in Kids(blocks, b)
    ensures order == []
  {
    FirstOf(order);
    forall a ensures a !in order { assert a in Kids(blocks, b) ==> Depth(a) > Depth(b); }
  }

  lemma FirstOf(order: seq<Hash>)
    ensures order != [] ==> order[0] in order
  {}

  /** The last block of an order arrives. The ledger is that of all blocks only if nothing that
      descends from the last one clashes. */
  method InsertLast(ledger: BlockchainLedger, b: Hash, ghost blocks: set<Hash>) returns (ok: bool)
    requires ledger.Holds(blocks) && Shape(ledger.chains) && b.Digest? && b !in blocks
    modifies ledger
    ensures Compatible(blocks + {b}) ==> ok && ledger.chains == LedgerOf(blocks + {b})
    ensures ok && ledger.chains == LedgerOf(blocks + {b}) ==> Apart(blocks + {b}, b) && !Refused(LedgerOf(blocks), b)
  {
    hide IsLongest, ClaimsAt, Shape, Compatible, Apart, AllFine, NoneGoes, Gone, Placed, Refused;
    ghost var order, head := [], ledger.longestChain;
    var valid, changed, grew;
    ok, valid, changed, grew, order := ledger.InsertBlock(b, blocks);
    assert LedgerOf(blocks).Keys == blocks + {Zero} && LedgerOf(blocks + {b}).Keys == blocks + {b} + {Zero};
    if Compatible(blocks + {b}) {
      CompatibleAccepted(blocks, b);
      CompatibleStays(blocks, b, order);
    }
    if valid && ok && ledger.chains == LedgerOf(blocks + {b}) {
      LastStayed(blocks, b, head, ledger.chains, order);
    }
    if !valid { RefusedAbsent(LedgerOf(blocks), b); }
  }

  lemma RefusedAbsent(chains: Chains, b: Hash)
    requires Shape(chains) && b.Digest? && b !in chains
    ensures b !in Hung(chains, b)
  {}

  lemma LastStayed(blocks: set<Hash>, b: Hash, head: Hash, now: Chains, order: seq<Hash>)
    requires Blocks(blocks) && b.Digest? && b !in blocks && Zero in LedgerOf(blocks)
    requires Accepted(LedgerOf(blocks), head, now, b, order, true) && now == LedgerOf(blocks + {b})
    ensures Apart(blocks + {b}, b)
  {
    hide AllFine, NoneGoes, Gone, Placed, ClaimsAt, Apart;
    var before := LedgerOf(blocks);
    var placed, c := Placed(before, b), ClaimsAt(before, b);
    LedgerPlaced(blocks, b);
    ReadySettled(blocks, b, placed);
    assert Zero in placed && placed.Keys == blocks + {b, Zero} == now.Keys;
    GoneInside(placed, c, order);
    NothingGoneIff(placed, c, order);
    StayedApart(blocks, b, order);
  }

  /** Whole trees that were deleted had their entries. */
  lemma {:induction false} GoneInside(chains: Chains, c: Claims, order: seq<Hash>)
    requires AllFine(chains, c, order)
    ensures Gone(chains, c, order) <= chains.Keys
  {
    if order != [] {
      var front, a := order[..|order| - 1], order[|order| - 1];
      GoneInside(chains, c, front);
      forall k | k in Tree(chains, a) ensures k in chains {}
    }
  }

  /** Insert blocks by depth, up to the first that is refused. */
  method InsertByDepth(ledger: BlockchainLedger, sorted: seq<Hash>, ghost blocks: set<Hash>, ghost last: Hash)
    returns (count: nat)
    requires ledger.Holds({}) && Shape(ledger.chains) && Blocks(blocks) && last in blocks
    requires SetOf(sorted) == blocks - {last} && Distinct(sorted) && ByDepth(sorted)
    modifies ledger
    ensures Shape(ledger.chains) && count <= |sorted|
    ensures if count == |sorted| then ledger.Holds(SetOf(sorted)) && AllPass(SetOf(sorted))
            else sorted[count] !in ledger.chains && sorted[count].Digest?
                 && Refused(LedgerOf(SetOf(sorted[..count])), sorted[count])
  {
    hide Shape, IsLongest, AllPass, Refused;
    NothingPasses();
    assert SetOf(sorted[..0]) == {};
    for i := 0 to |sorted|
      invariant Shape(ledger.chains) && ledger.Holds(SetOf(sorted[..i])) && AllPass(SetOf(sorted[..i]))
    {
      ghost var front := SetOf(sorted[..i]);
      SortedTurn(sorted, i, blocks, last);
      var ok := InsertDeeper(ledger, sorted[i], front);
      assert LedgerOf(front).Keys == front + {Zero};
      if sorted[i] !in ledger.chains {
        return i;
      }
      PassesGrow(front, sorted[i]);
    }
    assert sorted[..|sorted|] == sorted;
    return |sorted|;
  }

  /** For every set of blocks there is an order of arrival, without repeats, that leads to the ledger of
      the set if and only if the blocks are compatible. Together with `InsertAll`: every order ends in
      that ledger exactly for compatible blocks. */
  method WorstOrder(blocks: set<Hash>) returns (arrivals: seq<Hash>, ledger: BlockchainLedger, ok: bool)
    requires Blocks(blocks)
    ensures SetOf(arrivals) == blocks && Distinct(arrivals) && fresh(ledger)
    ensures ok && ledger.chains == LedgerOf(blocks) <==> Compatible(blocks)
  {
    hide Shape, IsLongest, AllPass, Refused;
    ledger := new BlockchainLedger();
    if blocks == {} {
      NothingPasses();
      return [], ledger, true;
    }
    var last;
    if r :| r in blocks && !Apart(blocks, r) {
      last := r;
    } else {
      ghost var deepest := DeepestExists(blocks);
      last :| last in blocks && forall k | k in blocks :: Depth(k) <= Depth(last);
    }
    ghost var rest := blocks - {last};
    assert rest + {last} == blocks;
    var sorted := SortByDepth(blocks - {last});
    arrivals := sorted + [last];
    ArrivesLast(sorted, last, blocks);
    var count := InsertByDepth(ledger, sorted, blocks, last);
    if count < |sorted| {
      SortedTurn(sorted, count, blocks, last);
      RefusedClashes(SetOf(sorted[..count]), sorted[count], blocks);
      ok := Offer(ledger, sorted[count + 1..] + [last], {});
      assert sorted[count] in LedgerOf(blocks);
      return arrivals, ledger, ok;
    }
    ok := InsertLast(ledger, last, rest);
    if ok && ledger.chains == LedgerOf(blocks) && forall r | r in blocks :: Apart(blocks, r) {
      PassesGrow(rest, last);
      PassesCompatible(blocks);
    }
  }

  lemma RefusedClashes(blocks: set<Hash>, b: Hash, all: set<Hash>)
    requires Blocks(blocks) && b.Digest? && b !in blocks && blocks + {b} <= all && Refused(LedgerOf(blocks), b)
    ensures !Compatible(all)
  {
    if Compatible(all) {
      CompatiblePart(blocks + {b}, all);
      CompatibleAccepted(blocks, b);
    }
  }

  lemma NothingPasses()
    ensures AllPass({}) && Compatible({})
  {}

  lemma ArrivesLast(sorted: seq<Hash>, last: Hash, blocks: set<Hash>)
    requires SetOf(sorted) == blocks - {last} && last in blocks && Distinct(sorted)
    ensures SetOf(sorted + [last]) == blocks && Distinct(sorted + [last])
  {
    forall i | 0 <= i < |sorted| ensures sorted[i] != last { assert sorted[i] in SetOf(sorted); }
    assert SetOf(sorted + [last]) == SetOf(sorted) + {last};
  }

  lemma SortedTurn(sorted: seq<Hash>, i: nat, blocks: set<Hash>, last: Hash)
    requires Blocks(blocks) && SetOf(sorted) == blocks - {last} && last in blocks && i < |sorted|
             && Distinct(sorted) && ByDepth(sorted)
    ensures var b, front := sorted[i], SetOf(sorted[..i]);
            && b in blocks && b.Digest? && b !in front && front + {b} <= blocks
            && (forall x | x in front :: Depth(x) <= Depth(b))
            && SetOf(sorted[..i + 1]) == front + {b}
    ensures sorted[i] !in SetOf(sorted[i + 1..] + [last])
    ensures forall x | x in sorted[i + 1..] + [last] :: x.Digest?
  {
    FrontGrows(sorted, i);
    var b := sorted[i];
    assert b in SetOf(sorted);
    forall x | x in SetOf(sorted[..i]) ensures x != b && Depth(x) <= Depth(b) && x in SetOf(sorted) {
      var j :| 0 <= j < i && sorted[..i][j] == x;
      assert sorted[j] == x;
    }
    forall x | x in sorted[i + 1..] ensures x != b && x in SetOf(sorted) {
      var j :| 0 <= j < |sorted[i + 1..]| && sorted[i + 1..][j] == x;
      assert sorted[i + 1 + j] == x;
    }
    forall x | x in sorted[i + 1..] + [last] ensures x != b && x.Digest? {
      if x !in sorted[i + 1..] { assert x == last; }
    }
  }

  // ---------------------------------------------------------------- two runs that go wrong

  /** Two children of `p` claim the same name. When `p` comes first, all three blocks are accepted. */
  method ParentFirst(p: Hash, a: Hash, b: Hash, name: string) returns (ledger: BlockchainLedger)
    requires Siblings(p, a, b, name)
    ensures ledger.chains == LedgerOf({p, a, b})
  {
    hide Shape, IsLongest;
    SiblingNames(p, a, b, name);
    assert {} + {p} == {p} && {p} + {a} == {p, a} && {p, a} + {b} == {p, a, b};
    ledger := new BlockchainLedger();
    var ok := InsertDeeper(ledger, p, {});
    ok := InsertDeeper(ledger, a, {p});
    ok := InsertDeeper(ledger, b, {p, a});
  }

  /** When `p` comes last, the claimed names are shared between the two waiting orphans: the one that is
      looked at second is deleted. If that one is the head, the insert fails, otherwise only the other
      one remains. */
  method ParentLast(p: Hash, a: Hash, b: Hash, name: string)
    returns (ledger: BlockchainLedger, ok: bool, head: Hash, ghost order: seq<Hash>)
    requires Siblings(p, a, b, name)
    ensures SetOf(order) == {a, b} && |order| == 2 && head in {a, b}
    ensures ok <==> order[0] == head
    ensures ok ==> ledger.chains.Keys == {Zero, p, head}
    ensures !(ok && ledger.chains == LedgerOf({p, a, b}))
  {
    hide Shape, IsLongest, Accepted, Placed, ClaimsAt, AllFine, NoneGoes, Refused, Waiting;
    SiblingNames(p, a, b, name);
    assert {} + {a} == {a} && {a} + {b} == {a, b};
    ledger := new BlockchainLedger();
    ok := InsertDeeper(ledger, a, {});
    ok := InsertDeeper(ledger, b, {a});
    head := ledger.longestChain;
    HeadAmong(a, b, head);
    var valid, changed, grew;
    ok, valid, changed, grew, order := ledger.InsertBlock(p, {a, b});
    SiblingsAdopted(p, a, b, name, head, ledger.chains, order, ok);
    assert LedgerOf({p, a, b}).Keys == {p, a, b, Zero};
  }

  lemma SiblingsAdopted(p: Hash, a: Hash, b: Hash, name: string, head: Hash, now: Chains, order: seq<Hash>, ok: bool)
    requires Siblings(p, a, b, name) && head in {a, b} && Zero in LedgerOf({a, b})
    requires Accepted(LedgerOf({a, b}), head, now, p, order, ok)
    ensures SetOf(order) == {a, b} && |order| == 2 && (ok <==> order[0] == head)
    ensures ok ==> now.Keys == {Zero, p, head}
  {
    hide Placed, AllFine, Gone, Rooted, OrphansOpen, Waiting, ClaimsAt;
    SiblingNames(p, a, b, name);
    SiblingsPlaced(p, a, b, name);
    SiblingWalk(p, a, b, name, order);
    AtMostTwo(order, a, b);
    AtIndex(order, 0);
    AtIndex(order, 1);
  }

  lemma SiblingsPlaced(p: Hash, a: Hash, b: Hash, name: string)
    requires Siblings(p, a, b, name)
    ensures var before, placed := LedgerOf({a, b}), Placed(LedgerOf({a, b}), p);
            && Rooted(before, Zero) && Zero in placed && OrphansOpen(placed, p) && placed[Zero].forks <= placed.Keys
            && placed.Keys == {a, b, p, Zero} && Waiting(placed, p) == {a, b}
  {
    var placed := Placed(LedgerOf({a, b}), p);
    LedgerPlaced({a, b}, p);
    ReadySettled({a, b}, p, placed);
    ReadyWaiting({a, b}, p, placed);
    assert Kids({a, b}, p) == {a, b};
  }

  ghost predicate Siblings(p: Hash, a: Hash, b: Hash, name: string) {
    && p.Digest? && a.Digest? && b.Digest? && a.prev == p && b.prev == p && a != b
    && a.names == [name] && b.names == [name] && NoDuplicates(p.names) && name !in p.names
  }

  /** Either sibling passes the name check after its parent. */
  lemma SiblingNames(p: Hash, a: Hash, b: Hash, name: string)
    requires Siblings(p, a, b, name)
    ensures !Refused(LedgerOf({}), p) && !Refused(LedgerOf({p}), a) && !Refused(LedgerOf({p, a}), b)
    ensures !Refused(LedgerOf({}), a) && !Refused(LedgerOf({a}), b)
    ensures !Refused(LedgerOf({a, b}), p) && ClaimsAt(LedgerOf({a, b}), p) == Some(Elements(p.names))
  {
    NoDuplicatesConcat([name], p.names);
    assert Depth(p.prev) < Depth(p) < Depth(a) == Depth(b);
    assert LedgerOf({}).Keys == {Zero} && LedgerOf({p}).Keys == {p, Zero} && LedgerOf({p, a}).Keys == {p, a, Zero};
    assert LedgerOf({a}).Keys == {a, Zero} && LedgerOf({a, b}).Keys == {a, b, Zero};
    RootNames({Zero}, p);
    RootNames({a, b, Zero}, p);
    RootNames({p, Zero}, p);
    RootNames({p, a, Zero}, p);
    assert BranchNames({p, Zero}, a) == [name] + p.names && BranchNames({p, a, Zero}, b) == [name] + p.names;
  }

  lemma RootNames(keys: set<Hash>, p: Hash)
    requires p.Digest? && (p.prev in keys ==> p.prev == Zero)
    ensures BranchNames(keys, p) == p.names
  {}

  lemma HeadAmong(a: Hash, b: Hash, head: Hash)
    requires a.Digest? && b.Digest? && Depth(a) == Depth(b) && IsLongest({a, b}, head)
    ensures head in {a, b}
  {
    assert Depth(a.prev) < Depth(a) && Depth(b.prev) < Depth(b);
    assert Length({a, b}, a) == 1 && Length({a, b}, Zero) == 0;
  }

  lemma SiblingTree(p: Hash, a: Hash, b: Hash, name: string, x: Hash)
    requires Siblings(p, a, b, name) && x in {a, b}
    ensures Tree(Placed(LedgerOf({a, b}), p), x) == {x} && Whole(Placed(LedgerOf({a, b}), p), x)
  {
    hide Ready, Placed, Whole;
    var placed := Placed(LedgerOf({a, b}), p);
    LedgerPlaced({a, b}, p);
    ReadyTree({a, b}, p, placed, x);
    forall k | Below(placed, x, k) ensures k == x {
      ReadyBelow({a, b}, p, placed, x, k);
      SubDeeper({a, b} + {p}, x, k);
    }
    assert Below(placed, x, x);
  }

  lemma SiblingFirst(p: Hash, a: Hash, b: Hash, name: string, x: Hash)
    requires Siblings(p, a, b, name) && x in {a, b}
    ensures var placed, c := Placed(LedgerOf({a, b}), p), Some(Elements(p.names));
            && AllFine(placed, c, [x]) && Gone(placed, c, [x]) == {}
            && ClaimsAfter(placed, c, [x]) == Some(Elements(p.names) + {name})
  {
    hide Whole, Tree, Placed;
    var placed, c := Placed(LedgerOf({a, b}), p), Some(Elements(p.names));
    SiblingTree(p, a, b, name, x);
    OwnClearIff(x, c);
    assert Names({x}) == {name};
    OneMore(placed, c, [], x);
    assert [] + [x] == [x];
  }

  lemma SiblingSecond(p: Hash, a: Hash, b: Hash, name: string, x: Hash, y: Hash)
    requires Siblings(p, a, b, name) && x in {a, b} && y in {a, b}
    ensures var placed, c := Placed(LedgerOf({a, b}), p), Some(Elements(p.names));
            AllFine(placed, c, [x, y]) && Gone(placed, c, [x, y]) == {y}
  {
    hide Whole, Tree, Placed, AllFine, Gone, ClaimsAfter;
    var placed, c := Placed(LedgerOf({a, b}), p), Some(Elements(p.names));
    SiblingTree(p, a, b, name, y);
    SiblingFirst(p, a, b, name, x);
    OneMore(placed, c, [x], y);
    assert [x] + [y] == [x, y] && name in y.names;
  }

  lemma SiblingWalk(p: Hash, a: Hash, b: Hash, name: string, order: seq<Hash>)
    requires Siblings(p, a, b, name) && Distinct(order) && forall x | x in order :: x in {a, b}
    ensures var placed, c := Placed(LedgerOf({a, b}), p), Some(Elements(p.names));
            && AllFine(placed, c, order) && |order| <= 2
            && (|order| == 2 ==> Gone(placed, c, order) == {order[1]})
  {
    hide Placed, Gone;
    AtMostTwo(order, a, b);
    if |order| == 1 {
      AtIndex(order, 0);
      SiblingFirst(p, a, b, name, order[0]);
      assert order == [order[0]];
    } else if |order| == 2 {
      AtIndex(order, 0);
      AtIndex(order, 1);
      SiblingSecond(p, a, b, name, order[0], order[1]);
      assert order == [order[0], order[1]];
    }
  }

  lemma AtIndex(order: seq<Hash>, i: nat)
    requires i < |order|
    ensures order[i] in order
  {}

  lemma AtMostTwo(order: seq<Hash>, a: Hash, b: Hash)
    requires Distinct(order) && forall x | x in order :: x in {a, b}
    ensures |order| <= 2
    ensures a != b && SetOf(order) == {a, b} ==> |order| == 2
  {
    if |order| > 2 {
      AtIndex(order, 0);
      AtIndex(order, 1);
      AtIndex(order, 2);
    }
    assert SetOf(order) == {a, b} ==> a in SetOf(order) && b in SetOf(order);
  }

  /** The fork `c` of the waiting orphan `a` was refused. When `p` arrives, `a` is neither adopted nor
      deleted: it stays in the ledger and in nobody's forks. */
  method LostOrphan(p: Hash, a: Hash, c: Hash, name: string) returns (ledger: BlockchainLedger, ok: bool)
    requires Line(p, a, c, name)
    ensures ok && ledger.chains.Keys == {Zero, p, a}
    ensures forall k | k in ledger.chains :: a !in ledger.chains[k].forks
  {
    hide IsLongest, Shape, Accepted, Refused, Hung;
    ledger := new BlockchainLedger();
    LineNames(p, a, c, name);
    assert {} + {a} == {a};
    ok := InsertDeeper(ledger, a, {});
    SingleHead(a, ledger.longestChain);
    ghost var order;
    var valid, changed, grew;
    ok, valid, changed, grew, order := ledger.InsertBlock(c, {a});
    ghost var before := ledger.chains;
    LineHung(p, a, c, name);
    ok, valid, changed, grew, order := ledger.InsertBlock(p, {a});
    OrphanLost(p, a, c, name, ledger.chains, order, ok);
  }

  /** `a` is a child of `p` and `c` one of `a` that claims the same name. */
  ghost predicate Line(p: Hash, a: Hash, c: Hash, name: string) {
    && p.Digest? && a.Digest? && c.Digest? && a.prev == p && c.prev == a
    && a.names == [name] && c.names == [name] && NoDuplicates(p.names) && name !in p.names
  }

  lemma LineNames(p: Hash, a: Hash, c: Hash, name: string)
    requires Line(p, a, c, name)
    ensures !Refused(LedgerOf({}), a) && Refused(LedgerOf({a}), c) && c !in LedgerOf({a}) && Zero in LedgerOf({a})
  {
    assert LedgerOf({}).Keys == {Zero} && LedgerOf({a}).Keys == {a, Zero};
    assert Depth(p) < Depth(a) < Depth(c);
    assert p !in {a, Zero};
    assert BranchNames({a, Zero}, c) == [name] + [name];
    assert name in [name];
    NoDuplicatesConcat([name], [name]);
  }

  lemma SingleHead(a: Hash, head: Hash)
    requires a.Digest? && IsLongest({a}, head)
    ensures head == a
  {
    assert Depth(a.prev) < Depth(a);
    assert Length({a}, a) == 1 && Length({a}, Zero) == 0;
  }

  lemma LineHung(p: Hash, a: Hash, c: Hash, name: string)
    requires Line(p, a, c, name) && Zero in LedgerOf({a})
    ensures var before := Hung(LedgerOf({a}), c);
            && before.Keys == {a, Zero} && before[a].forks == {c} && before[Zero].forks == {a}
            && p !in before && !Refused(before, p) && ClaimsAt(before, p) == Some(Elements(p.names))
  {
    assert Depth(p.prev) < Depth(p) < Depth(a) < Depth(c);
    assert LedgerOf({a}).Keys == {a, Zero};
    assert Forks({a}, a) == {} && Forks({a}, Zero) == {a};
    RootNames({a, Zero}, p);
  }

  lemma OrphanLost(p: Hash, a: Hash, c: Hash, name: string, now: Chains, order: seq<Hash>, ok: bool)
    requires Line(p, a, c, name) && Zero in LedgerOf({a}) && Shape(now) && now.Keys <= {a, Zero, p}
    requires Accepted(Hung(LedgerOf({a}), c), a, now, p, order, ok)
    ensures ok && now.Keys == {Zero, p, a} && forall k | k in now :: a !in now[k].forks
  {
    hide AllFine, Gone, OrphansOpen;
    var before := Hung(LedgerOf({a}), c);
    var placed := Placed(before, p);
    LineHung(p, a, c, name);
    assert Depth(p.prev) < Depth(p) < Depth(a) < Depth(c);
    assert p.prev !in {a};
    assert placed.Keys == {a, Zero, p} && placed[Zero].forks == {a, p} && placed[a].forks == {c}
           && placed[p].forks == {};
    assert Rooted(placed, p);
    assert Waiting(placed, p) == {a};
    assert name in a.names && OwnClear(a, Some(Elements(p.names)));
    assert LoneGap(placed, p, a, Some(Elements(p.names)));
  }

  /** Such a block stays among the forks of genesis. From then on no block can be accepted: the insert
      always fails. */
  method LostForkOfGenesis(bad: Hash, next: Hash) returns (ledger: BlockchainLedger, ok: bool, valid: bool)
    requires Repeats(bad) && next.Digest?
    ensures (valid <==> !Repeats(next)) && (ok <==> !valid)
  {
    hide IsLongest, Shape;
    ledger := new BlockchainLedger();
    ghost var order;
    var changed, grew;
    LostFork({}, bad);
    LostFork({bad}, next);
    assert ledger.chains == Refusals({});
    ok, valid, changed, grew, order := ledger.InsertBlock(bad, {});
    assert {} + {bad} == {bad};
    ok, valid, changed, grew, order := ledger.InsertBlock(next, {});
  }
}
