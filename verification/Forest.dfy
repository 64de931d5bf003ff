/**
 What hangs below a block through the forks of a ledger, whether the entries are present or not,
 and what the names claimed there decide. This is where a block tree can be broken: a refused or
 pruned block leaves its hash in the forks of its parent.
 */
module Forest {
  import opened Words
  import opened Chain

  /** Forks of a block name it as their parent; forks of genesis may be orphans. */
  ghost predicate Shape(chains: Chains) {
    && Zero in chains
    && (forall h | h in chains :: (h == Zero || h.Digest?) && chains[h].length >= 0)
    && (forall h, c | h in chains && c in chains[h].forks :: c.Digest? && (h != Zero ==> c.prev == h))
  }

  // ---------------------------------------------------------------- trees through forks

  /** The hashes, of present entries or not, that their parent lists as forks. */
  ghost function Linked(chains: Chains): set<Hash> {
    set h, c | h in chains && c in chains[h].forks && c.Digest? && c.prev == h :: c
  }

  /** `k` is reached from `h` through forks. */
  ghost predicate Below(chains: Chains, h: Hash, k: Hash) {
    InSub(Linked(chains), h, k)
  }

  ghost function Tree(chains: Chains, h: Hash): set<Hash> {
    set k | k in Linked(chains) + {h} && Below(chains, h, k)
  }

  /** Following forks from `h` never meets a missing entry. */
  ghost predicate Whole(chains: Chains, h: Hash) {
    forall k | Below(chains, h, k) :: k in chains
  }

  lemma KidsAreForks(chains: Chains, h: Hash)
    requires Shape(chains) && h.Digest?
    ensures Kids(Linked(chains), h) == if h in chains then chains[h].forks else {}
  {
    forall c ensures c in Kids(Linked(chains), h) <==> h in chains && c in chains[h].forks {
      if c in Kids(Linked(chains), h) {
        assert c.prev in chains && c in chains[c.prev].forks;
      }
      if h in chains && c in chains[h].forks {
        assert h != Zero;
        assert c.prev == h;
        assert c in Linked(chains);
      }
    }
  }

  lemma {:induction false} SameDepth(keys: set<Hash>, others: set<Hash>, c: Hash, d: Hash, k: Hash)
    requires InSub(keys, c, k) && InSub(others, d, k) && Depth(c) == Depth(d)
    ensures c == d
    decreases k
  {
    SubDeeper(keys, c, k);
    SubDeeper(others, d, k);
    if k != c && k != d {
      SameDepth(keys, others, c, d, k.prev);
    }
  }

  lemma BelowKid(chains: Chains, h: Hash, c: Hash, k: Hash)
    requires Shape(chains) && h in chains && h.Digest? && c in chains[h].forks && Below(chains, c, k)
    ensures Below(chains, h, k) && k != h
  {
    KidsAreForks(chains, h);
    KidSubIsSub(Linked(chains), h, c, k);
  }

  lemma BelowThroughKid(chains: Chains, h: Hash, k: Hash) returns (c: Hash)
    requires Shape(chains) && h.Digest? && Below(chains, h, k) && k != h
    ensures h in chains && c in chains[h].forks && Below(chains, c, k) && k in Tree(chains, c)
  {
    KidsAreForks(chains, h);
    SubThroughKid(Linked(chains), h, k);
    c := AncestorAt(k, Depth(h) + 1);
  }

  /** A tree is whole exactly when all its branches are. */
  lemma WholeIff(chains: Chains, h: Hash)
    requires Shape(chains) && h in chains && h.Digest?
    ensures Whole(chains, h) <==> forall c | c in chains[h].forks :: Whole(chains, c)
  {
    if Whole(chains, h) {
      forall c, k | c in chains[h].forks && Below(chains, c, k) ensures k in chains { BelowKid(chains, h, c, k); }
    }
    if forall c | c in chains[h].forks :: Whole(chains, c) {
      forall k | Below(chains, h, k) ensures k in chains {
        if k != h { var c := BelowThroughKid(chains, h, k); }
      }
    }
  }

  // ---------------------------------------------------------------- what a change leaves alone

  /** Everything present below `a` keeps its forks. */
  ghost predicate Intact(before: Chains, now: Chains, a: Hash) {
    && now.Keys <= before.Keys
    && forall k | Below(before, a, k) && k in before :: k in now && now[k].forks == before[k].forks
  }

  lemma {:induction false} IntactBelow(before: Chains, now: Chains, a: Hash, k: Hash)
    requires Intact(before, now, a)
    ensures Below(before, a, k) <==> Below(now, a, k)
    decreases k
  {
    if k != a && k.Digest? {
      IntactBelow(before, now, a, k.prev);
    }
  }

  lemma IntactTree(before: Chains, now: Chains, a: Hash)
    requires Intact(before, now, a)
    ensures Tree(now, a) == Tree(before, a)
    ensures Whole(now, a) <==> Whole(before, a)
    ensures a in before <==> a in now
    ensures a in before ==> now[a].forks == before[a].forks
  {
    assert Below(before, a, a);
    forall k ensures Below(before, a, k) <==> Below(now, a, k) { IntactBelow(before, now, a, k); }
  }

  lemma IntactTwice(before: Chains, mid: Chains, now: Chains, a: Hash)
    requires Intact(before, mid, a) && Intact(mid, now, a)
    ensures Intact(before, now, a)
  {
    forall k ensures Below(before, a, k) <==> Below(mid, a, k) { IntactBelow(before, mid, a, k); }
  }

  /** Entries were only deleted, and only below `h`. */
  ghost predicate Cut(before: Chains, now: Chains, h: Hash) {
    && now.Keys <= before.Keys
    && (forall k | k in now :: now[k] == before[k])
    && (forall k | k in before && k !in now :: Below(before, h, k))
  }

  lemma CutIntact(before: Chains, now: Chains, h: Hash, a: Hash)
    requires Cut(before, now, h) && Depth(a) == Depth(h) && a != h
    ensures Intact(before, now, a)
  {
    forall k | Below(before, a, k) && k in before ensures k in now {
      if Below(before, h, k) { SameDepth(Linked(before), Linked(before), a, h, k); }
    }
  }

  /** Deleting below a fork of `h` deletes below `h`. */
  lemma CutStep(before: Chains, mid: Chains, now: Chains, h: Hash, c: Hash)
    requires Shape(before) && h in before && h.Digest? && c in before[h].forks
    requires Cut(before, mid, h) && h in mid && Intact(before, mid, c) && Cut(mid, now, c)
    ensures Cut(before, now, h) && h in now
    ensures forall d | d in before[h].forks && d != c && Intact(before, mid, d) :: Intact(before, now, d)
  {
    forall k | k in before && k !in now ensures Below(before, h, k) && k != h {
      if k in mid {
        IntactBelow(before, mid, c, k);
        BelowKid(before, h, c, k);
      }
    }
    forall d | d in before[h].forks && d != c && Intact(before, mid, d) ensures Intact(before, now, d) {
      CutIntact(mid, now, c, d);
      IntactTwice(before, mid, now, d);
    }
  }

  lemma CutKeepsDepth(before: Chains, now: Chains, h: Hash)
    requires Cut(before, now, h)
    ensures forall k | k in before && Depth(k) <= Depth(h) && k != h :: k in now
  {
    forall k | k in before && k !in now ensures Depth(k) > Depth(h) || k == h { SubDeeper(Linked(before), h, k); }
  }

  // ---------------------------------------------------------------- names of a tree

  function Elements(names: seq<string>): set<string> {
    set n | n in names
  }

  /** What is claimed after trying to claim names one by one, up to the first that is taken. */
  function ClaimedBy(taken: set<string>, names: seq<string>): set<string>
    decreases |names|
  {
    if names == [] || names[0] in taken then taken else ClaimedBy(taken + {names[0]}, names[1..])
  }

  /** Names are claimed up to the first that is taken or came before, whose index is returned, or all. */
  lemma {:induction false} ClaimedUpTo(taken: set<string>, names: seq<string>) returns (i: nat)
    ensures i <= |names| && ClaimedBy(taken, names) == taken + Elements(names[..i])
    ensures NoDuplicates(names[..i]) && Elements(names[..i]) !! taken
    ensures i < |names| ==> names[i] in taken || names[i] in names[..i]
    decreases |names|
  {
    if names == [] || names[0] in taken {
      i := 0;
    } else {
      var first, rest := names[0], names[1..];
      var j := ClaimedUpTo(taken + {first}, rest);
      i := j + 1;
      assert names[..i] == [first] + rest[..j];
      assert Elements(names[..i]) == {first} + Elements(rest[..j]);
      NoDuplicatesConcat([first], rest[..j]);
      forall n | n in rest[..j] ensures n in Elements(rest[..j]) {}
    }
  }

  ghost function Names(blocks: set<Hash>): set<string> {
    set k, n | k in blocks && k.Digest? && n in k.names :: n
  }

  /** The names claimed so far, or None for the missing list an orphan with a repeated name gets. */
  type Claims = Option<set<string>>

  /** The blocks can all claim their names: one by one, in any order. Without a list of claimed
      names there must be none to claim. */
  ghost predicate Clear(blocks: set<Hash>, c: Claims) {
    match c
    case None => Names(blocks) == {}
    case Some(taken) => ConflictFree(blocks) && Names(blocks) !! taken
  }

  function OwnClear(h: Hash, c: Claims): bool
    requires h.Digest?
  {
    match c
    case None => h.names == []
    case Some(taken) => NoDuplicates(h.names) && forall n | n in h.names :: n !in taken
  }

  ghost function With(c: Claims, names: set<string>): Claims {
    if c.Some? then Some(c.value + names) else None
  }

  lemma OwnClearIff(h: Hash, c: Claims)
    requires h.Digest?
    ensures OwnClear(h, c) <==> Clear({h}, c)
    ensures Names({h}) == Elements(h.names)
  {
    assert h.names != [] ==> h.names[0] in h.names;
    assert c.None? && Names({h}) == {} ==> h.names == [] by {
      if h.names != [] { assert h.names[0] in Names({h}); }
    }
    if c.Some? && OwnClear(h, c) {
      forall n | n in Names({h}) ensures n !in c.value {}
    }
    if c.Some? && Clear({h}, c) {
      forall n | n in h.names ensures n !in c.value { assert n in Names({h}); }
    }
  }

  lemma NamesUnion(a: set<Hash>, b: set<Hash>)
    ensures Names(a + b) == Names(a) + Names(b)
  {}

  lemma ClearPart(a: set<Hash>, b: set<Hash>, c: Claims)
    requires a <= b && Clear(b, c)
    ensures Clear(a, c)
  {
    assert Names(a) <= Names(b);
  }

  lemma ShareName(a: set<Hash>, b: set<Hash>, x: Hash, y: Hash, n: string)
    requires x in a && y in b && x.Digest? && y.Digest? && n in x.names && n in y.names
    ensures n in Names(a) && n in Names(b)
  {}

  lemma CommonName(a: set<Hash>, b: set<Hash>, n: string) returns (x: Hash, y: Hash)
    requires n in Names(a) && n in Names(b)
    ensures x in a && y in b && x.Digest? && y.Digest? && n in x.names && n in y.names
  {
    x :| x in a && x.Digest? && n in x.names;
    y :| y in b && y.Digest? && n in y.names;
  }

  /** Claiming for two separate sets of blocks, one after the other. */
  lemma ClearUnion(a: set<Hash>, b: set<Hash>, c: Claims)
    requires a !! b
    ensures Clear(a + b, c) <==> Clear(a, c) && Clear(b, With(c, Names(a)))
  {
    NamesUnion(a, b);
    if c.Some? {
      if ConflictFree(a + b) {
        forall n | n in Names(a) ensures n !in Names(b) {
          if n in Names(b) { var x, y := CommonName(a, b, n); }
        }
      }
      if ConflictFree(a) && ConflictFree(b) && Names(a) !! Names(b) {
        forall x, y, n | x in a + b && y in a + b && x.Digest? && y.Digest? && n in x.names && n in y.names
          ensures x == y
        {
          if x in a && y in b { ShareName(a, b, x, y, n); }
          if y in a && x in b { ShareName(a, b, y, x, n); }
        }
      }
    }
  }

  // ---------------------------------------------------------------- a tree branch by branch

  /** `h` and its branches in `done`. */
  ghost function Part(chains: Chains, h: Hash, done: set<Hash>): set<Hash> {
    {h} + (set k | k in Linked(chains) && InDone(Linked(chains), h, done, k))
  }

  lemma PartAdd(chains: Chains, h: Hash, done: set<Hash>, c: Hash)
    requires Shape(chains) && h in chains && h.Digest? && c in chains[h].forks && c !in done
    ensures Part(chains, h, done + {c}) == Part(chains, h, done) + Tree(chains, c)
    ensures Part(chains, h, done) !! Tree(chains, c)
  {
    KidsAreForks(chains, h);
    forall k
      ensures InDone(Linked(chains), h, done + {c}, k) <==> InDone(Linked(chains), h, done, k) || Below(chains, c, k)
      ensures !(InDone(Linked(chains), h, done, k) && Below(chains, c, k)) && (Below(chains, c, k) ==> k != h)
    {
      InDoneAdd(Linked(chains), h, done, c, k);
      if Below(chains, c, k) { BelowKid(chains, h, c, k); }
    }
  }

  lemma PartAll(chains: Chains, h: Hash)
    requires Shape(chains) && h in chains && h.Digest?
    ensures Part(chains, h, chains[h].forks) == Tree(chains, h) && Part(chains, h, {}) == {h}
  {
    KidsAreForks(chains, h);
    forall k ensures Below(chains, h, k) <==> k == h || InDone(Linked(chains), h, chains[h].forks, k) {
      InDoneAll(Linked(chains), h, k);
    }
  }

  lemma PartInTree(chains: Chains, h: Hash, done: set<Hash>)
    ensures Part(chains, h, done) <= Tree(chains, h)
  {}

  lemma BranchInTree(chains: Chains, h: Hash, c: Hash)
    requires Shape(chains) && h in chains && h.Digest? && c in chains[h].forks
    ensures Tree(chains, c) <= Tree(chains, h)
  {
    forall k | Below(chains, c, k) ensures Below(chains, h, k) { BelowKid(chains, h, c, k); }
  }

  // ---------------------------------------------------------------- adopting orphans in an order

  /** The orphans that wait for `b`. */
  ghost function Waiting(chains: Chains, b: Hash): set<Hash>
    requires Zero in chains
  {
    set g | g in chains[Zero].forks && g.Digest? && g.prev == b
  }

  /** The root of an adopted orphan cannot claim its names: the whole tree is deleted. */
  ghost predicate Goes(c: Claims, a: Hash) {
    a.Digest? && c.Some? && !OwnClear(a, c)
  }

  /** Adopting the orphan `a` meets no missing entry: its tree is whole, and either goes as a whole
      or can claim all its names. */
  ghost predicate Fine(chains: Chains, c: Claims, a: Hash) {
    Whole(chains, a) && (Goes(c, a) || Clear(Tree(chains, a), c))
  }

  /** The names claimed after adopting the orphans in this order. */
  ghost function ClaimsAfter(chains: Chains, c: Claims, order: seq<Hash>): Claims {
    if order == [] then c
    else
      var now, a := ClaimsAfter(chains, c, order[..|order| - 1]), order[|order| - 1];
      if Goes(now, a) then Some(ClaimedBy(now.value, a.names)) else With(now, Names(Tree(chains, a)))
  }

  ghost predicate AllFine(chains: Chains, c: Claims, order: seq<Hash>) {
    order == [] || (var front := order[..|order| - 1];
                    AllFine(chains, c, front) && Fine(chains, ClaimsAfter(chains, c, front), order[|order| - 1]))
  }

  /** The entries deleted on the way. */
  ghost function Gone(chains: Chains, c: Claims, order: seq<Hash>): set<Hash> {
    if order == [] then {}
    else
      var front, a := order[..|order| - 1], order[|order| - 1];
      Gone(chains, c, front) + (if Goes(ClaimsAfter(chains, c, front), a) then Tree(chains, a) else {})
  }

  /** No tree was deleted on the way. */
  ghost predicate NoneGoes(chains: Chains, c: Claims, order: seq<Hash>) {
    order == [] || (var front := order[..|order| - 1];
                    NoneGoes(chains, c, front) && !Goes(ClaimsAfter(chains, c, front), order[|order| - 1]))
  }

  lemma OneMore(chains: Chains, c: Claims, order: seq<Hash>, a: Hash)
    ensures var now, next := ClaimsAfter(chains, c, order), order + [a];
            && ClaimsAfter(chains, c, next)
                 == (if Goes(now, a) then Some(ClaimedBy(now.value, a.names)) else With(now, Names(Tree(chains, a))))
            && (AllFine(chains, c, next) <==> AllFine(chains, c, order) && Fine(chains, now, a))
            && (NoneGoes(chains, c, next) <==> NoneGoes(chains, c, order) && !Goes(now, a))
            && Gone(chains, c, next) == Gone(chains, c, order) + (if Goes(now, a) then Tree(chains, a) else {})
  {
    assert (order + [a])[..|order + [a]| - 1] == order;
  }

  lemma {:induction false} NoneGone(chains: Chains, c: Claims, order: seq<Hash>)
    requires NoneGoes(chains, c, order)
    ensures Gone(chains, c, order) == {}
  {
    if order != [] {
      NoneGone(chains, c, order[..|order| - 1]);
    }
  }

  function SetOf(hashes: seq<Hash>): set<Hash> {
    set h | h in hashes
  }

  predicate Distinct(hashes: seq<Hash>) {
    forall i, j | 0 <= i < j < |hashes| :: hashes[i] != hashes[j]
  }

  // ---------------------------------------------------------------- states in which the outcome is determined

  /** Forks of genesis are its children, wait for `b`, or wait for an absent block. */
  ghost predicate Rooted(chains: Chains, b: Hash) {
    && Zero in chains
    && forall g | g in chains[Zero].forks :: g.Digest? && (g.prev == Zero || g.prev == b || g.prev !in chains)
  }

  /** No fork of genesis and no fork of an orphan that waits for `b` is missing. */
  ghost predicate Settled(chains: Chains, b: Hash) {
    && Rooted(chains, b)
    && chains[Zero].forks <= chains.Keys
    && forall a | a in Waiting(chains, b) :: chains[a].forks <= chains.Keys
  }

  lemma RootedNotBelow(before: Chains, mid: Chains, b: Hash, a: Hash, g: Hash)
    requires Rooted(before, b) && g in before[Zero].forks && mid.Keys <= before.Keys
    requires a.Digest? && b.Digest? && Depth(b) < Depth(a) && Below(mid, a, g)
    ensures g == a
  {
    hide Below;
    if g != a { BelowParent(mid, a, g); }
    NotBelow(mid, a, b);
    NotBelow(mid, a, Zero);
  }

  lemma BelowParent(chains: Chains, a: Hash, k: Hash)
    requires Below(chains, a, k) && k != a
    ensures k.Digest? && k.prev in chains && Below(chains, a, k.prev)
  {}

  lemma NotBelow(chains: Chains, a: Hash, k: Hash)
    requires Depth(k) < Depth(a)
    ensures !Below(chains, a, k)
  {
    if Below(chains, a, k) { SubDeeper(Linked(chains), a, k); }
  }

  lemma IntactOpen(before: Chains, now: Chains, a: Hash)
    requires Shape(before) && Intact(before, now, a) && a in before && a.Digest? && before[a].forks <= before.Keys
    ensures a in now && now[a].forks <= now.Keys
  {
    IntactTree(before, now, a);
    forall d | d in before[a].forks ensures d in now {
      assert Below(before, d, d);
      BelowKid(before, a, d, d);
    }
  }
}
