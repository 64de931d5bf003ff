/**
 Blocks and the trees they form (gossiper/blockchain.go). A SHA-256 hash is modelled as the free
 constructor of what it digests: hashes of different blocks differ, none is the zero hash, and
 no block is its own ancestor. `Junk` are the hashes of nothing in sight.
 */
module Chain {
  datatype Hash = Zero | Junk(n: nat) | Digest(prev: Hash, nonce: nat, names: seq<string>)

  /** `blockOfChain`, stored under the hash of its block. */
  datatype Entry = Entry(length: int, forks: set<Hash>)

  type Chains = map<Hash, Entry>

  function Depth(h: Hash): nat {
    if h.Digest? then Depth(h.prev) + 1 else 0
  }

  ghost predicate DepthBound(keys: set<Hash>, n: nat) {
    forall k | k in keys :: Depth(k) <= n
  }

  lemma {:induction false} DepthBoundExists(keys: set<Hash>) returns (n: nat)
    ensures DepthBound(keys, n)
  {
    if keys == {} {
      n := 0;
    } else {
      var k :| k in keys;
      n := DepthBoundExists(keys - {k});
      n := if n < Depth(k) then Depth(k) else n;
      assert forall j | j in keys :: j == k || j in keys - {k};
    }
  }

  // ---------------------------------------------------------------- subtrees

  /** `k` descends from `h` (or is `h`) through blocks of `keys`. */
  predicate InSub(keys: set<Hash>, h: Hash, k: Hash)
    decreases k
  {
    k == h || (k in keys && k.Digest? && InSub(keys, h, k.prev))
  }

  function AncestorAt(k: Hash, d: nat): Hash {
    if k.Digest? && Depth(k) > d then AncestorAt(k.prev, d) else k
  }

  function Kids(keys: set<Hash>, h: Hash): set<Hash> {
    set c | c in keys && c.Digest? && c.prev == h
  }

  lemma {:induction false} SubDeeper(keys: set<Hash>, h: Hash, k: Hash)
    requires InSub(keys, h, k)
    ensures Depth(h) <= Depth(k)
    ensures Depth(h) == Depth(k) <==> h == k
    decreases k
  {
    if k != h {
      SubDeeper(keys, h, k.prev);
    }
  }

  /** A proper descendant descends from exactly one child. */
  lemma {:induction false} SubThroughKid(keys: set<Hash>, h: Hash, k: Hash)
    requires InSub(keys, h, k) && k != h
    ensures var c := AncestorAt(k, Depth(h) + 1); c in Kids(keys, h) && InSub(keys, c, k)
    decreases k
  {
    if k.prev != h {
      SubThroughKid(keys, h, k.prev);
      SubDeeper(keys, h, k.prev);
    }
  }

  lemma {:induction false} KidSubIsSub(keys: set<Hash>, h: Hash, c: Hash, k: Hash)
    requires c in Kids(keys, h) && InSub(keys, c, k)
    ensures InSub(keys, h, k) && k != h && AncestorAt(k, Depth(h) + 1) == c
    decreases k
  {
    if k != c {
      KidSubIsSub(keys, h, c, k.prev);
      SubDeeper(keys, c, k);
      SubDeeper(keys, h, k.prev);
    } else {
      assert InSub(keys, h, c.prev);
    }
  }

  /** The part of the subtree of `h` below the children in `done`. */
  predicate InDone(keys: set<Hash>, h: Hash, done: set<Hash>, k: Hash) {
    InSub(keys, h, k) && k != h && AncestorAt(k, Depth(h) + 1) in done
  }

  lemma InDoneAll(keys: set<Hash>, h: Hash, k: Hash)
    ensures InSub(keys, h, k) <==> k == h || InDone(keys, h, Kids(keys, h), k)
  {}

  lemma InDoneAdd(keys: set<Hash>, h: Hash, done: set<Hash>, c: Hash, k: Hash)
    requires c in Kids(keys, h)
    ensures InDone(keys, h, done + {c}, k) <==> InDone(keys, h, done, k) || InSub(keys, c, k)
    ensures c !in done ==> !(InDone(keys, h, done, k) && InSub(keys, c, k))
  {
    if InSub(keys, c, k) {
      KidSubIsSub(keys, h, c, k);
    }
    if InDone(keys, h, done + {c}, k) {
      SubThroughKid(keys, h, k);
    }
  }

  // ---------------------------------------------------------------- the ledger of a set of blocks

  /** The entry whose forks hold `c`: its parent if that is present, genesis otherwise. */
  function Holder(blocks: set<Hash>, c: Hash): Hash
    requires c.Digest?
  {
    if c.prev in blocks then c.prev else Zero
  }

  /** The distance to genesis, or to genesis through the root of an orphan tree. */
  function Length(blocks: set<Hash>, h: Hash): nat {
    if h in blocks && h.Digest? then (if h.prev in blocks then Length(blocks, h.prev) else 0) + 1 else 0
  }

  function Forks(blocks: set<Hash>, h: Hash): set<Hash> {
    set c | c in blocks && c.Digest? && Holder(blocks, c) == h
  }

  /** What `chains` is after any blocks arrived in any order. */
  function LedgerOf(blocks: set<Hash>): Chains {
    map h | h in blocks + {Zero} :: Entry(Length(blocks, h), Forks(blocks, h))
  }

  ghost predicate Blocks(blocks: set<Hash>) {
    forall b | b in blocks :: b.Digest?
  }

  /** `h` is a block of maximal length, or genesis while there is none. */
  ghost predicate IsLongest(blocks: set<Hash>, h: Hash) {
    (h in blocks || h == Zero) && forall k | k in blocks :: Length(blocks, k) <= Length(blocks, h)
  }

  /** Walking parents from `h` while they are present takes exactly `Length` steps to the last. */
  function PathToRoot(blocks: set<Hash>, h: Hash): seq<Hash> {
    if h in blocks && h.Digest? then [h] + PathToRoot(blocks, h.prev) else []
  }

  /** `LengthOfChain` is the number of blocks from the root of its component down to it. */
  lemma {:induction false} LengthIsDistance(blocks: set<Hash>, h: Hash)
    requires Blocks(blocks)
    ensures Length(blocks, h) == |PathToRoot(blocks, h)|
    ensures h in blocks ==>
              var path := PathToRoot(blocks, h);
              && path[0] == h && (forall i | 0 <= i < |path| :: path[i].Digest? && path[i] in blocks)
              && path[|path| - 1].prev !in blocks
              && forall i | 0 <= i < |path| - 1 :: path[i].prev == path[i + 1]
  {
    if h in blocks {
      LengthIsDistance(blocks, h.prev);
    }
  }

  /** Forks are the present children; genesis holds the roots of orphan trees as well. Every block
      is held exactly once. */
  lemma ForksAreChildren(blocks: set<Hash>, h: Hash, c: Hash)
    requires Blocks(blocks) && (h in blocks || h == Zero) && c in blocks
    ensures h != Zero ==> (c in LedgerOf(blocks)[h].forks <==> c.prev == h)
    ensures h == Zero ==> (c in LedgerOf(blocks)[h].forks <==> c.prev == Zero || c.prev !in blocks)
    ensures exists k :: k in LedgerOf(blocks) && c in LedgerOf(blocks)[k].forks
    ensures forall k, j | k in LedgerOf(blocks) && j in LedgerOf(blocks)
                          && c in LedgerOf(blocks)[k].forks && c in LedgerOf(blocks)[j].forks :: k == j
  {
    assert c in LedgerOf(blocks)[Holder(blocks, c)].forks;
  }

  // ---------------------------------------------------------------- adding one block

  lemma {:induction false} LengthInSub(blocks: set<Hash>, b: Hash, k: Hash)
    requires Blocks(blocks) && b in blocks && InSub(blocks, b, k)
    ensures Length(blocks, k) == Length(blocks, b) + Depth(k) - Depth(b)
    decreases k
  {
    if k != b {
      LengthInSub(blocks, b, k.prev);
      assert k.prev in blocks;
    }
  }

  /** A new block changes the length of its descendants only. */
  lemma {:induction false} LengthOutsideSub(blocks: set<Hash>, b: Hash, k: Hash)
    requires Blocks(blocks) && b.Digest? && b !in blocks && !InSub(blocks + {b}, b, k)
    ensures Length(blocks + {b}, k) == Length(blocks, k)
    decreases k
  {
    if k in blocks {
      LengthOutsideSub(blocks, b, k.prev);
    }
  }

  /** The waiting orphans of a new block are adopted by it. */
  lemma ForksAdded(blocks: set<Hash>, b: Hash, h: Hash)
    requires Blocks(blocks) && b.Digest? && b !in blocks
    ensures var adopted, at := Kids(blocks, b), Holder(blocks, b);
            Forks(blocks + {b}, h) == (if h == b then adopted
                                       else Forks(blocks, h) - (if h == Zero then adopted else {})
                                            + (if h == at then {b} else {}))
    ensures Kids(blocks, b) <= Forks(blocks, Zero)
    ensures Kids(blocks + {b}, b) == Kids(blocks, b)
  {
    assert Depth(b.prev) < Depth(b);
    assert Holder(blocks + {b}, b) == Holder(blocks, b);
  }

  // ---------------------------------------------------------------- names

  predicate NoDuplicates(names: seq<string>) {
    forall i, j | 0 <= i < j < |names| :: names[i] != names[j]
  }

  /** The names claimed from `h` back to genesis or to the root of its orphan tree. */
  function BranchNames(keys: set<Hash>, h: Hash): seq<string> {
    if h.Digest? then h.names + (if h.prev in keys then BranchNames(keys, h.prev) else []) else []
  }

  /** No two blocks claim the same name, and none claims a name twice. */
  ghost predicate ConflictFree(blocks: set<Hash>) {
    && (forall b | b in blocks && b.Digest? :: NoDuplicates(b.names))
    && (forall b, c, n | b in blocks && c in blocks && b.Digest? && c.Digest? && n in b.names && n in c.names :: b == c)
  }

  lemma NoDuplicatesConcat(a: seq<string>, b: seq<string>)
    ensures NoDuplicates(a + b) <==> NoDuplicates(a) && NoDuplicates(b) && forall n | n in a :: n !in b
  {
    var s := a + b;
    if NoDuplicates(s) {
      forall i, j | 0 <= i < j < |b| ensures b[i] != b[j] { assert s[|a| + i] != s[|a| + j]; }
      forall i, j | 0 <= i < j < |a| ensures a[i] != a[j] { assert s[i] != s[j]; }
      forall n | n in a ensures n !in b {
        var i :| 0 <= i < |a| && a[i] == n;
        forall j | 0 <= j < |b| ensures b[j] != n { assert s[i] != s[|a| + j]; }
      }
    }
    if NoDuplicates(a) && NoDuplicates(b) && forall n | n in a :: n !in b {
      forall i, j | 0 <= i < j < |s| ensures s[i] != s[j] {
        if i < |a| <= j { assert a[i] in a && a[i] !in b && b[j - |a|] in b; }
      }
    }
  }

  /** `x` is `h` or an ancestor that is reached through present blocks. */
  predicate Above(keys: set<Hash>, h: Hash, x: Hash) {
    x == h || (h.Digest? && h.prev in keys && Above(keys, h.prev, x))
  }

  lemma {:induction false} AboveShallower(keys: set<Hash>, h: Hash, x: Hash)
    requires Above(keys, h, x)
    ensures Depth(x) <= Depth(h)
    decreases h
  {
    if x != h {
      AboveShallower(keys, h.prev, x);
    }
  }

  predicate ClaimsName(x: Hash, n: string) {
    x.Digest? && n in x.names
  }

  /** A name of the branch is one that `h` or a present ancestor claims. */
  lemma {:induction false} BranchNamesIff(keys: set<Hash>, h: Hash, n: string)
    ensures n in BranchNames(keys, h) <==> exists x :: Above(keys, h, x) && ClaimsName(x, n)
    decreases h
  {
    if h.Digest? && h.prev in keys {
      BranchNamesIff(keys, h.prev, n);
      if x :| Above(keys, h, x) && ClaimsName(x, n) && x != h { assert Above(keys, h.prev, x); }
      if x :| Above(keys, h.prev, x) && ClaimsName(x, n) { assert Above(keys, h, x); }
    } else {
      assert forall x :: Above(keys, h, x) <==> x == h;
    }
    assert Above(keys, h, h) && (ClaimsName(h, n) ==> n in BranchNames(keys, h));
  }

  /** No block of the branch repeats a name, and no two claim the same one. */
  ghost predicate BranchClean(keys: set<Hash>, h: Hash) {
    && (forall x: Hash | Above(keys, h, x) && x.Digest? :: NoDuplicates(x.names))
    && (forall x, y, n | Above(keys, h, x) && Above(keys, h, y) && ClaimsName(x, n) && ClaimsName(y, n) :: x == y)
  }

  lemma {:induction false} BranchCleanIff(keys: set<Hash>, h: Hash)
    ensures NoDuplicates(BranchNames(keys, h)) <==> BranchClean(keys, h)
    decreases h
  {
    if h.Digest? && h.prev in keys {
      hide BranchClean;
      BranchCleanIff(keys, h.prev);
      NoDuplicatesConcat(h.names, BranchNames(keys, h.prev));
      if BranchClean(keys, h) { CleanAbove(keys, h); }
      if NoDuplicates(BranchNames(keys, h)) { CleanWith(keys, h); }
    } else {
      assert forall x :: Above(keys, h, x) <==> x == h;
      assert h.Digest? ==> BranchNames(keys, h) == h.names;
    }
  }

  lemma CleanAbove(keys: set<Hash>, h: Hash)
    requires h.Digest? && h.prev in keys && BranchClean(keys, h)
    ensures BranchClean(keys, h.prev) && NoDuplicates(h.names)
    ensures forall n | n in h.names :: n !in BranchNames(keys, h.prev)
  {
    hide BranchNames;
    assert forall x | Above(keys, h.prev, x) :: Above(keys, h, x);
    assert Above(keys, h, h);
    forall n | n in h.names ensures n !in BranchNames(keys, h.prev) {
      BranchNamesIff(keys, h.prev, n);
      assert ClaimsName(h, n);
      forall x | Above(keys, h.prev, x) ensures !ClaimsName(x, n) { AboveShallower(keys, h.prev, x); }
    }
  }

  lemma CleanWith(keys: set<Hash>, h: Hash)
    requires h.Digest? && h.prev in keys && BranchClean(keys, h.prev) && NoDuplicates(h.names)
    requires forall n | n in h.names :: n !in BranchNames(keys, h.prev)
    ensures BranchClean(keys, h)
  {
    hide BranchNames;
    forall x, y, n | Above(keys, h, x) && Above(keys, h, y) && ClaimsName(x, n) && ClaimsName(y, n) ensures x == y {
      BranchNamesIff(keys, h.prev, n);
      assert x != h ==> Above(keys, h.prev, x);
      assert y != h ==> Above(keys, h.prev, y);
    }
  }

  // ---------------------------------------------------------------- the ledger while orphans are adopted

  /** `chains` after the block `b` was placed and its orphans in `done` were adopted. */
  ghost predicate Adopting(blocks: set<Hash>, b: Hash, done: set<Hash>, now: Chains)
    requires b.Digest?
  {
    var at := Holder(blocks, b);
    && now.Keys == blocks + {b, Zero}
    && done <= Kids(blocks, b)
    && now[b].forks == done
    && (forall k | k in now && k != b ::
          now[k].forks == Forks(blocks, k) - (if k == Zero then done else {}) + (if k == at then {b} else {}))
    && (forall k | k in now :: now[k].length == AdoptedLength(blocks, b, done, k))
  }

  ghost function AdoptedLength(blocks: set<Hash>, b: Hash, done: set<Hash>, k: Hash): nat {
    if k == b || !InSub(blocks + {b, Zero}, b, k) || InDone(blocks + {b, Zero}, b, done, k)
    then Length(blocks + {b}, k) else Length(blocks, k)
  }

  lemma {:induction false} InSubWithZero(keys: set<Hash>, h: Hash, k: Hash)
    ensures InSub(keys + {Zero}, h, k) <==> InSub(keys, h, k)
    decreases k
  {
    if k != h && k.Digest? {
      InSubWithZero(keys, h, k.prev);
    }
  }

  lemma {:induction false} LengthGrows(blocks: set<Hash>, b: Hash, k: Hash)
    requires b.Digest? && b !in blocks
    ensures Length(blocks, k) <= Length(blocks + {b}, k)
    decreases k
  {
    if k in blocks && k.Digest? {
      LengthGrows(blocks, b, k.prev);
    }
  }

  /** A block placed in the ledger of the others, before any orphan is adopted. */
  lemma PlacedIsAdopting(blocks: set<Hash>, b: Hash, now: Chains)
    requires Blocks(blocks) && b.Digest? && b !in blocks && now.Keys == blocks + {b, Zero}
    requires now[b] == Entry(Length(blocks, Holder(blocks, b)) + 1, {})
    requires forall k | k in now && k != b ::
      now[k] == Entry(Length(blocks, k), Forks(blocks, k) + (if k == Holder(blocks, b) then {b} else {}))
    ensures Adopting(blocks, b, {}, now)
  {
    assert Depth(b.prev) < Depth(b);
    forall k | k in now && !InSub(blocks + {b, Zero}, b, k) ensures Length(blocks + {b}, k) == Length(blocks, k) {
      assert blocks + {b, Zero} == blocks + {b} + {Zero};
      InSubWithZero(blocks + {b}, b, k);
      LengthOutsideSub(blocks, b, k);
    }
    assert !InSub(blocks + {b}, b, b.prev) by {
      if InSub(blocks + {b}, b, b.prev) { SubDeeper(blocks + {b}, b, b.prev); }
    }
    LengthOutsideSub(blocks, b, b.prev);
  }

  /** The subtree of a waiting orphan is not affected by the adoption of others. */
  lemma AdoptingBelow(blocks: set<Hash>, b: Hash, done: set<Hash>, now: Chains, a: Hash, k: Hash)
    requires Blocks(blocks) && b.Digest? && b !in blocks && Adopting(blocks, b, done, now)
    requires a in Kids(blocks, b) && k in now && InSub(now.Keys, a, k)
    ensures k in blocks && now[k].forks == Kids(now.Keys, k)
  {
    SubDeeper(now.Keys, a, k);
    assert Depth(b.prev) < Depth(b) < Depth(a) <= Depth(k);
    assert k in blocks && k != b && k != Zero && k != b.prev;
    assert Forks(blocks, k) == Kids(blocks, k);
    assert Kids(now.Keys, k) == Kids(blocks, k);
  }

  /** Once all waiting orphans are adopted, the ledger is that of the larger set. */
  lemma AdoptedAll(blocks: set<Hash>, b: Hash, now: Chains)
    requires Blocks(blocks) && b.Digest? && b !in blocks && Adopting(blocks, b, Kids(blocks, b), now)
    ensures now == LedgerOf(blocks + {b})
  {
    var all := blocks + {b};
    assert blocks + {b, Zero} == all + {Zero};
    forall k | k in now ensures now[k] == Entry(Length(all, k), Forks(all, k)) {
      ForksAdded(blocks, b, k);
      InDoneAll(now.Keys, b, k);
      assert Kids(now.Keys, b) == Kids(blocks, b) by { assert Depth(b.prev) < Depth(b); }
    }
  }

  /** Adopting one more orphan and measuring its subtree from `b`. */
  lemma AdoptStep(blocks: set<Hash>, b: Hash, done: set<Hash>, a: Hash, now: Chains, next: Chains)
    requires Blocks(blocks) && b.Digest? && b !in blocks && a in Kids(blocks, b) && a !in done
    requires Adopting(blocks, b, done, now) && next.Keys == now.Keys
    requires next[b].forks == done + {a} && next[Zero].forks == now[Zero].forks - {a}
    requires forall k | k in now && k != b && k != Zero :: next[k].forks == now[k].forks
    requires forall k | k in now ::
      next[k].length == if InSub(now.Keys, a, k) then now[b].length + 1 + Depth(k) - Depth(a) else now[k].length
    ensures Adopting(blocks, b, done + {a}, next)
  {
    var keys := blocks + {b, Zero};
    assert keys == blocks + {b} + {Zero};
    assert a in Kids(keys, b);
    forall k | k in next ensures next[k].length == AdoptedLength(blocks, b, done + {a}, k) {
      InDoneAdd(keys, b, done, a, k);
      if InSub(keys, a, k) {
        KidSubIsSub(keys, b, a, k);
        InSubWithZero(blocks + {b}, b, k);
        LengthInSub(blocks + {b}, b, k);
      }
    }
    assert a != b && Holder(blocks, a) == Zero;
    assert Depth(b.prev) < Depth(b);
  }
}
