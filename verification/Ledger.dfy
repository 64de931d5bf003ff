/**
 The block ledger (gossiper/blockchain.go) and its set of claimed names (dto/SafeStringArray.go).
 The methods are total: `ok` is false where the original dereferences a missing entry, and each
 contract says exactly when that is.
 */
module Ledger {
  import opened Words
  import opened Chain
  import opened Forest

  // ---------------------------------------------------------------- claimed names

  class SafeStringArray {
    var present: set<string>
    var items: seq<string>

    constructor ()
      ensures present == {} && items == []
    {
      present, items := {}, [];
    }

    method AppendUniqueToArray(item: string) returns (isNew: bool)
      modifies this
      ensures isNew == (item !in old(present)) && present == old(present) + {item}
      ensures items == if isNew then old(items) + [item] else old(items)
    {
      if item !in present {
        present := present + {item};
        items := items + [item];
        return true;
      }
      return false;
    }
  }

  /** Claim names one by one up to the first that is taken. */
  method ClaimAll(claimed: SafeStringArray, names: seq<string>) returns (valid: bool)
    modifies claimed
    ensures valid <==> NoDuplicates(names) && Elements(names) !! old(claimed.present)
    ensures old(claimed.present) <= claimed.present <= old(claimed.present) + Elements(names)
    ensures valid ==> claimed.present == old(claimed.present) + Elements(names)
    ensures claimed.present == ClaimedBy(old(claimed.present), names)
  {
    for i := 0 to |names|
      invariant ClaimedBy(claimed.present, names[i..]) == ClaimedBy(old(claimed.present), names)
      invariant NoDuplicates(names[..i]) && Elements(names[..i]) !! old(claimed.present)
      invariant claimed.present == old(claimed.present) + Elements(names[..i])
    {
      ghost var front := names[..i];
      assert names[..i + 1] == front + [names[i]];
      assert names[i..][0] == names[i] && names[i..][1..] == names[i + 1..];
      var isNew := claimed.AppendUniqueToArray(names[i]);
      if !isNew {
        assert names[i] in names && forall n | n in front :: n in names;
        if names[i] in front {
          var j :| 0 <= j < i && front[j] == names[i];
          assert names[j] == names[i];
        }
        return false;
      }
      assert Elements(names[..i + 1]) == Elements(front) + {names[i]};
    }
    assert names[..|names|] == names;
    return true;
  }

  lemma ClaimStep(checked: seq<string>, mine: seq<string>)
    requires NoDuplicates(checked)
    ensures Elements(checked + mine) == Elements(checked) + Elements(mine)
    ensures NoDuplicates(mine) && Elements(mine) !! Elements(checked) <==> NoDuplicates(checked + mine)
  {
    NoDuplicatesConcat(checked, mine);
    forall n | n in checked ensures n in Elements(checked) {}
  }

  /** Claim the names of one more block of a branch. */
  method ClaimNext(claimed: SafeStringArray, mine: seq<string>, ghost checked: seq<string>) returns (valid: bool)
    requires NoDuplicates(checked) && claimed.present == Elements(checked)
    modifies claimed
    ensures valid <==> NoDuplicates(checked + mine)
    ensures valid ==> claimed.present == Elements(checked + mine)
  {
    ClaimStep(checked, mine);
    valid := ClaimAll(claimed, mine);
  }

  /** The names from `h` on, if `h` is known. */
  ghost function NamesFrom(keys: set<Hash>, h: Hash): seq<string> {
    if h in keys then BranchNames(keys, h) else []
  }

  lemma NamesStep(keys: set<Hash>, h: Hash, checked: seq<string>)
    requires h.Digest? && h in keys
    ensures checked + NamesFrom(keys, h) == checked + h.names + NamesFrom(keys, h.prev)
  {
  }

  /** `checkValidTransactionsBackwards`: true exactly when the names of the branch of `b` are
      pairwise distinct, and then they are the claimed ones. */
  method CheckValidTransactionsBackwards(chains: Chains, b: Hash) returns (claimed: SafeStringArray?, valid: bool)
    requires b.Digest? && forall k | k in chains :: k == Zero || k.Digest?
    ensures valid <==> NoDuplicates(BranchNames(chains.Keys, b))
    ensures valid <==> claimed != null
    ensures valid ==> fresh(claimed) && claimed.present == Elements(BranchNames(chains.Keys, b))
  {
    ghost var all := BranchNames(chains.Keys, b);
    ghost var checked: seq<string>, above := [], NamesFrom(chains.Keys, b.prev);
    var names := new SafeStringArray();
    claimed := null;
    valid := ClaimNext(names, b.names, checked);
    assert all == checked + b.names + above;
    NoDuplicatesConcat(checked + b.names, above);
    if !valid {
      return;
    }
    checked := checked + b.names;
    var prevHash := b.prev;
    while prevHash != Zero && prevHash in chains
      invariant all == checked + NamesFrom(chains.Keys, prevHash)
      invariant fresh(names) && names.present == Elements(checked) && NoDuplicates(checked)
      decreases prevHash
    {
      above := NamesFrom(chains.Keys, prevHash.prev);
      valid := ClaimNext(names, prevHash.names, checked);
      NamesStep(chains.Keys, prevHash, checked);
      NoDuplicatesConcat(checked + prevHash.names, above);
      if !valid {
        return;
      }
      checked := checked + prevHash.names;
      prevHash := prevHash.prev;
    }
    claimed := names;
  }

  // ---------------------------------------------------------------- the ledger

  ghost predicate SameForks(before: Chains, now: Chains) {
    now.Keys == before.Keys && forall k | k in before :: now[k].forks == before[k].forks
  }

  /** Below `h` the forks are exactly the present children. */
  ghost predicate Tidy(chains: Chains, h: Hash) {
    forall k | k in chains && InSub(chains.Keys, h, k) :: chains[k].forks == Kids(chains.Keys, k)
  }

  /** The entries of `part` have the lengths that their depths give, all others are as long as before. */
  ghost predicate Leveled(before: Chains, now: Chains, part: set<Hash>, level: int) {
    && now.Keys <= before.Keys
    && forall k | k in now :: now[k].length == if k in part then level + Depth(k) else before[k].length
  }

  /** `highest` is of maximal length among the entries of `part`. */
  ghost predicate Tallest(now: Chains, part: set<Hash>, maxLen: int, highest: Hash) {
    && highest in now && highest in part && now[highest].length == maxLen
    && forall k | k in now && k in part :: now[k].length <= maxLen
  }

  lemma LeveledTwice(before: Chains, mid: Chains, now: Chains, part: set<Hash>, more: set<Hash>, level: int)
    requires Leveled(before, mid, part, level) && Leveled(mid, now, more, level)
    ensures Leveled(before, now, part + more, level)
  {}

  /** The better of two separate parts, of which the second was measured last. */
  lemma TallestOfBoth(mid: Chains, now: Chains, part: set<Hash>, more: set<Hash>, level: int,
                      maxLen: int, highest: Hash, len: int, high: Hash)
    requires Leveled(mid, now, more, level) && part !! more && highest in now
    requires Tallest(mid, part, maxLen, highest) && Tallest(now, more, len, high)
    ensures Tallest(now, part + more, if len > maxLen then len else maxLen, if len > maxLen then high else highest)
  {}

  /** Measuring the tree of `h`: the branches in `done` are through, the best of them is `highest`. */
  datatype Measure = Measure(before: Chains, now: Chains, h: Hash, done: set<Hash>, maxLen: int, highest: Hash)

  /** The branch `c` was measured, with `highest` of length `len` the best of it. */
  function BranchMeasured(s: Measure, c: Hash, now: Chains, len: int, highest: Hash): Measure {
    if len > s.maxLen then Measure(s.before, now, s.h, s.done + {c}, len, highest)
    else s.(now := now, done := s.done + {c})
  }

  lemma SameForksTwice(before: Chains, mid: Chains, now: Chains)
    requires SameForks(before, mid) && SameForks(mid, now)
    ensures SameForks(before, now) && before.Keys == mid.Keys == now.Keys
  {
  }

  lemma {:induction false} TidyBelow(chains: Chains, h: Hash, k: Hash)
    requires Shape(chains) && Tidy(chains, h) && h in chains && h.Digest? && Below(chains, h, k)
    ensures k in chains && InSub(chains.Keys, h, k)
    decreases k
  {
    if k != h {
      TidyBelow(chains, h, k.prev);
    }
  }

  /** Below a tidy entry the tree through forks is the one through parents. */
  lemma TidyTree(chains: Chains, h: Hash)
    requires Shape(chains) && Tidy(chains, h) && h in chains && h.Digest?
    ensures forall k | k in chains :: k in Tree(chains, h) <==> InSub(chains.Keys, h, k)
  {
    forall k | k in chains ensures k in Tree(chains, h) <==> InSub(chains.Keys, h, k) {
      if Below(chains, h, k) { TidyBelow(chains, h, k); }
      if InSub(chains.Keys, h, k) { TidySub(chains, h, k); }
    }
  }

  lemma {:induction false} TidySub(chains: Chains, h: Hash, k: Hash)
    requires Tidy(chains, h) && h in chains && InSub(chains.Keys, h, k)
    ensures Below(chains, h, k)
    decreases k
  {
    if k != h {
      TidySub(chains, h, k.prev);
      assert k.prev in chains && k in Kids(chains.Keys, k.prev);
    }
  }

  // ---------------------------------------------------------------- what pruning one tree does

  function ClaimsOf(claimed: SafeStringArray?): Claims
    reads claimed
  {
    if claimed == null then None else Some(claimed.present)
  }

  /** Every branch of `h` that is present is whole. */
  ghost predicate BranchesWhole(chains: Chains, h: Hash) {
    h in chains && forall d | d in chains[h].forks && d in chains :: Whole(chains, d)
  }

  /** Claiming for the tree of `h`. If the names of `h` itself are taken, the tree is deleted, which
      works exactly when it is whole. Otherwise nothing is deleted and nothing was missing exactly
      when all names of the tree could be claimed; `valid` tells whether `h` lacks none of its forks. */
  ghost predicate Pruned(before: Chains, now: Chains, h: Hash, c: Claims, after: Claims, ok: bool, valid: bool)
    requires h.Digest? && h in before
  {
    && (valid ==> ok)
    && Cut(before, now, h)
    && (OwnClear(h, c) && ok ==> h in now && (valid <==> before[h].forks <= before.Keys))
    && (!OwnClear(h, c) ==> !valid && (c.None? ==> !ok))
    && (Goes(c, h) ==> (ok <==> Whole(before, h)) && after == Some(ClaimedBy(c.value, h.names)))
    && (Goes(c, h) && ok ==> now == before - Tree(before, h))
    && (ok && Whole(now, h) ==> now == before && Clear(Tree(before, h), c) && after == With(c, Names(Tree(before, h))))
    && (Whole(before, h) && Clear(Tree(before, h), c) ==> ok && now == before)
    && (OwnClear(h, c) && BranchesWhole(before, h) && (c.Some? || Names(Tree(before, h)) == {}) ==> ok)
  }

  /** Pruning the branches of `h`: the ones in `done` are through, `c` was claimed before and `after`
      is now, and `kept` tells whether nothing was missing or deleted so far. */
  datatype Prune = Prune(before: Chains, now: Chains, h: Hash, done: set<Hash>, c: Claims, after: Claims, kept: bool)

  ghost function BranchDone(s: Prune, next: Hash, now: Chains, after: Claims): Prune {
    s.(now := now, done := s.done + {next}, after := after, kept := s.kept && Whole(now, next))
  }

  /** Between two branches of `h`: everything was kept and claimed so far, or an entry is missing. */
  ghost predicate Pruning(s: Prune) {
    && Shape(s.before) && Shape(s.now) && s.h in s.before && s.h.Digest? && OwnClear(s.h, s.c)
    && Cut(s.before, s.now, s.h) && s.h in s.now
    && (forall d | d in s.before[s.h].forks && d !in s.done :: Intact(s.before, s.now, d))
    && s.done <= s.before.Keys && (s.c.Some? <==> s.after.Some?)
    && (s.kept ==> s.now == s.before && Clear(Part(s.before, s.h, s.done), s.c))
    && (s.kept ==> s.after == With(s.c, Names(Part(s.before, s.h, s.done))))
    && (s.kept ==> forall d | d in s.done :: Whole(s.before, d))
    && (!s.kept ==> !Whole(s.now, s.h) && !(Whole(s.before, s.h) && Clear(Tree(s.before, s.h), s.c)))
  }

  lemma PruningStarts(before: Chains, h: Hash, c: Claims, after: Claims)
    requires Shape(before) && h in before && h.Digest? && OwnClear(h, c) && after == With(c, Elements(h.names))
    ensures Pruning(Prune(before, before, h, {}, c, after, true))
  {
    PartAll(before, h);
    OwnClearIff(h, c);
  }

  /** `next` is a branch that was not looked at yet. */
  ghost predicate Branch(s: Prune, next: Hash) {
    Pruning(s) && next in s.before[s.h].forks && next !in s.done
  }

  /** A branch that fails was not whole, or had names and no list of claimed names. */
  lemma BranchFails(s: Prune, next: Hash, now: Chains, after: Claims, valid: bool)
    requires Branch(s, next) && next in s.now && next.Digest? && Pruned(s.now, now, next, s.after, after, false, valid)
    ensures !(BranchesWhole(s.before, s.h) && (s.c.Some? || Names(Tree(s.before, s.h)) == {}))
    ensures !(Whole(s.before, s.h) && Clear(Tree(s.before, s.h), s.c))
  {
    IntactTree(s.before, s.now, next);
    BranchInTree(s.before, s.h, next);
    WholeIff(s.before, s.h);
    assert Names(Tree(s.before, next)) <= Names(Tree(s.before, s.h));
    WholeIff(s.now, next);
    QuietOwn(s.now, next, s.after);
  }

  lemma QuietOwn(chains: Chains, h: Hash, c: Claims)
    requires h.Digest?
    ensures c.None? && Names(Tree(chains, h)) == {} ==> OwnClear(h, c)
  {
    assert h in Tree(chains, h) && {h} <= Tree(chains, h);
    assert Names({h}) <= Names(Tree(chains, h));
    OwnClearIff(h, c);
  }

  lemma DepthOfKey(keys: set<Hash>, bound: nat, k: Hash)
    requires DepthBound(keys, bound) && k in keys
    ensures Depth(k) <= bound
  {}

  lemma BranchReady(s: Prune, next: Hash, bound: nat)
    requires Pruning(s) && DepthBound(s.before.Keys, bound) && next in s.before[s.h].forks
    ensures next.Digest? && next.prev == s.h && Shape(s.now) && DepthBound(s.now.Keys, bound) && s.h in s.now
  {}

  lemma BranchMissing(s: Prune, next: Hash)
    requires Branch(s, next) && next !in s.now
    ensures next !in s.before && !Whole(s.now, s.h) && !Whole(s.before, s.h)
  {
    IntactTree(s.before, s.now, next);
    WholeIff(s.before, s.h);
    WholeIff(s.now, s.h);
    assert s.now[s.h] == s.before[s.h];
    assert Below(s.before, next, next) && Below(s.now, next, next);
  }

  /** One more branch. */
  lemma PruneStep(s: Prune, next: Hash, now: Chains, after: Claims, valid: bool)
    requires Branch(s, next) && next in s.now && next.Digest? && Shape(now) && (s.after.Some? <==> after.Some?)
    requires Pruned(s.now, now, next, s.after, after, true, valid)
    ensures Pruning(BranchDone(s, next, now, after))
  {
    hide Whole, Tree, Clear, Intact, Part, BranchesWhole;
    CutStep(s.before, s.now, now, s.h, next);
    IntactTree(s.before, s.now, next);
    if s.kept && Whole(now, next) {
      KeptStep(s.before, s.h, s.done, next, s.c);
    } else {
      BrokenStays(s, next, now);
      BrokenUnclear(s, next, now, after, valid);
    }
  }

  lemma KeptStep(before: Chains, h: Hash, done: set<Hash>, next: Hash, c: Claims)
    requires Shape(before) && h in before && h.Digest? && next in before[h].forks && next !in done
    requires Clear(Part(before, h, done), c) && Clear(Tree(before, next), With(c, Names(Part(before, h, done))))
    ensures Clear(Part(before, h, done + {next}), c)
    ensures With(With(c, Names(Part(before, h, done))), Names(Tree(before, next)))
            == With(c, Names(Part(before, h, done + {next})))
  {
    var part, branch := Part(before, h, done), Tree(before, next);
    PartAdd(before, h, done, next);
    ClearUnion(part, branch, c);
    NamesUnion(part, branch);
    if c.Some? { assert c.value + Names(part) + Names(branch) == c.value + (Names(part) + Names(branch)); }
  }

  lemma BrokenUnclear(s: Prune, next: Hash, now: Chains, after: Claims, valid: bool)
    requires Branch(s, next) && next in s.now && next.Digest?
    requires Pruned(s.now, now, next, s.after, after, true, valid) && !(s.kept && Whole(now, next))
    ensures !(Whole(s.before, s.h) && Clear(Tree(s.before, s.h), s.c))
  {
    if s.kept && Clear(Tree(s.before, s.h), s.c) {
      WholeIff(s.before, s.h);
      KeptBranchClear(s.before, s.h, s.done, next, s.c);
    }
  }

  lemma KeptBranchClear(before: Chains, h: Hash, done: set<Hash>, next: Hash, c: Claims)
    requires Shape(before) && h in before && h.Digest? && next in before[h].forks && next !in done
    requires Clear(Tree(before, h), c)
    ensures Clear(Tree(before, next), With(c, Names(Part(before, h, done))))
  {
    PartAdd(before, h, done, next);
    PartInTree(before, h, done + {next});
    ClearPart(Part(before, h, done + {next}), Tree(before, h), c);
    ClearUnion(Part(before, h, done), Tree(before, next), c);
  }

  /** Once an entry below `h` is missing, it stays missing whatever happens to another branch. */
  lemma BrokenStays(s: Prune, next: Hash, now: Chains)
    requires Branch(s, next) && Shape(now) && Cut(s.now, now, next) && s.h in now && now[s.h] == s.now[s.h]
    requires Whole(now, next) ==> now == s.now
    requires !(s.kept && Whole(now, next))
    ensures !Whole(now, s.h)
  {
    hide Whole, Intact, Clear, Part, Tree;
    WholeIff(now, s.h);
    if !s.kept {
      WholeIff(s.now, s.h);
      var d :| d in s.now[s.h].forks && !Whole(s.now, d);
      if d != next { OtherBroken(s.now, now, next, d); }
    }
  }

  lemma OtherBroken(mid: Chains, now: Chains, next: Hash, d: Hash)
    requires Cut(mid, now, next) && Depth(d) == Depth(next) && d != next && !Whole(mid, d)
    ensures !Whole(now, d)
  {
    hide Whole, Cut;
    CutIntact(mid, now, next, d);
    IntactTree(mid, now, d);
  }

  lemma PruneStops(s: Prune, next: Hash)
    requires Branch(s, next) && next !in s.now
    ensures Pruned(s.before, s.now, s.h, s.c, s.after, true, false)
  {
    BranchMissing(s, next);
  }

  /** A failure below ends the whole pruning. */
  lemma PruneFails(s: Prune, next: Hash, now: Chains, after: Claims, valid: bool)
    requires Branch(s, next) && next in s.now && next.Digest? && Pruned(s.now, now, next, s.after, after, false, valid)
    ensures Pruned(s.before, now, s.h, s.c, after, false, false)
  {
    BranchFails(s, next, now, after, valid);
    CutStep(s.before, s.now, now, s.h, next);
  }

  lemma PruneEnds(s: Prune)
    requires Pruning(s) && s.done == s.before[s.h].forks
    ensures Shape(s.now) && Pruned(s.before, s.now, s.h, s.c, s.after, true, true)
  {
    PartAll(s.before, s.h);
    WholeIff(s.before, s.h);
  }

  lemma PruneDeletes(before: Chains, now: Chains, h: Hash, c: Claims, after: Claims, ok: bool)
    requires Shape(before) && h in before && h.Digest? && !OwnClear(h, c)
    requires Cut(before, now, h) && (c.None? ==> !ok && now == before)
    requires c.Some? ==> (ok <==> Whole(before, h)) && after == Some(ClaimedBy(c.value, h.names))
    requires c.Some? && ok ==> now == before - Tree(before, h)
    ensures Pruned(before, now, h, c, after, ok, false)
  {
    OwnClearIff(h, c);
    assert Below(before, h, h) && Below(now, h, h) && h in Tree(before, h);
    if Clear(Tree(before, h), c) { ClearPart({h}, Tree(before, h), c); }
  }

  lemma SameForksWhole(before: Chains, now: Chains, h: Hash)
    requires SameForks(before, now)
    ensures (Whole(before, h) <==> Whole(now, h)) && Tree(before, h) == Tree(now, h)
  {
    IntactTree(before, now, h);
  }

  /** `h` and its branches in `done` were measured, and nothing was missing there. */
  ghost predicate Measuring(s: Measure) {
    && Shape(s.before) && s.h in s.before && s.h.Digest? && s.h.prev in s.before
    && Shape(s.now) && SameForks(s.before, s.now)
    && (forall c | c in s.done :: Whole(s.before, c))
    && s.highest.Digest? && s.maxLen > 0
    && Leveled(s.before, s.now, Part(s.before, s.h, s.done), Level(s.before, s.h))
    && Tallest(s.now, Part(s.before, s.h, s.done), s.maxLen, s.highest)
  }

  /** What measuring below `h` adds to a depth. */
  function Level(chains: Chains, h: Hash): int
    requires h.Digest? && h.prev in chains
  {
    chains[h.prev].length + 1 - Depth(h)
  }

  /** The whole of `recursiveUpdateLength`: it works exactly when the parent is present and nothing
      below is missing, and measures just the tree of `h`. */
  ghost predicate Remeasured(before: Chains, now: Chains, h: Hash, ok: bool, maxLen: int, highest: Hash)
    requires h.Digest?
  {
    && Shape(now) && SameForks(before, now)
    && (ok <==> h.prev in before && Whole(before, h))
    && (ok ==>
          && highest.Digest? && maxLen > 0
          && Leveled(before, now, Tree(before, h), Level(before, h)) && Tallest(now, Tree(before, h), maxLen, highest))
  }

  lemma MeasuringStarts(before: Chains, h: Hash)
    requires Shape(before) && h in before && h.Digest?
    ensures h.prev !in before ==> Remeasured(before, before, h, false, 0, h)
    ensures h.prev in before ==>
              var len := before[h.prev].length + 1;
              Measuring(Measure(before, before[h := before[h].(length := len)], h, {}, len, h))
  {
    hide Tree, Whole, Part;
    PartAll(before, h);
  }

  lemma MeasuringReady(s: Measure, next: Hash, bound: nat)
    requires Measuring(s) && DepthBound(s.before.Keys, bound) && next in s.before[s.h].forks
    ensures next.Digest? && next.prev == s.h && Shape(s.now) && DepthBound(s.now.Keys, bound)
  {}

  lemma MeasuringStep(s: Measure, c: Hash, now: Chains, len: int, top: Hash)
    requires Measuring(s) && c in s.before[s.h].forks && c !in s.done && c in s.now && c.Digest? && c.prev == s.h
    requires Remeasured(s.now, now, c, true, len, top)
    ensures Measuring(BranchMeasured(s, c, now, len, top))
  {
    hide Leveled, Tallest, Whole, Shape, SameForks, Part, Tree;
    var part, branch, level := Part(s.before, s.h, s.done), Tree(s.before, c), Level(s.before, s.h);
    SameForksWhole(s.before, s.now, c);
    SameForksTwice(s.before, s.now, now);
    PartAdd(s.before, s.h, s.done, c);
    SameLevel(s, c);
    TallestPresent(s.now, part, s.maxLen, s.highest);
    LeveledTwice(s.before, s.now, now, part, branch, level);
    TallestOfBoth(s.now, now, part, branch, level, s.maxLen, s.highest, len, top);
  }

  lemma TallestPresent(now: Chains, part: set<Hash>, maxLen: int, highest: Hash)
    requires Tallest(now, part, maxLen, highest)
    ensures highest in now
  {}

  lemma SameLevel(s: Measure, c: Hash)
    requires Measuring(s) && c.Digest? && c.prev == s.h
    ensures s.h in s.now && Level(s.now, c) == Level(s.before, s.h)
  {
    assert s.h in Part(s.before, s.h, s.done) && Depth(c) == Depth(s.h) + 1;
  }

  lemma MeasuringFails(s: Measure, c: Hash, now: Chains, len: int, top: Hash)
    requires Measuring(s) && c in s.before[s.h].forks && c in s.now && c.Digest? && c.prev == s.h
    requires Remeasured(s.now, now, c, false, len, top)
    ensures Remeasured(s.before, now, s.h, false, s.maxLen, s.highest)
  {
    SameForksWhole(s.before, s.now, c);
    SameForksTwice(s.before, s.now, now);
    WholeIff(s.before, s.h);
  }

  lemma MeasuringMisses(s: Measure, c: Hash)
    requires Measuring(s) && c in s.before[s.h].forks && c !in s.now
    ensures Remeasured(s.before, s.now, s.h, false, s.maxLen, s.highest)
  {
    MissingFork(s.before, s.h, c);
  }

  lemma MeasuringEnds(s: Measure)
    requires Measuring(s) && s.done == s.before[s.h].forks
    ensures Remeasured(s.before, s.now, s.h, true, s.maxLen, s.highest)
  {
    WholeIff(s.before, s.h);
    PartAll(s.before, s.h);
  }

  lemma MissingFork(chains: Chains, h: Hash, c: Hash)
    requires Shape(chains) && h in chains && h.Digest? && c in chains[h].forks && c !in chains
    ensures !Whole(chains, h)
  {
    assert Below(chains, c, c);
    WholeIff(chains, h);
  }

  /** The branches of `h` in `done` are deleted. */
  ghost predicate Deleting(before: Chains, now: Chains, h: Hash, done: set<Hash>)
    requires h in before
  {
    && Cut(before, now, h) && h in now
    && (forall d | d in before[h].forks && d !in done :: Intact(before, now, d))
    && (forall d | d in done :: Whole(before, d) && Tree(before, d) !! now.Keys)
  }

  lemma DeletingStarts(before: Chains, h: Hash)
    requires h in before
    ensures Deleting(before, before, h, {})
  {}

  lemma AbsentNotWhole(chains: Chains, h: Hash)
    requires h !in chains
    ensures !Whole(chains, h) && Cut(chains, chains, h)
  {
    assert Below(chains, h, h);
  }

  lemma DeletingCut(before: Chains, now: Chains, h: Hash, done: set<Hash>)
    requires h in before && Deleting(before, now, h, done)
    ensures Cut(before, now, h)
  {}

  lemma DeletingReady(before: Chains, mid: Chains, h: Hash, done: set<Hash>, next: Hash, bound: nat)
    requires Shape(before) && DepthBound(before.Keys, bound) && h in before && h.Digest? && next in before[h].forks
    requires Deleting(before, mid, h, done) && next !in done
    ensures next.Digest? && next.prev == h && DepthBound(mid.Keys, bound) && h in mid && Cut(before, mid, h)
    ensures next !in mid ==> !Whole(before, h)
  {
    hide Whole, Tree, Intact;
    IntactTree(before, mid, next);
    if next !in mid { MissingFork(before, h, next); }
  }

  lemma DeletingStep(before: Chains, mid: Chains, now: Chains, h: Hash, done: set<Hash>, next: Hash, ok: bool)
    requires Shape(before) && h in before && h.Digest? && next in before[h].forks && next !in done
    requires Deleting(before, mid, h, done) && Cut(mid, now, next)
    requires (ok <==> Whole(mid, next)) && (ok ==> now == mid - Tree(mid, next))
    ensures Cut(before, now, h)
    ensures if ok then Deleting(before, now, h, done + {next}) else !Whole(before, h)
  {
    IntactTree(before, mid, next);
    CutStep(before, mid, now, h, next);
    WholeIff(before, h);
  }

  lemma DeletingEnds(before: Chains, now: Chains, h: Hash)
    requires Shape(before) && h in before && h.Digest? && Deleting(before, now, h, before[h].forks)
    ensures Whole(before, h) && now - {h} == before - Tree(before, h)
  {
    WholeIff(before, h);
    forall k | k in now && k != h ensures !Below(before, h, k) { DeletedBelow(before, now, h, k); }
    assert Below(before, h, h);
  }

  lemma DeletedLast(before: Chains, now: Chains, h: Hash)
    requires Shape(now) && h in before && h.Digest? && Cut(before, now, h)
    ensures Shape(now - {h}) && Cut(before, now - {h}, h)
  {
    assert Below(before, h, h);
  }

  lemma DeletedBelow(before: Chains, now: Chains, h: Hash, k: Hash)
    requires Shape(before) && h in before && h.Digest? && Deleting(before, now, h, before[h].forks)
    requires k in now && k != h
    ensures !Below(before, h, k)
  {
    if Below(before, h, k) { var d := BelowThroughKid(before, h, k); }
  }

  // ---------------------------------------------------------------- what adopting one orphan does

  function Detached(chains: Chains, orphan: Hash): Chains
    requires Zero in chains
  {
    chains[Zero := chains[Zero].(forks := chains[Zero].forks - {orphan})]
  }

  function Attached(chains: Chains, b: Hash, orphan: Hash): Chains
    requires b in chains && orphan in chains && b != orphan
  {
    chains[b := chains[b].(forks := chains[b].forks + {orphan})]
          [orphan := chains[orphan].(length := chains[b].length + 1)]
  }

  /** The orphan `a` is no longer one. If its own names are taken, its tree goes; this works exactly
      when the tree is whole. If `a` lacks none of its forks, it is adopted exactly when the tree is
      whole and can claim all its names. If it does lack one, the walk may stop there: then `a` is
      neither an orphan nor a fork any more. */
  ghost predicate Adopted(before: Chains, now: Chains, b: Hash, a: Hash, c: Claims, after: Claims, ok: bool)
    requires Zero in before && b in before && a in before && a.Digest?
  {
    && Shape(now) && b in now && now.Keys <= before.Keys
    && (forall k | k in before && k !in now :: Below(before, a, k))
    && now[Zero].forks == before[Zero].forks - {a} && (ok ==> now[b].length == before[b].length)
    && (forall d: Hash | d.Digest? && d != a && Depth(d) == Depth(a) :: Intact(before, now, d))
    && (Goes(c, a) || before[a].forks <= before.Keys ==> (ok <==> Fine(before, c, a)))
    && (Goes(c, a) && ok ==> now.Keys == before.Keys - Tree(before, a) && after == Some(ClaimedBy(c.value, a.names)))
    && (!Goes(c, a) && before[a].forks <= before.Keys && ok ==>
          now.Keys == before.Keys && after == With(c, Names(Tree(before, a))))
    && (!(before[a].forks <= before.Keys) && OwnClear(a, c) && c.Some? && BranchesWhole(before, a) ==> ok)
    && (!(before[a].forks <= before.Keys) && ok ==> OwnClear(a, c) && a in now)
    && (ok ==> now[b].forks == before[b].forks + (if Joins(before, now, a) then {a} else {}))
    && (ok ==> forall k | k in now && k != Zero && k != b :: now[k].forks == before[k].forks)
    && (ok ==> Leveled(before, now, JoinedTree(before, now, a), before[b].length - Depth(b)))
    && (ok && Joins(before, now, a) ==> Intact(before, now, a))
  }

  /** The orphan was adopted: it is still there and lacks none of its forks. */
  ghost predicate Joins(before: Chains, now: Chains, a: Hash) {
    a in before && a in now && before[a].forks <= before.Keys
  }

  /** What is measured when the orphan `a` is adopted. */
  ghost function JoinedTree(before: Chains, now: Chains, a: Hash): set<Hash> {
    if Joins(before, now, a) then Tree(before, a) else {}
  }

  /** The best of an adopted tree, or a length of 0 when the orphan was not adopted. */
  ghost predicate Risen(before: Chains, now: Chains, a: Hash, len: int, high: Hash) {
    if Joins(before, now, a) then len > 0 && high.Digest? && Tallest(now, Tree(before, a), len, high) else len == 0
  }

  lemma DetachedIntact(chains: Chains, a: Hash, d: Hash)
    requires Shape(chains) && d.Digest?
    ensures Intact(chains, Detached(chains, a), d) && Shape(Detached(chains, a))
            && Detached(chains, a).Keys == chains.Keys
  {
    ForksReplaced(chains, Zero, chains[Zero].forks - {a});
    NotBelow(chains, d, Zero);
  }

  /** Other forks in one entry keep the shape, if they name their parent. */
  lemma ForksReplaced(chains: Chains, at: Hash, forks: set<Hash>)
    requires Shape(chains) && at in chains && forall c | c in forks :: c.Digest? && (at != Zero ==> c.prev == at)
    ensures Shape(chains[at := chains[at].(forks := forks)])
  {
    var now := chains[at := chains[at].(forks := forks)];
    forall h, c | h in now && c in now[h].forks ensures c.Digest? && (h != Zero ==> c.prev == h) {
      assert h != at ==> c in chains[h].forks;
    }
  }

  lemma AttachedIntact(chains: Chains, b: Hash, a: Hash, d: Hash)
    requires Shape(chains) && b in chains && a in chains && a.Digest? && b.Digest? && a.prev == b && d.Digest?
    requires Depth(d) == Depth(a)
    ensures Intact(chains, Attached(chains, b, a), d)
  {
    if Below(chains, d, b) { SubDeeper(Linked(chains), d, b); }
  }

  lemma AttachedShape(chains: Chains, b: Hash, a: Hash)
    requires Shape(chains) && b in chains && a in chains && a.Digest? && b.Digest? && a.prev == b && a != b
    ensures Shape(Attached(chains, b, a)) && Attached(chains, b, a).Keys == chains.Keys
  {}

  lemma CutBelow(before: Chains, now: Chains, a: Hash, b: Hash)
    requires Shape(before) && Cut(before, now, a) && a.Digest? && b in before && Depth(b) < Depth(a)
    ensures b in now && Zero in now && now[b] == before[b] && now[Zero] == before[Zero]
  {
    CutKeepsDepth(before, now, a);
  }

  /** Everything but the tree of `a` after detaching and pruning it. */
  lemma PrunedOthers(before: Chains, pruned: Chains, b: Hash, a: Hash)
    requires Shape(before) && b in before && b.Digest? && a in before && a.Digest? && a.prev == b
    requires Cut(Detached(before, a), pruned, a)
    ensures b in pruned && pruned[b] == before[b] && Zero in pruned && pruned[Zero].forks == before[Zero].forks - {a}
    ensures pruned.Keys <= before.Keys && pruned[Zero].length == before[Zero].length
    ensures forall k | k in pruned && k != Zero :: pruned[k] == before[k]
    ensures forall k | k in before && k !in pruned :: Below(before, a, k)
    ensures forall d: Hash | d.Digest? && d != a && Depth(d) == Depth(a) :: Intact(before, pruned, d)
  {
    var removed := Detached(before, a);
    DetachedIntact(before, a, a);
    CutBelow(removed, pruned, a, b);
    forall k | k in before && k !in pruned ensures Below(before, a, k) { IntactBelow(before, removed, a, k); }
    forall d: Hash | d.Digest? && d != a && Depth(d) == Depth(a) ensures Intact(before, pruned, d) {
      DetachedIntact(before, a, d);
      CutIntact(removed, pruned, a, d);
      IntactTwice(before, removed, pruned, d);
    }
  }

  /** Pruning failed, or found the orphan invalid. */
  lemma NotAttached(before: Chains, pruned: Chains, b: Hash, a: Hash, c: Claims, after: Claims, ok: bool)
    requires Shape(before) && Shape(pruned) && b in before && b.Digest? && a in before && a.Digest? && a.prev == b
    requires Pruned(Detached(before, a), pruned, a, c, after, ok, false)
    ensures Adopted(before, pruned, b, a, c, after, ok) && (ok ==> Risen(before, pruned, a, 0, Zero))
  {
    hide Whole, Tree, Clear, Intact, Cut, Below, BranchesWhole;
    CutOf(Detached(before, a), pruned, a, c, after, ok, false);
    PrunedOthers(before, pruned, b, a);
    DetachedSame(before, a, c);
    PrunedMeaning(Detached(before, a), pruned, a, c, after, ok, false);
    if Whole(before, a) { WholeIsOpen(before, a); }
  }

  lemma WholeIsOpen(chains: Chains, h: Hash)
    requires Shape(chains) && h in chains && h.Digest? && Whole(chains, h)
    ensures chains[h].forks <= chains.Keys
  {
    forall m | m in chains[h].forks ensures m in chains {
      if m !in chains { MissingFork(chains, h, m); }
    }
  }

  lemma DetachedSame(before: Chains, a: Hash, c: Claims)
    requires Shape(before) && a in before && a.Digest?
    ensures var removed := Detached(before, a);
            && Tree(removed, a) == Tree(before, a) && (Whole(removed, a) <==> Whole(before, a))
            && (BranchesWhole(removed, a) <==> BranchesWhole(before, a))
            && removed.Keys == before.Keys && removed[a] == before[a]
  {
    hide Whole, Tree, Intact;
    var removed := Detached(before, a);
    DetachedIntact(before, a, a);
    IntactTree(before, removed, a);
    forall d | d in before[a].forks ensures Whole(removed, d) <==> Whole(before, d) {
      DetachedIntact(before, a, d);
      IntactTree(before, removed, d);
    }
  }

  /** The outcome of pruning in the terms of `Fine`. */
  lemma PrunedMeaning(before: Chains, now: Chains, a: Hash, c: Claims, after: Claims, ok: bool, valid: bool)
    requires a in before && a.Digest? && Pruned(before, now, a, c, after, ok, valid)
    ensures Goes(c, a) ==> (ok <==> Fine(before, c, a)) && !valid && (ok ==> a !in now)
    ensures !Goes(c, a) && !OwnClear(a, c) ==> !ok && !Fine(before, c, a)
    ensures !Goes(c, a) && Fine(before, c, a) ==> ok && now == before && Whole(now, a)
    ensures !Goes(c, a) && ok && Whole(now, a) ==>
              Fine(before, c, a) && now == before && after == With(c, Names(Tree(before, a)))
  {
    assert a in Tree(before, a) && {a} <= Tree(before, a);
    if c.None? && !OwnClear(a, c) {
      OwnClearIff(a, c);
      if Clear(Tree(before, a), c) { ClearPart({a}, Tree(before, a), c); }
    }
  }

  /** The pruned orphan was attached and measured. */
  lemma WasAttached(before: Chains, pruned: Chains, now: Chains, b: Hash, a: Hash, c: Claims, after: Claims,
                    ok: bool, len: int, high: Hash)
    requires Shape(before) && Shape(pruned) && b in before && b.Digest? && a in before && a.Digest? && a.prev == b
    requires Pruned(Detached(before, a), pruned, a, c, after, true, true) && a in pruned && b in pruned
    requires Remeasured(Attached(pruned, b, a), now, a, ok, len, high)
    ensures Adopted(before, now, b, a, c, after, ok) && (ok ==> Risen(before, now, a, len, high))
    ensures ok ==> pruned == Detached(before, a) && !Goes(c, a)
  {
    hide Whole, Tree, Clear, Intact, Cut, Below, BranchesWhole, Leveled, Tallest;
    PrunedOthers(before, pruned, b, a);
    DetachedSame(before, a, c);
    PrunedMeaning(Detached(before, a), pruned, a, c, after, true, true);
    AttachedWhole(pruned, b, a);
    AttachedOthers(before, pruned, now, b, a);
    if ok { AttachedLevels(before, now, b, a); }
  }

  lemma AttachedWhole(chains: Chains, b: Hash, a: Hash)
    requires Shape(chains) && b in chains && a in chains && a.Digest? && b.Digest? && a.prev == b
    ensures Whole(Attached(chains, b, a), a) <==> Whole(chains, a)
    ensures Tree(Attached(chains, b, a), a) == Tree(chains, a)
    ensures Attached(chains, b, a).Keys == chains.Keys
  {
    AttachedIntact(chains, b, a, a);
    IntactTree(chains, Attached(chains, b, a), a);
  }

  /** Measuring after an orphan was attached with nothing deleted. */
  lemma AttachedLevels(before: Chains, now: Chains, b: Hash, a: Hash)
    requires Shape(before) && b in before && b.Digest? && a in before && a.Digest? && a.prev == b
    requires var placed := Attached(Detached(before, a), b, a);
             SameForks(placed, now) && a.prev in placed && Leveled(placed, now, Tree(placed, a), Level(placed, a))
    ensures Tree(Attached(Detached(before, a), b, a), a) == Tree(before, a) && Intact(before, now, a)
    ensures Leveled(before, now, Tree(before, a), before[b].length - Depth(b))
    ensures now[b].length == before[b].length
  {
    hide Tree, Intact;
    AttachedTree(before, now, b, a);
    var placed := Attached(Detached(before, a), b, a);
    NotBelow(before, a, b);
    RootInTree(before, a);
    assert b !in Tree(before, a) by { InTreeBelow(before, a, b); }
    assert Depth(a) == Depth(b) + 1 && placed[b].length == before[b].length;
  }

  lemma InTreeBelow(chains: Chains, h: Hash, k: Hash)
    ensures k in Tree(chains, h) ==> Below(chains, h, k)
  {}

  lemma AttachedTree(before: Chains, now: Chains, b: Hash, a: Hash)
    requires Shape(before) && b in before && b.Digest? && a in before && a.Digest? && a.prev == b
    requires SameForks(Attached(Detached(before, a), b, a), now)
    ensures Tree(Attached(Detached(before, a), b, a), a) == Tree(before, a) && Intact(before, now, a)
  {
    hide Intact, Tree;
    var removed := Detached(before, a);
    var placed := Attached(removed, b, a);
    DetachedIntact(before, a, a);
    AttachedIntact(removed, b, a, a);
    IntactTwice(before, removed, placed, a);
    SameIntact(placed, now, a);
    IntactTwice(before, placed, now, a);
    IntactTree(before, placed, a);
  }

  lemma SameIntact(before: Chains, now: Chains, a: Hash)
    requires SameForks(before, now)
    ensures Intact(before, now, a)
  {}

  lemma AttachedOthers(before: Chains, pruned: Chains, now: Chains, b: Hash, a: Hash)
    requires Shape(pruned) && b in pruned && a in pruned && a.Digest? && b.Digest? && a.prev == b
    requires SameForks(Attached(pruned, b, a), now)
    requires forall d: Hash | d.Digest? && d != a && Depth(d) == Depth(a) :: Intact(before, pruned, d)
    ensures now.Keys == pruned.Keys && now[Zero].forks == pruned[Zero].forks
    ensures now[b].forks == pruned[b].forks + {a}
    ensures forall k | k in now && k != Zero && k != b :: now[k].forks == pruned[k].forks
    ensures forall d: Hash | d.Digest? && d != a && Depth(d) == Depth(a) :: Intact(before, now, d)
  {
    var attached := Attached(pruned, b, a);
    assert attached.Keys == pruned.Keys;
    forall d: Hash | d.Digest? && d != a && Depth(d) == Depth(a) ensures Intact(before, now, d) {
      AttachedIntact(pruned, b, a, d);
      assert Intact(attached, now, d);
      IntactTwice(before, pruned, attached, d);
      IntactTwice(before, attached, now, d);
    }
  }

  /** `a` is an orphan that waits for `b` and was not adopted yet. */
  ghost predicate Waits(blocks: set<Hash>, b: Hash, done: set<Hash>, before: Chains, a: Hash) {
    && b.Digest? && Blocks(blocks) && b !in blocks
    && a in Kids(blocks, b) && a !in done && a != b
    && Adopting(blocks, b, done, before)
  }

  /** An orphan attached below a tidy tree. */
  lemma AttachedTidy(blocks: set<Hash>, b: Hash, done: set<Hash>, before: Chains, a: Hash)
    requires Waits(blocks, b, done, before, a)
    ensures var placed := Attached(Detached(before, a), b, a);
            placed.Keys == before.Keys && Tidy(placed, a)
  {
    var placed := Attached(Detached(before, a), b, a);
    assert placed.Keys == before.Keys;
    forall k | k in placed && InSub(placed.Keys, a, k) ensures placed[k].forks == Kids(placed.Keys, k) {
      AdoptingBelow(blocks, b, done, before, a, k);
      SubDeeper(placed.Keys, a, k);
      assert Depth(k) > Depth(b);
    }
  }

  lemma PrunedValid(before: Chains, now: Chains, h: Hash, c: Claims, after: Claims, ok: bool, valid: bool)
    requires h in before && h.Digest? && Pruned(before, now, h, c, after, ok, valid)
    ensures valid ==> ok && h in now
  {}

  lemma CutOf(before: Chains, now: Chains, h: Hash, c: Claims, after: Claims, ok: bool, valid: bool)
    requires h in before && h.Digest? && Pruned(before, now, h, c, after, ok, valid)
    ensures Cut(before, now, h)
  {}

  lemma AttachedBound(before: Chains, pruned: Chains, b: Hash, a: Hash, bound: nat)
    requires DepthBound(before.Keys, bound) && Zero in before && a.Digest? && Cut(Detached(before, a), pruned, a)
    requires a in pruned && b in pruned && a != b
    ensures DepthBound(Attached(pruned, b, a).Keys, bound)
  {
    assert Attached(pruned, b, a).Keys == pruned.Keys;
    assert pruned.Keys <= Detached(before, a).Keys;
    assert Detached(before, a).Keys == before.Keys + {Zero};
  }

  lemma AdoptedMeasured(blocks: set<Hash>, b: Hash, done: set<Hash>, before: Chains, now: Chains, a: Hash, len: int,
                        high: Hash)
    requires Waits(blocks, b, done, before, a)
    requires var placed := Attached(Detached(before, a), b, a);
             Shape(placed) && Remeasured(placed, now, a, true, len, high)
    ensures Adopting(blocks, b, done + {a}, now)
  {
    hide Tree, Whole, Shape, Tallest, Adopting;
    WaitsReady(blocks, b, done, before, a);
    var placed := Attached(Detached(before, a), b, a);
    AttachedTidy(blocks, b, done, before, a);
    TidyTree(placed, a);
    AttachedSub(before, now, b, a);
    AdoptStep(blocks, b, done, a, before, now);
  }

  lemma WaitsReady(blocks: set<Hash>, b: Hash, done: set<Hash>, before: Chains, a: Hash)
    requires Waits(blocks, b, done, before, a)
    ensures b in before && Zero in before && a in before && b != Zero && a.Digest? && a.prev == b
    ensures before[b].forks == done
  {}

  /** The changes to the table when the tree through forks is the one through parents. */
  lemma AttachedSub(before: Chains, now: Chains, b: Hash, a: Hash)
    requires Zero in before && b in before && a in before && a.Digest? && a.prev == b && b != Zero
    requires var placed := Attached(Detached(before, a), b, a);
             && placed.Keys == before.Keys && a.prev in placed && SameForks(placed, now)
             && Leveled(placed, now, Tree(placed, a), Level(placed, a))
             && forall k | k in placed :: k in Tree(placed, a) <==> InSub(placed.Keys, a, k)
    ensures now.Keys == before.Keys
    ensures now[b].forks == before[b].forks + {a} && now[Zero].forks == before[Zero].forks - {a}
    ensures forall k | k in before && k != b && k != Zero :: now[k].forks == before[k].forks
    ensures forall k | k in before ::
      now[k].length == if InSub(before.Keys, a, k) then before[b].length + 1 + Depth(k) - Depth(a) else before[k].length
  {
    hide Tree;
    assert InSub(before.Keys, a, a);
  }

  /** A waiting orphan of a ledger of blocks lacks none of its forks. */
  lemma WaitsOpen(blocks: set<Hash>, b: Hash, done: set<Hash>, before: Chains, a: Hash)
    requires Waits(blocks, b, done, before, a)
    ensures a in before && Zero in before && a.Digest? && before[a].forks <= before.Keys
  {
    AdoptingBelow(blocks, b, done, before, a, a);
  }

  lemma PrunedOpen(before: Chains, pruned: Chains, a: Hash, c: Claims, after: Claims)
    requires Zero in before && a in before && a.Digest? && before[a].forks <= before.Keys
    requires Pruned(Detached(before, a), pruned, a, c, after, true, false)
    ensures Goes(c, a)
  {}

  lemma SmallerBound(keys: set<Hash>, fewer: set<Hash>, bound: nat)
    requires DepthBound(keys, bound) && fewer <= keys
    ensures DepthBound(fewer, bound)
  {}

  // ---------------------------------------------------------------- adopting all orphans of one block

  /** The forks of genesis in `todo` were not looked at yet; the orphans of `b` among the others were
      adopted in `order`. `c` was claimed before, and `after` is now. */
  datatype Walk = Walk(before: Chains, now: Chains, b: Hash, todo: set<Hash>, order: seq<Hash>, c: Claims,
                       after: Claims)

  function OrphanDone(w: Walk, a: Hash, now: Chains, after: Claims): Walk {
    w.(now := now, todo := w.todo - {a}, order := w.order + [a], after := after)
  }

  /** Those of the adopted orphans that are still there and lack none of their forks. */
  ghost function Joined(before: Chains, now: Chains, adopted: set<Hash>): set<Hash> {
    set a | a in adopted && Joins(before, now, a)
  }

  ghost function TreesOf(chains: Chains, roots: set<Hash>): set<Hash> {
    set a, k | a in roots && k in Tree(chains, a) :: k
  }

  /** An orphan that lacks a fork is still there. */
  ghost predicate GapsStay(before: Chains, now: Chains, adopted: set<Hash>) {
    forall a | a in adopted && a in before && !(before[a].forks <= before.Keys) :: a in now
  }

  ghost predicate Walking(w: Walk) {
    && Shape(w.before) && w.b in w.before && w.b.Digest?
    && Shape(w.now) && w.b in w.now && w.now.Keys <= w.before.Keys && w.now[w.b].length == w.before[w.b].length
    && w.todo <= w.before[Zero].forks && Distinct(w.order)
    && (w.order == [] ==> w.now == w.before && w.after == w.c)
    && (forall x | x in w.order :: x in Waiting(w.before, w.b) && x !in w.todo)
    && (forall g | g in Waiting(w.before, w.b) :: g in w.todo || g in w.order)
    && (forall m | m in w.before[Zero].forks && m !in w.before :: m in w.todo)
    && (Rooted(w.before, w.b) && w.before[Zero].forks <= w.before.Keys ==> w.todo <= w.now.Keys)
    && (Settled(w.before, w.b) ==> Determined(w))
    && Rehanging(w) && Undisturbed(w) && Shallow(w.before, w.now, w.b)
  }

  /** What is no deeper than `b` is still there. */
  ghost predicate Shallow(before: Chains, now: Chains, b: Hash) {
    forall k | k in before && Depth(k) <= Depth(b) :: k in now
  }

  /** The trees of the orphans to come and of the adopted ones are as they were. */
  ghost predicate Undisturbed(w: Walk)
    requires Zero in w.before
  {
    && (forall a | a in w.todo && a in Waiting(w.before, w.b) :: Intact(w.before, w.now, a))
    && (forall a | a in Joined(w.before, w.now, SetOf(w.order)) :: Intact(w.before, w.now, a))
  }

  /** What happened to the forks and lengths. */
  ghost predicate Rehanging(w: Walk)
    requires Zero in w.before && w.b in w.before && Zero in w.now && w.b in w.now
  {
    && w.now[Zero].forks == w.before[Zero].forks - SetOf(w.order)
    && w.now[w.b].forks == w.before[w.b].forks + Joined(w.before, w.now, SetOf(w.order))
    && GapsStay(w.before, w.now, SetOf(w.order))
    && (forall k | k in w.now && k in w.before && k != Zero && k != w.b :: w.now[k].forks == w.before[k].forks)
    && Leveled(w.before, w.now, TreesOf(w.before, Joined(w.before, w.now, SetOf(w.order))),
               w.before[w.b].length - Depth(w.b))
  }

  ghost predicate Determined(w: Walk) {
    && AllFine(w.before, w.c, w.order) && w.after == ClaimsAfter(w.before, w.c, w.order)
    && w.now.Keys == w.before.Keys - Gone(w.before, w.c, w.order)
  }

  /** The forks after adopting: `b` has got the orphans that are still there and lack none of their
      forks; an orphan that lacks one is still there, but neither an orphan nor a fork any more. All
      other forks stay. */
  ghost predicate Rehung(before: Chains, now: Chains, b: Hash)
    requires Zero in before && b in before && Zero in now && b in now
  {
    && now[Zero].forks == before[Zero].forks - Waiting(before, b)
    && now[b].forks == before[b].forks + Joined(before, now, Waiting(before, b))
    && GapsStay(before, now, Waiting(before, b))
    && (forall k | k in now && k != Zero && k != b && k in before :: now[k].forks == before[k].forks)
  }

  /** Whatever is below the new block `b` is as long as its depth below `b` says; no other length has changed. */
  ghost predicate Relengthened(before: Chains, now: Chains, b: Hash)
    requires b in before
  {
    Leveled(before, now, Tree(now, b), before[b].length - Depth(b))
  }

  /** The only orphan that waits lacks one of its forks, and nothing else is wrong with it. */
  ghost predicate LoneGap(before: Chains, b: Hash, a: Hash, c: Claims)
    requires Zero in before
  {
    && Rooted(before, b) && before[Zero].forks <= before.Keys && Waiting(before, b) == {a}
    && a in before && a.Digest? && !(before[a].forks <= before.Keys)
    && c.Some? && OwnClear(a, c) && BranchesWhole(before, a)
  }

  /** Adopting works exactly when every adopted orphan is fine at its turn; the deleted trees are
      those of the orphans that go. It never works with a missing fork of genesis. */
  ghost predicate Walked(before: Chains, now: Chains, b: Hash, order: seq<Hash>, c: Claims, ok: bool)
    requires Zero in before && b in before
  {
    && Shape(now) && b in now && now.Keys <= before.Keys
    && (ok && before[b].forks == {} ==> Relengthened(before, now, b) && now[b].length == before[b].length)
    && (ok ==> before[Zero].forks <= before.Keys)
    && (Settled(before, b) ==> (ok <==> AllFine(before, c, order)))
    && Distinct(order) && (forall x | x in order :: x in Waiting(before, b))
    && (ok ==> SetOf(order) == Waiting(before, b))
    && (Settled(before, b) && ok ==> now.Keys == before.Keys - Gone(before, c, order))
    && (ok && Rooted(before, b) ==> Rooted(now, Zero))
    && (ok ==> Rehung(before, now, b) && Shallow(before, now, b) && (order == [] ==> now == before))
    && (forall a :: LoneGap(before, b, a, c) ==> ok)
  }

  lemma WalkStarts(before: Chains, b: Hash, c: Claims)
    requires Shape(before) && b in before && b.Digest?
    ensures Walking(Walk(before, before, b, before[Zero].forks, [], c, c))
  {
    hide Whole, Tree;
  }

  lemma WalkSkips(w: Walk, g: Hash)
    requires Walking(w) && g in w.todo && g in w.now && g !in Waiting(w.before, w.b)
    ensures Walking(w.(todo := w.todo - {g}))
  {
    hide Joined, GapsStay, AllFine, Intact, Distinct, SetOf;
  }

  lemma WalkMisses(w: Walk, g: Hash)
    requires Walking(w) && g in w.todo && g !in w.now
    ensures Walked(w.before, w.now, w.b, w.order, w.c, false)
  {
    hide Joined, GapsStay, AllFine, Intact, Distinct, SetOf;
  }

  lemma WalkReady(w: Walk, g: Hash)
    requires Walking(w) && g in w.todo
    ensures Shape(w.now) && w.b in w.now && w.now.Keys <= w.before.Keys && g.Digest?
    ensures g in Waiting(w.before, w.b) <==> g.prev == w.b
  {
    hide Determined, Settled, Distinct, SetOf, Shape, Waiting, Rehanging;
    ForkWaits(w.before, w.b, g);
  }

  lemma ForkWaits(chains: Chains, b: Hash, g: Hash)
    requires Shape(chains) && g in chains[Zero].forks
    ensures g.Digest? && (g in Waiting(chains, b) <==> g.prev == b)
  {}

  /** The orphan and its tree are as they were at the beginning. */
  lemma WalkTurn(w: Walk, a: Hash)
    requires Walking(w) && a in w.todo && a in Waiting(w.before, w.b) && a in w.now
    ensures a in w.before && w.now[a].forks == w.before[a].forks && Tree(w.now, a) == Tree(w.before, a)
    ensures w.now[a].forks <= w.now.Keys <==> w.before[a].forks <= w.before.Keys
    ensures forall c :: Fine(w.now, c, a) <==> Fine(w.before, c, a)
  {
    hide Whole, Tree, Clear, Joined, GapsStay, Determined;
    IntactTree(w.before, w.now, a);
    if w.before[a].forks <= w.before.Keys { IntactOpen(w.before, w.now, a); }
  }

  lemma WalkFails(w: Walk, a: Hash, now: Chains, after: Claims)
    requires Walking(w) && a in w.todo && a in Waiting(w.before, w.b) && a in w.now
    requires Adopted(w.now, now, w.b, a, w.after, after, false)
    ensures Walked(w.before, now, w.b, w.order + [a], w.c, false)
  {
    hide Whole, Tree, Clear, Intact, Rooted, Fine, Joined, GapsStay, BranchesWhole;
    OneMore(w.before, w.c, w.order, a);
    WalkTurn(w, a);
    NoneBefore(w, a);
  }

  /** The only waiting orphan is looked at first. */
  lemma NoneBefore(w: Walk, a: Hash)
    requires Walking(w) && a in w.todo
    ensures Waiting(w.before, w.b) == {a} ==> w.order == []
  {
    hide Rehanging, Determined, Settled;
    if w.order != [] { assert w.order[0] in w.order; }
  }

  lemma WalkAdopts(w: Walk, a: Hash, now: Chains, after: Claims)
    requires Walking(w) && a in w.todo && a in Waiting(w.before, w.b) && a in w.now
    requires Adopted(w.now, now, w.b, a, w.after, after, true)
    ensures Walking(OrphanDone(w, a, now, after))
  {
    hide Settled, Determined, Rehanging, Undisturbed, Shallow, Below, Intact, Fine, Tree, Rooted, Leveled;
    assert SetOf(w.order + [a]) == SetOf(w.order) + {a};
    WalkRehangs(w, a, now, after);
    WalkUndisturbed(w, a, now, after);
    WalkShallow(w, a, now, after);
    if Rooted(w.before, w.b) && w.before[Zero].forks <= w.before.Keys { WalkKeeps(w, a, now, after); }
    if Settled(w.before, w.b) { WalkDetermined(w, a, now, after); }
  }

  lemma WalkShallow(w: Walk, a: Hash, now: Chains, after: Claims)
    requires Walking(w) && a in w.todo && a in Waiting(w.before, w.b) && a in w.now
    requires Adopted(w.now, now, w.b, a, w.after, after, true)
    ensures Shallow(w.before, now, w.b)
  {
    hide Settled, Determined, Rehanging, Undisturbed, Below, Intact, Fine, Tree, Rooted, Leveled;
    forall k | k in w.now && Depth(k) <= Depth(w.b) ensures k in now { NotBelow(w.now, a, k); }
  }

  lemma WalkKeeps(w: Walk, a: Hash, now: Chains, after: Claims)
    requires Walking(w) && a in w.todo && a in Waiting(w.before, w.b) && a in w.now
    requires Adopted(w.now, now, w.b, a, w.after, after, true)
    requires Rooted(w.before, w.b) && w.before[Zero].forks <= w.before.Keys
    ensures w.todo - {a} <= now.Keys
  {
    hide Whole, Tree, Clear, Fine, Below, Intact, Rehanging, Determined, Rooted;
    forall g | g in w.todo - {a} ensures g in now {
      if g !in now { RootedNotBelow(w.before, w.now, w.b, a, g); }
    }
  }

  lemma WalkRehangs(w: Walk, a: Hash, now: Chains, after: Claims)
    requires Walking(w) && a in w.todo && a in Waiting(w.before, w.b) && a in w.now
    requires Adopted(w.now, now, w.b, a, w.after, after, true)
    ensures Rehanging(OrphanDone(w, a, now, after))
  {
    hide Whole, Tree, Clear, Fine, Below, Intact, Determined, Settled, Rooted, GapsStay, Joined, Distinct, Goes,
         Leveled, TreesOf, Joins, Undisturbed;
    JoinedNow(w, a, now, after);
    WalkLevels(w, a, now, after);
  }

  lemma WalkUndisturbed(w: Walk, a: Hash, now: Chains, after: Claims)
    requires Walking(w) && a in w.todo && a in Waiting(w.before, w.b) && a in w.now
    requires Adopted(w.now, now, w.b, a, w.after, after, true)
    ensures Undisturbed(OrphanDone(w, a, now, after))
  {
    hide Whole, Tree, Clear, Fine, Below, Intact, Determined, Settled, Rooted, GapsStay, Joined, Distinct, Goes,
         Leveled, TreesOf, Joins, Rehanging;
    JoinedNow(w, a, now, after);
    OthersIntact(w, a, now, after);
    forall d | d in Waiting(w.before, w.b)
               && (d in w.todo - {a} || d in Joined(w.before, now, SetOf(w.order) + {a}))
      ensures Intact(w.before, now, d)
    {
      IntactTwice(w.before, w.now, now, d);
    }
  }

  lemma JoinedNow(w: Walk, a: Hash, now: Chains, after: Claims)
    requires Walking(w) && a in w.todo && a in Waiting(w.before, w.b) && a in w.now
    requires Adopted(w.now, now, w.b, a, w.after, after, true)
    ensures SetOf(w.order + [a]) == SetOf(w.order) + {a} && GapsStay(w.before, now, SetOf(w.order) + {a})
    ensures Joined(w.before, now, SetOf(w.order) + {a})
            == Joined(w.before, w.now, SetOf(w.order)) + (if Joins(w.now, now, a) then {a} else {})
    ensures forall d | d in Joined(w.before, now, SetOf(w.order) + {a}) ::
              d in Waiting(w.before, w.b)
              && if d == a then Joins(w.now, now, a) else d in Joined(w.before, w.now, SetOf(w.order))
  {
    hide Whole, Tree, Clear, Fine, Below, Intact, Determined, Settled, Rooted, GapsStay, Distinct, Goes, Leveled;
    WalkTurn(w, a);
    OthersIntact(w, a, now, after);
    JoinedMore(w.before, w.now, now, SetOf(w.order), a);
  }

  lemma WalkLevels(w: Walk, a: Hash, now: Chains, after: Claims)
    requires Walking(w) && a in w.todo && a in Waiting(w.before, w.b) && a in w.now
    requires Adopted(w.now, now, w.b, a, w.after, after, true)
    requires Joined(w.before, now, SetOf(w.order) + {a})
             == Joined(w.before, w.now, SetOf(w.order)) + (if Joins(w.now, now, a) then {a} else {})
    ensures Leveled(w.before, now, TreesOf(w.before, Joined(w.before, now, SetOf(w.order) + {a})),
                    w.before[w.b].length - Depth(w.b))
  {
    hide Whole, Tree, Clear, Fine, Below, Intact, Determined, Settled, Rooted, GapsStay, Joined, Distinct, Goes,
         Leveled, Joins, Shape, Waiting;
    var level, joined := w.before[w.b].length - Depth(w.b), Joined(w.before, w.now, SetOf(w.order));
    WalkTurn(w, a);
    LeveledTwice(w.before, w.now, now, TreesOf(w.before, joined), JoinedTree(w.now, now, a), level);
    assert TreesOf(w.before, joined + {a}) == TreesOf(w.before, joined) + Tree(w.before, a);
    assert TreesOf(w.before, joined) + {} == TreesOf(w.before, joined) && joined + {} == joined;
  }

  lemma OthersIntact(w: Walk, a: Hash, now: Chains, after: Claims)
    requires Walking(w) && a in w.todo && a in Waiting(w.before, w.b) && a in w.now
    requires Adopted(w.now, now, w.b, a, w.after, after, true)
    ensures forall d | d in Waiting(w.before, w.b) && d != a :: Intact(w.now, now, d) && (d in now <==> d in w.now)
  {
    hide Whole, Tree, Clear, Fine, Below, Intact, Determined, Settled, Rooted, Rehanging;
    forall d | d in Waiting(w.before, w.b) && d != a ensures Intact(w.now, now, d) && (d in now <==> d in w.now) {
      assert Depth(d) == Depth(a);
      IntactTree(w.now, now, d);
    }
  }

  lemma JoinedMore(before: Chains, mid: Chains, now: Chains, done: set<Hash>, a: Hash)
    requires GapsStay(before, mid, done) && a in before && a !in done
    requires forall d | d in done :: d in now <==> d in mid
    requires !(before[a].forks <= before.Keys) ==> a in now
    ensures Joined(before, now, done + {a})
            == Joined(before, mid, done) + (if a in now && before[a].forks <= before.Keys then {a} else {})
    ensures GapsStay(before, now, done + {a})
  {}

  lemma WalkDetermined(w: Walk, a: Hash, now: Chains, after: Claims)
    requires Walking(w) && a in w.todo && a in Waiting(w.before, w.b) && a in w.now && Settled(w.before, w.b)
    requires Adopted(w.now, now, w.b, a, w.after, after, true)
    ensures Determined(OrphanDone(w, a, now, after))
  {
    hide Whole, Tree, Clear, Fine, Below, Intact, Joined, GapsStay;
    OneMore(w.before, w.c, w.order, a);
    WalkTurn(w, a);
  }

  lemma WalkEnds(w: Walk)
    requires Walking(w) && w.todo == {}
    ensures Walked(w.before, w.now, w.b, w.order, w.c, true)
  {
    hide Whole, Tree, Clear, Fine, Joined, GapsStay, Intact, TreesOf, Relengthened;
    assert SetOf(w.order) == Waiting(w.before, w.b);
    if Rooted(w.before, w.b) {
      forall g | g in w.now[Zero].forks ensures g.Digest? && (g.prev == Zero || g.prev !in w.now) {
        assert g in w.before[Zero].forks && g !in Waiting(w.before, w.b);
      }
    }
    if w.before[w.b].forks == {} { WalkRelengthens(w); }
  }

  lemma WalkRelengthens(w: Walk)
    requires Walking(w) && w.before[w.b].forks == {}
    ensures Relengthened(w.before, w.now, w.b)
    ensures Tree(w.now, w.b) == {w.b} + TreesOf(w.before, Joined(w.before, w.now, SetOf(w.order)))
  {
    hide Whole, Tree, Clear, Fine, GapsStay, Intact, TreesOf, Determined, Settled;
    NewTree(w.before, w.now, w.b, Joined(w.before, w.now, SetOf(w.order)));
  }

  /** The tree of a block with new forks. */
  lemma NewTree(before: Chains, now: Chains, b: Hash, joined: set<Hash>)
    requires Shape(now) && b in now && b.Digest? && now[b].forks == joined
    requires forall a | a in joined :: Intact(before, now, a)
    ensures Tree(now, b) == {b} + TreesOf(before, joined)
  {
    hide Intact, Below;
    forall a | a in joined ensures Tree(now, a) == Tree(before, a) { IntactTree(before, now, a); }
    forall k ensures k in Tree(now, b) <==> k in {b} + TreesOf(before, joined) {
      if k in Tree(now, b) && k != b {
        var a := BelowThroughKid(now, b, k);
        assert a in joined && k in Tree(before, a);
      }
      if a :| a in joined && k in Tree(before, a) {
        BelowKid(now, b, a, k);
        BelowInTree(now, b, k);
      }
      RootInTree(now, b);
    }
  }

  lemma RootInTree(chains: Chains, h: Hash)
    ensures h in Tree(chains, h)
  {}

  lemma BelowInTree(chains: Chains, h: Hash, k: Hash)
    requires Below(chains, h, k)
    ensures k in Tree(chains, h)
  {}

  /** The best of all adopted trees so far, or a length of 0 while there is none. */
  ghost predicate BestOf(w: Walk, maxLen: int, highest: Hash) {
    var joined := Joined(w.before, w.now, SetOf(w.order));
    if joined == {} then maxLen == 0
    else maxLen > 0 && highest.Digest? && Tallest(w.now, TreesOf(w.before, joined), maxLen, highest)
  }

  lemma BestStarts(before: Chains, b: Hash, todo: set<Hash>, c: Claims)
    ensures BestOf(Walk(before, before, b, todo, [], c, c), 0, Zero)
  {
    assert SetOf([]) == {};
  }

  lemma BestSkips(w: Walk, g: Hash, maxLen: int, highest: Hash)
    requires BestOf(w, maxLen, highest)
    ensures BestOf(w.(todo := w.todo - {g}), maxLen, highest)
  {}

  /** One more orphan was looked at. */
  lemma BestStep(w: Walk, a: Hash, now: Chains, after: Claims, maxLen: int, highest: Hash, len: int, high: Hash)
    requires Walking(w) && a in w.todo && a in Waiting(w.before, w.b) && a in w.now && BestOf(w, maxLen, highest)
    requires Adopted(w.now, now, w.b, a, w.after, after, true) && Risen(w.now, now, a, len, high)
    ensures BestOf(OrphanDone(w, a, now, after),
                   if len > maxLen then len else maxLen, if len > maxLen then high else highest)
  {
    hide Tree, Tallest, TreesOf, Joined, Rehanging, Determined, Settled, Adopted, Leveled, Waiting, Joins, Distinct;
    var joined, level := Joined(w.before, w.now, SetOf(w.order)), w.before[w.b].length - Depth(w.b);
    JoinedNow(w, a, now, after);
    BestReady(w, a, now, after, level);
    if joined != {} {
      BestStays(w, a, now, after, maxLen, highest);
      if Joins(w.now, now, a) {
        TallestOfBoth(w.now, now, TreesOf(w.before, joined), Tree(w.now, a), level, maxLen, highest, len, high);
      }
    }
  }

  lemma BestReady(w: Walk, a: Hash, now: Chains, after: Claims, level: int)
    requires Walking(w) && a in w.todo && a in Waiting(w.before, w.b) && a in w.now
    requires Adopted(w.now, now, w.b, a, w.after, after, true) && level == w.before[w.b].length - Depth(w.b)
    ensures Leveled(w.now, now, JoinedTree(w.now, now, a), level)
    ensures var joined := Joined(w.before, w.now, SetOf(w.order));
            && TreesOf(w.before, joined + {a}) == TreesOf(w.before, joined) + Tree(w.now, a)
            && TreesOf(w.before, {} + {a}) == Tree(w.now, a)
            && TreesOf(w.before, joined) !! Tree(w.now, a) && joined + {} == joined
  {
    hide Whole, Tree, Clear, Fine, Below, Intact, Determined, Settled, Rooted, GapsStay, Distinct, Goes, Leveled;
    WalkTurn(w, a);
    forall d | d in Joined(w.before, w.now, SetOf(w.order)) ensures Tree(w.before, d) !! Tree(w.before, a) {
      assert d in SetOf(w.order) && d in Waiting(w.before, w.b) && Depth(d) == Depth(a) && d != a;
      TreesSeparate(w.before, d, a);
    }
  }

  lemma TreesSeparate(chains: Chains, c: Hash, d: Hash)
    requires Depth(c) == Depth(d) && c != d
    ensures Tree(chains, c) !! Tree(chains, d)
  {
    forall k | k in Tree(chains, c) ensures k !in Tree(chains, d) {
      if k in Tree(chains, d) { SameDepth(Linked(chains), Linked(chains), c, d, k); }
    }
  }

  /** The best so far is not touched by the next orphan. */
  lemma BestStays(w: Walk, a: Hash, now: Chains, after: Claims, maxLen: int, highest: Hash)
    requires Walking(w) && a in w.todo && a in Waiting(w.before, w.b) && a in w.now
    requires Adopted(w.now, now, w.b, a, w.after, after, true)
    requires Tallest(w.now, TreesOf(w.before, Joined(w.before, w.now, SetOf(w.order))), maxLen, highest)
    ensures highest in now
    ensures !Joins(w.now, now, a) ==>
              Tallest(now, TreesOf(w.before, Joined(w.before, w.now, SetOf(w.order))), maxLen, highest)
  {
    hide Whole, Clear, Fine, Below, Intact, Determined, Settled, Rooted, GapsStay, Distinct, Goes;
    var d :| d in Joined(w.before, w.now, SetOf(w.order)) && highest in Tree(w.before, d);
    assert d in Waiting(w.before, w.b) && d != a;
    OthersIntact(w, a, now, after);
    IntactTwice(w.before, w.now, now, d);
    StaysBelow(w.before, w.now, now, d, highest);
  }

  lemma StaysBelow(before: Chains, mid: Chains, now: Chains, d: Hash, k: Hash)
    requires Intact(before, mid, d) && Intact(mid, now, d) && k in Tree(before, d) && k in mid
    ensures k in now
  {
    IntactBelow(before, mid, d, k);
  }

  // ---------------------------------------------------------------- the same for a ledger of blocks

  /** `chains` is the ledger of the blocks with `b` placed in it. */
  ghost predicate Ready(blocks: set<Hash>, b: Hash, chains: Chains) {
    b.Digest? && Blocks(blocks) && b !in blocks && Adopting(blocks, b, {}, chains)
  }

  lemma ReadyWaiting(blocks: set<Hash>, b: Hash, chains: Chains)
    requires Ready(blocks, b, chains)
    ensures Zero in chains && Waiting(chains, b) == Kids(blocks, b)
  {
    ForksAdded(blocks, b, Zero);
    assert b.prev != b by { assert Depth(b.prev) < Depth(b); }
  }

  lemma ReadySettled(blocks: set<Hash>, b: Hash, chains: Chains)
    requires Ready(blocks, b, chains)
    ensures Settled(chains, b)
  {
    ReadyWaiting(blocks, b, chains);
    forall a | a in Waiting(chains, b) ensures chains[a].forks <= chains.Keys {
      AdoptingBelow(blocks, b, {}, chains, a, a);
    }
  }

  /** As long as no tree went, the ledger is the one with the orphans of `order` adopted. */
  ghost predicate Climbed(blocks: set<Hash>, b: Hash, before: Chains, now: Chains, order: seq<Hash>, c: Claims) {
    Ready(blocks, b, before) && NoneGoes(before, c, order) ==> Adopting(blocks, b, SetOf(order), now)
  }

  lemma ClimbStarts(blocks: set<Hash>, b: Hash, before: Chains, c: Claims)
    ensures Climbed(blocks, b, before, before, [], c)
  {
    assert SetOf([]) == {};
  }

  lemma ClimbStep(blocks: set<Hash>, w: Walk, a: Hash, now: Chains)
    requires Walking(w) && a in w.todo && a in Waiting(w.before, w.b)
    requires Climbed(blocks, w.b, w.before, w.now, w.order, w.c)
    requires Waits(blocks, w.b, SetOf(w.order), w.now, a) && !Goes(w.after, a) ==>
               Adopting(blocks, w.b, SetOf(w.order) + {a}, now)
    ensures Climbed(blocks, w.b, w.before, now, w.order + [a], w.c)
  {
    hide Rehanging, Tree, Whole, Intact, Adopting;
    OneMore(w.before, w.c, w.order, a);
    assert SetOf(w.order + [a]) == SetOf(w.order) + {a};
    if Ready(blocks, w.b, w.before) && NoneGoes(w.before, w.c, w.order + [a]) {
      ReadySettled(blocks, w.b, w.before);
      ReadyWaiting(blocks, w.b, w.before);
      assert a != w.b by { assert Depth(w.b) < Depth(a); }
      assert Waits(blocks, w.b, SetOf(w.order), w.now, a);
    }
  }

  /** All orphans adopted and none deleted: the ledger of the blocks with `b`. */
  lemma ClimbEnds(blocks: set<Hash>, b: Hash, before: Chains, now: Chains, order: seq<Hash>, c: Claims)
    requires Climbed(blocks, b, before, now, order, c) && Ready(blocks, b, before) && NoneGoes(before, c, order)
    requires SetOf(order) == Waiting(before, b)
    ensures now == LedgerOf(blocks + {b})
  {
    ReadyWaiting(blocks, b, before);
    AdoptedAll(blocks, b, now);
  }

  /** The head after an insert: the old one, unless something below the new block has become longer; then
      a longest of what is below the new block. */
  ghost predicate Crowned(now: Chains, b: Hash, head: Hash, newHead: Hash)
    requires head in now
  {
    if forall k | k in now && k in Tree(now, b) :: now[k].length <= now[head].length then newHead == head
    else newHead in now && newHead in Tree(now, b)
         && forall k | k in now && k in Tree(now, b) :: now[k].length <= now[newHead].length
  }

  lemma LedgerTidy(blocks: set<Hash>, b: Hash)
    requires Blocks(blocks) && b.Digest? && b in blocks
    ensures Shape(LedgerOf(blocks)) && Tidy(LedgerOf(blocks), b)
  {
    var now := LedgerOf(blocks);
    assert now.Keys == blocks + {Zero};
    forall k | k in now && InSub(now.Keys, b, k) ensures now[k].forks == Kids(now.Keys, k) {
      SubDeeper(now.Keys, b, k);
    }
  }

  /** In the ledger of blocks that is a longest block. */
  lemma NewLongest(blocks: set<Hash>, b: Hash, head: Hash, now: Chains, newHead: Hash)
    requires Blocks(blocks) && b.Digest? && b !in blocks && IsLongest(blocks, head)
    requires now == LedgerOf(blocks + {b}) && head in now && Crowned(now, b, head, newHead)
    ensures IsLongest(blocks + {b}, newHead)
  {
    hide Tree, Length;
    var all := blocks + {b};
    LengthGrows(blocks, b, head);
    OutsideTree(blocks, b);
    LengthsIn(all);
    forall k | k in all ensures Length(all, k) <= Length(all, newHead) {
      if k !in Tree(now, b) { assert Length(all, k) <= Length(blocks, head) <= Length(all, head); }
      assert k in now && now[k].length == Length(all, k);
    }
  }

  lemma LengthsIn(blocks: set<Hash>)
    ensures LedgerOf(blocks).Keys == blocks + {Zero}
    ensures forall k | k in LedgerOf(blocks) :: LedgerOf(blocks)[k].length == Length(blocks, k)
  {}

  lemma OutsideTree(blocks: set<Hash>, b: Hash)
    requires Blocks(blocks) && b.Digest? && b !in blocks
    ensures var all := blocks + {b};
            forall k | k in all && k !in Tree(LedgerOf(all), b) :: k in blocks && Length(all, k) == Length(blocks, k)
  {
    hide Tree;
    var all := blocks + {b};
    LedgerTidy(all, b);
    TidyTree(LedgerOf(all), b);
    LengthsIn(all);
    forall k | k in all && k !in Tree(LedgerOf(all), b) ensures k in blocks && Length(all, k) == Length(blocks, k) {
      InSubWithZero(all, b, k);
      LengthOutsideSub(blocks, b, k);
    }
  }

  // ---------------------------------------------------------------- inserting one block

  /** The branch of `b` claims a name twice, and its parent is present. */
  ghost predicate Refused(chains: Chains, b: Hash)
    requires b.Digest?
  {
    b.prev in chains && !NoDuplicates(BranchNames(chains.Keys, b))
  }

  /** The hash of `b` is among the forks of its parent, or of genesis if that is absent. */
  ghost function Hung(chains: Chains, b: Hash): Chains
    requires Zero in chains && b.Digest?
  {
    var at := if b.prev in chains then b.prev else Zero;
    chains[at := chains[at].(forks := chains[at].forks + {b})]
  }

  /** `b` is placed, and no orphan was looked at yet. */
  ghost function Placed(chains: Chains, b: Hash): Chains
    requires Zero in chains && b.Digest?
  {
    Hung(chains, b)[b := Entry(chains[if b.prev in chains then b.prev else Zero].length + 1, {})]
  }

  /** What the branch of `b` claims; an orphan that repeats a name has no list. */
  ghost function ClaimsAt(chains: Chains, b: Hash): Claims
    requires b.Digest?
  {
    var names := BranchNames(chains.Keys, b);
    if NoDuplicates(names) then Some(Elements(names)) else None
  }

  /** What the branch of `b` decides: it is refused exactly if its parent is present and a block from `b`
      up repeats a name or two of them share one; an orphan with such a branch has no list of names. The
      list holds the names of the branch. */
  lemma RefusedIff(chains: Chains, b: Hash, n: string)
    requires b.Digest?
    ensures Refused(chains, b) <==> b.prev in chains && !BranchClean(chains.Keys, b)
    ensures ClaimsAt(chains, b).Some? <==> BranchClean(chains.Keys, b)
    ensures ClaimsAt(chains, b).Some? ==>
              (n in ClaimsAt(chains, b).value <==> exists x :: Above(chains.Keys, b, x) && ClaimsName(x, n))
  {
    BranchCleanIff(chains.Keys, b);
    BranchNamesIff(chains.Keys, b, n);
  }

  /** No orphan that waits for `b` lacks one of its forks. */
  ghost predicate OrphansOpen(chains: Chains, b: Hash)
    requires Zero in chains
  {
    forall a | a in Waiting(chains, b) && a in chains :: chains[a].forks <= chains.Keys
  }

  /** An accepted block, its orphans adopted in `order`. It never works with a missing fork of genesis.
      Where no waiting orphan lacks a fork, it works exactly when no fork of genesis is missing, every
      orphan is fine at its turn, and the head is not in a deleted tree. When it works, `b` has got the
      orphans that are still there, save those that lack a fork: they are still there below nobody. All
      else below `b` has the length of its depth, and nothing else has changed. */
  ghost predicate Accepted(before: Chains, head: Hash, now: Chains, b: Hash, order: seq<Hash>, ok: bool)
    requires Zero in before && b.Digest?
  {
    var placed, c := Placed(before, b), ClaimsAt(before, b);
    && Zero in placed && b in placed && Zero in now && b in now && Distinct(order)
    && (forall a | a in order :: a in Waiting(placed, b))
    && (ok ==> SetOf(order) == Waiting(placed, b))
    && (!(placed[Zero].forks <= placed.Keys) ==> !ok)
    && (Rooted(before, Zero) && OrphansOpen(placed, b) ==>
          && (ok <==> placed[Zero].forks <= placed.Keys && AllFine(placed, c, order)
                      && head in placed && head !in Gone(placed, c, order))
          && (placed[Zero].forks <= placed.Keys && AllFine(placed, c, order) ==> SetOf(order) == Waiting(placed, b))
          && (ok ==> now.Keys == placed.Keys - Gone(placed, c, order)))
    && (ok ==> Rehung(placed, now, b) && Relengthened(placed, now, b) && (order == [] ==> now == placed))
    && (ok ==> Hangs(now, b, if b.prev in before then b.prev else Zero))
    && (forall a :: LoneGap(placed, b, a, c) ==> (ok <==> head in now) && Rehung(placed, now, b))
  }

  /** `b` is a fork of `at` and one longer. */
  ghost predicate Hangs(now: Chains, b: Hash, at: Hash) {
    at in now && b in now && b in now[at].forks && now[b].length == now[at].length + 1
  }

  lemma StillHangs(before: Chains, now: Chains, b: Hash)
    requires Shape(before) && b.Digest? && b !in before && Zero in now && b in now
    requires var placed := Placed(before, b);
             && Zero in placed && b in placed && Shallow(placed, now, b)
             && Rehung(placed, now, b) && Relengthened(placed, now, b)
    ensures Hangs(now, b, if b.prev in before then b.prev else Zero)
  {
    hide Tree;
    var at := if b.prev in before then b.prev else Zero;
    assert Depth(b.prev) < Depth(b) && b.prev != b;
    NotBelow(now, b, at);
    InTreeBelow(now, b, at);
    RootInTree(now, b);
    PlacedShape(before, b);
  }

  lemma HungShape(chains: Chains, b: Hash)
    requires Shape(chains) && b.Digest?
    ensures Shape(Hung(chains, b)) && Hung(chains, b).Keys == chains.Keys
    ensures Rooted(chains, Zero) && b.prev in chains ==> Rooted(Hung(chains, b), Zero)
  {
    var at := if b.prev in chains then b.prev else Zero;
    ForksReplaced(chains, at, chains[at].forks + {b});
  }

  lemma PlacedShape(chains: Chains, b: Hash)
    requires Shape(chains) && b.Digest? && b !in chains
    ensures var placed := Placed(chains, b);
            Shape(placed) && placed.Keys == chains.Keys + {b} && placed[b].length > 0
  {
    HungShape(chains, b);
    var hung, placed := Hung(chains, b), Placed(chains, b);
    forall h, c | h in placed && c in placed[h].forks ensures c.Digest? && (h != Zero ==> c.prev == h) {
      assert h != b && c in hung[h].forks;
    }
  }

  lemma PlacedRooted(chains: Chains, b: Hash)
    requires Shape(chains) && b.Digest? && b !in chains && Rooted(chains, Zero)
    ensures Rooted(Placed(chains, b), b)
  {
    assert b.prev != b by { assert Depth(b.prev) < Depth(b); }
    assert Placed(chains, b)[Zero].forks
           == chains[Zero].forks + (if b.prev in chains && b.prev != Zero then {} else {b});
  }

  lemma GrownIsAccepted(before: Chains, head: Hash, now: Chains, b: Hash, order: seq<Hash>, fine: bool, ok: bool)
    requires Shape(before) && b.Digest? && b !in before
    requires b in Placed(before, b) && Zero in Placed(before, b)
    requires Walked(Placed(before, b), now, b, order, ClaimsAt(before, b), fine) && (ok <==> fine && head in now)
    ensures Accepted(before, head, now, b, order, ok)
    ensures ok && Rooted(before, Zero) ==> Rooted(now, Zero)
    ensures Shape(now) && now.Keys <= before.Keys + {b}
  {
    hide AllFine, Gone;
    PlacedShape(before, b);
    if Rooted(before, Zero) { PlacedRooted(before, b); }
    if fine { StillHangs(before, now, b); }
  }

  /** Placing a block in the ledger of others. */
  lemma LedgerPlaced(blocks: set<Hash>, b: Hash)
    requires Blocks(blocks) && b.Digest? && b !in blocks
    ensures Ready(blocks, b, Placed(LedgerOf(blocks), b))
    ensures Rooted(LedgerOf(blocks), Zero) && Shape(LedgerOf(blocks))
  {
    var before := LedgerOf(blocks);
    assert Holder(blocks, b) == if b.prev in before then b.prev else Zero;
    PlacedIsAdopting(blocks, b, Placed(before, b));
  }

  lemma WalkedLedger(blocks: set<Hash>, b: Hash, before: Chains, now: Chains, order: seq<Hash>, c: Claims)
    requires Zero in before && b in before && Walked(before, now, b, order, c, true)
    requires Climbed(blocks, b, before, now, order, c) && Ready(blocks, b, before) && NoneGoes(before, c, order)
    ensures now == LedgerOf(blocks + {b})
  {
    ClimbEnds(blocks, b, before, now, order, c);
  }

  /** Either `b` or `highest` is of maximal length among what is below `b`. */
  ghost predicate Best(now: Chains, b: Hash, order: seq<Hash>, maxLen: int, highest: Hash) {
    && b in now && now[b].length > 0 && (maxLen == 0 || highest.Digest?) && (order == [] ==> maxLen == 0)
    && var mine := now[b].length;
    Tallest(now, Tree(now, b), if mine > maxLen then mine else maxLen, if mine > maxLen then b else highest)
  }

  /** The best of the adopted trees or the block itself is the best of all that is below the block. */
  lemma BestBelow(w: Walk, maxLen: int, highest: Hash)
    requires Walking(w) && w.todo == {} && BestOf(w, maxLen, highest)
    requires w.before[w.b].forks == {} && w.before[w.b].length > 0
    ensures Best(w.now, w.b, w.order, maxLen, highest)
  {
    hide Tree, Determined, Settled, Rehanging;
    WalkRelengthens(w);
    var joined := Joined(w.before, w.now, SetOf(w.order));
    assert joined == {} ==> TreesOf(w.before, joined) == {};
    assert w.order == [] ==> joined == {};
  }

  /** Taking over the best exactly if it is longer. */
  lemma BestCrowned(now: Chains, b: Hash, head: Hash, maxLen: int, highest: Hash)
    requires head in now && Tallest(now, Tree(now, b), maxLen, highest)
    ensures Crowned(now, b, head, if maxLen > now[head].length then highest else head)
    ensures maxLen > now[head].length ==> highest != head
  {}

  lemma ReadyBlocks(blocks: set<Hash>, b: Hash, chains: Chains)
    requires Ready(blocks, b, chains)
    ensures Blocks(blocks) && b.Digest? && b !in blocks
  {}

  /** With nothing deleted the head is still there. */
  lemma HeadStays(blocks: set<Hash>, b: Hash, head: Hash, now: Chains, order: seq<Hash>, fine: bool)
    requires Blocks(blocks) && b.Digest? && b !in blocks && IsLongest(blocks, head)
    requires var placed, c := Placed(LedgerOf(blocks), b), ClaimsAt(LedgerOf(blocks), b);
             && Ready(blocks, b, placed) && Zero in placed && b in placed
             && AllFine(placed, c, order) && NoneGoes(placed, c, order) && Walked(placed, now, b, order, c, fine)
    ensures fine && head in now
  {
    var placed, c := Placed(LedgerOf(blocks), b), ClaimsAt(LedgerOf(blocks), b);
    ReadySettled(blocks, b, placed);
    NoneGone(placed, c, order);
  }

  class BlockchainLedger {
    var longestChain: Hash
    var chains: Chains

    constructor ()
      ensures Holds({}) && longestChain == Zero && Shape(chains)
    {
      chains := map[Zero := Entry(0, {})];
      longestChain := Zero;
      new;
      assert Forks({}, Zero) == {};
      assert chains == LedgerOf({});
    }

    /** Set the length of `h` from its parent and re-measure everything below: this works exactly
        when the parent is present and nothing below is missing. */
    method RecursiveUpdateLength(h: Hash, ghost bound: nat) returns (ok: bool, maxLen: int, highest: Hash)
      requires Shape(chains) && DepthBound(chains.Keys, bound) && h in chains && h.Digest?
      modifies this`chains
      ensures Remeasured(old(chains), chains, h, ok, maxLen, highest)
      decreases bound - Depth(h)
    {
      hide Remeasured, Measuring, Shape, DepthBound, SameForks;
      ghost var before := chains;
      maxLen, highest := 0, h;
      MeasuringStarts(before, h);
      if h.prev !in chains {
        return false, maxLen, highest;
      }
      var length := chains[h.prev].length + 1;
      chains := chains[h := chains[h].(length := length)];
      maxLen := length;
      var todo, done := chains[h].forks, {};
      ghost var all := todo;
      while todo != {}
        invariant todo + done == all && todo !! done
        invariant Measuring(Measure(before, chains, h, done, maxLen, highest))
        decreases todo
      {
        var next :| next in todo;
        ghost var s := Measure(before, chains, h, done, maxLen, highest);
        MeasuringReady(s, next, bound);
        if next !in chains {
          MeasuringMisses(s, next);
          return false, maxLen, highest;
        }
        DepthOfKey(chains.Keys, bound, next);
        var fine, len, high := RecursiveUpdateLength(next, bound);
        if !fine {
          MeasuringFails(s, next, chains, len, high);
          return false, maxLen, highest;
        }
        MeasuringStep(s, next, chains, len, high);
        if len > maxLen {
          maxLen, highest := len, high;
        }
        todo, done := todo - {next}, done + {next};
      }
      MeasuringEnds(Measure(before, chains, h, done, maxLen, highest));
      return true, maxLen, highest;
    }

    /** Delete `h` and everything its forks lead to: exactly the tree of `h`, unless an entry of it
        is missing. */
    method DeleteForkFromChain(h: Hash, ghost bound: nat) returns (ok: bool)
      requires Shape(chains) && DepthBound(chains.Keys, bound) && h.Digest?
      modifies this`chains
      ensures Shape(chains) && Cut(old(chains), chains, h)
      ensures ok <==> Whole(old(chains), h)
      ensures ok ==> chains == old(chains) - Tree(old(chains), h)
      decreases bound - Depth(h)
    {
      hide Deleting, Whole, Tree, Cut, Shape, DepthBound;
      ghost var before := chains;
      if h !in chains {
        AbsentNotWhole(chains, h);
        return false;
      }
      var todo, done := chains[h].forks, {};
      ghost var all := todo;
      DeletingStarts(before, h);
      while todo != {}
        invariant Shape(chains) && todo + done == all && todo !! done
        invariant Deleting(before, chains, h, done)
        decreases todo
      {
        var next :| next in todo;
        ghost var mid := chains;
        DeletingReady(before, mid, h, done, next, bound);
        if next !in chains {
          return false;
        }
        DepthOfKey(mid.Keys, bound, next);
        var fine := DeleteForkFromChain(next, bound);
        DeletingStep(before, mid, chains, h, done, next, fine);
        if !fine {
          return false;
        }
        todo, done := todo - {next}, done + {next};
      }
      DeletingEnds(before, chains, h);
      DeletingCut(before, chains, h, done);
      DeletedLast(before, chains, h);
      chains := chains - {h};
      return true;
    }

    /** Claim the names of `h` and of everything below it; a block whose names are taken is deleted
        with its tree. The claimed names are shared by all branches, also by siblings. */
    method PruneInvalidForks(h: Hash, claimed: SafeStringArray?, ghost bound: nat) returns (ok: bool, valid: bool)
      requires Shape(chains) && DepthBound(chains.Keys, bound) && h in chains && h.Digest?
      modifies this`chains, claimed
      ensures Shape(chains)
      ensures Pruned(old(chains), chains, h, old(ClaimsOf(claimed)), ClaimsOf(claimed), ok, valid)
      decreases bound - Depth(h)
    {
      hide Pruned, Pruning, Cut, Whole, Tree, Clear, Shape, DepthBound;
      ghost var before := chains;
      ghost var c := ClaimsOf(claimed);
      if claimed == null && h.names != [] {
        PruneDeletes(before, chains, h, c, c, false);
        return false, false;
      }
      if claimed != null {
        var own := ClaimAll(claimed, h.names);
        if !own {
          ok := DeleteForkFromChain(h, bound);
          PruneDeletes(before, chains, h, c, ClaimsOf(claimed), ok);
          return ok, false;
        }
      }
      PruningStarts(before, h, c, ClaimsOf(claimed));
      var todo, done := chains[h].forks, {};
      ghost var all, kept := todo, true;
      while todo != {}
        invariant todo + done == all && todo !! done
        invariant Pruning(Prune(before, chains, h, done, c, ClaimsOf(claimed), kept))
        decreases todo
      {
        var next :| next in todo;
        ghost var s := Prune(before, chains, h, done, c, ClaimsOf(claimed), kept);
        BranchReady(s, next, bound);
        if next !in chains {
          PruneStops(s, next);
          return true, false;
        }
        DepthOfKey(chains.Keys, bound, next);
        var fine, fineToo := PruneInvalidForks(next, claimed, bound);
        if !fine {
          PruneFails(s, next, chains, ClaimsOf(claimed), fineToo);
          return false, false;
        }
        PruneStep(s, next, chains, ClaimsOf(claimed), fineToo);
        kept := kept && Whole(chains, next);
        todo, done := todo - {next}, done + {next};
      }
      PruneEnds(Prune(before, chains, h, done, c, ClaimsOf(claimed), kept));
      return true, true;
    }

    /** Move one orphan below its parent `b`, unless pruning removes it. */
    method Adopt(orphan: Hash, b: Hash, claimed: SafeStringArray?, ghost blocks: set<Hash>, ghost done: set<Hash>,
                 ghost bound: nat)
      returns (ok: bool, len: int, high: Hash)
      requires Shape(chains) && DepthBound(chains.Keys, bound) && b in chains && b.Digest?
      requires orphan in chains && orphan.Digest? && orphan.prev == b
      modifies this`chains, claimed
      ensures Adopted(old(chains), chains, b, orphan, old(ClaimsOf(claimed)), ClaimsOf(claimed), ok)
      ensures ok ==> Risen(old(chains), chains, orphan, len, high)
      ensures Waits(blocks, b, done, old(chains), orphan) && !Goes(old(ClaimsOf(claimed)), orphan) && ok ==>
                Adopting(blocks, b, done + {orphan}, chains)
    {
      hide Adopted, Pruned, Remeasured, Waits, Risen, Adopting, DepthBound;
      len, high := 0, Zero;
      ghost var before, c := chains, ClaimsOf(claimed);
      DetachedIntact(before, orphan, orphan);
      chains := Detached(chains, orphan);
      var fine, stillValid := PruneInvalidForks(orphan, claimed, bound);
      ghost var pruned, after := chains, ClaimsOf(claimed);
      if !fine {
        PrunedValid(Detached(before, orphan), pruned, orphan, c, after, fine, stillValid);
        NotAttached(before, pruned, b, orphan, c, after, false);
        return false, len, high;
      }
      if stillValid {
        PrunedValid(Detached(before, orphan), pruned, orphan, c, after, fine, stillValid);
        CutOf(Detached(before, orphan), pruned, orphan, c, after, true, true);
        PrunedOthers(before, pruned, b, orphan);
        AttachedShape(chains, b, orphan);
        AttachedBound(before, pruned, b, orphan, bound);
        chains := Attached(chains, b, orphan);
        ok, len, high := RecursiveUpdateLength(orphan, bound);
        WasAttached(before, pruned, chains, b, orphan, c, after, ok, len, high);
        if ok && Waits(blocks, b, done, before, orphan) {
          AdoptedMeasured(blocks, b, done, before, chains, orphan, len, high);
        }
        return;
      }
      NotAttached(before, pruned, b, orphan, c, after, true);
      if Waits(blocks, b, done, before, orphan) {
        WaitsOpen(blocks, b, done, before, orphan);
        PrunedOpen(before, pruned, orphan, c, after);
      }
      return true, len, high;
    }

    /** Adopt the orphans that waited for `b`, in some order. In the original this walks genesis'
        forks while deleting from them. */
    method CheckOrphansAndReinsert(b: Hash, claimed: SafeStringArray?, ghost blocks: set<Hash>, ghost bound: nat)
      returns (ok: bool, maxLen: int, highest: Hash, ghost order: seq<Hash>)
      requires Shape(chains) && DepthBound(chains.Keys, bound) && b in chains && b.Digest?
      modifies this`chains, claimed
      ensures Walked(old(chains), chains, b, order, old(ClaimsOf(claimed)), ok)
      ensures ok ==> Climbed(blocks, b, old(chains), chains, order, old(ClaimsOf(claimed)))
      ensures ok && old(chains)[b].forks == {} && old(chains)[b].length > 0 ==> Best(chains, b, order, maxLen, highest)
    {
      hide Walked, Walking, Climbed, Adopted, DepthBound, Waits, Waiting, Adopting, Risen, BestOf, Best;
      ghost var before, c := chains, ClaimsOf(claimed);
      maxLen, highest, order := 0, Zero, [];
      var todo := chains[Zero].forks;
      WalkStarts(before, b, c);
      ClimbStarts(blocks, b, before, c);
      BestStarts(before, b, todo, c);
      while todo != {}
        invariant Walking(Walk(before, chains, b, todo, order, c, ClaimsOf(claimed)))
        invariant Climbed(blocks, b, before, chains, order, c)
        invariant BestOf(Walk(before, chains, b, todo, order, c, ClaimsOf(claimed)), maxLen, highest)
        decreases todo
      {
        var orphan :| orphan in todo;
        ghost var w := Walk(before, chains, b, todo, order, c, ClaimsOf(claimed));
        WalkReady(w, orphan);
        if orphan !in chains {
          WalkMisses(w, orphan);
          return false, maxLen, highest, order;
        }
        if orphan.prev == b {
          SmallerBound(before.Keys, chains.Keys, bound);
          var fine, len, high := Adopt(orphan, b, claimed, blocks, SetOf(order), bound);
          if !fine {
            WalkFails(w, orphan, chains, ClaimsOf(claimed));
            return false, maxLen, highest, order + [orphan];
          }
          WalkAdopts(w, orphan, chains, ClaimsOf(claimed));
          ClimbStep(blocks, w, orphan, chains);
          BestStep(w, orphan, chains, ClaimsOf(claimed), maxLen, highest, len, high);
          if len > maxLen {
            maxLen, highest := len, high;
          }
          order := order + [orphan];
        } else {
          WalkSkips(w, orphan);
          BestSkips(w, orphan, maxLen, highest);
        }
        todo := todo - {orphan};
      }
      ghost var w := Walk(before, chains, b, todo, order, c, ClaimsOf(claimed));
      WalkEnds(w);
      if before[b].forks == {} && before[b].length > 0 { BestBelow(w, maxLen, highest); }
      return true, maxLen, highest, order;
    }

    /** Take over a longer chain. `changed` tells a switch to another fork from an extension. */
    method HeadChanges(lenOfNewFork: int, newForkHead: Hash) returns (ok: bool, changed: bool, grew: bool)
      requires newForkHead.Digest?
      modifies this`longestChain
      ensures ok <==> old(longestChain) in chains
      ensures grew <==> ok && lenOfNewFork > chains[old(longestChain)].length
      ensures longestChain == if grew then newForkHead else old(longestChain)
      ensures changed <==> grew && newForkHead.prev != old(longestChain)
    {
      if longestChain !in chains {
        return false, false, false;
      }
      if lenOfNewFork > chains[longestChain].length {
        changed := newForkHead.prev != longestChain;
        longestChain := newForkHead;
        return true, changed, true;
      }
      return true, false, false;
    }

    /** The ledger holds exactly these blocks and names a longest chain. */
    ghost predicate Holds(blocks: set<Hash>)
      reads this
    {
      Blocks(blocks) && chains == LedgerOf(blocks) && IsLongest(blocks, longestChain)
    }

    /** Put `b` below its parent, or below genesis as an orphan, without looking at orphans. */
    method Place(b: Hash) returns (valid: bool, claimed: SafeStringArray?)
      requires Shape(chains) && b.Digest? && b !in chains
      modifies this`chains
      ensures valid <==> !Refused(old(chains), b)
      ensures chains == if valid then Placed(old(chains), b) else Hung(old(chains), b)
      ensures claimed != null ==> fresh(claimed)
      ensures valid ==> ClaimsOf(claimed) == ClaimsAt(old(chains), b)
    {
      ghost var keys := chains.Keys;
      HungShape(chains, b);
      var at := if b.prev in chains then b.prev else Zero;
      var length := chains[at].length + 1;
      chains := chains[at := chains[at].(forks := chains[at].forks + {b})];
      assert chains.Keys == keys;
      var names, distinct := CheckValidTransactionsBackwards(chains, b);
      if b.prev in chains && !distinct {
        return false, null;
      }
      chains := chains[b := Entry(length, {})];
      return true, names;
    }

    /** `insertBlock`: a known block is ignored, and one whose branch claims a name twice is refused,
        but its hash stays in the forks of its parent. Any other block is accepted. */
    method InsertBlock(b: Hash, ghost blocks: set<Hash>)
      returns (ok: bool, valid: bool, headChanged: bool, headGrew: bool, ghost order: seq<Hash>)
      requires Shape(chains) && b.Digest?
      modifies this
      ensures Shape(chains) && chains.Keys <= old(chains).Keys + {b}
      ensures ok && old(Rooted(chains, Zero)) ==> Rooted(chains, Zero)
      ensures valid <==> b !in old(chains) && !Refused(old(chains), b)
      ensures b in old(chains) ==> ok && chains == old(chains) && longestChain == old(longestChain)
      ensures b !in old(chains) && !valid ==> ok && chains == Hung(old(chains), b) && longestChain == old(longestChain)
      ensures valid ==> Accepted(old(chains), old(longestChain), chains, b, order, ok)
      ensures valid && ok ==> old(longestChain) in chains && Crowned(chains, b, old(longestChain), longestChain)
      ensures valid && ok && order == [] ==> longestChain in {old(longestChain), b}
      ensures headGrew <==> valid && ok && longestChain != old(longestChain)
      ensures headChanged <==> headGrew && longestChain.Digest? && longestChain.prev != old(longestChain)
      ensures var placed, c := Placed(old(chains), b), ClaimsAt(old(chains), b);
              old(Holds(blocks)) && valid && AllFine(placed, c, order) && NoneGoes(placed, c, order) ==>
                ok && Holds(blocks + {b})
    {
      hide Accepted, Walked, Ready, Shape, AllFine, NoneGoes, IsLongest, Rooted;
      ghost var before, head := chains, longestChain;
      order := [];
      if b in chains {
        return true, false, false, false, order;
      }
      HungShape(chains, b);
      PlacedShape(chains, b);
      var claimed;
      valid, claimed := Place(b);
      if !valid {
        return true, false, false, false, order;
      }
      ghost var c := ClaimsOf(claimed);
      ghost var fine;
      fine, ok, headChanged, headGrew, order := Grow(b, claimed, blocks);
      GrownIsAccepted(before, head, chains, b, order, fine, ok);
      if old(Holds(blocks)) && AllFine(Placed(before, b), c, order) && NoneGoes(Placed(before, b), c, order) {
        LedgerPlaced(blocks, b);
        HeadStays(blocks, b, head, chains, order, fine);
      }
    }

    /** The rest of `insertBlock`: adopt the orphans of the placed block and compare heads. */
    method Grow(b: Hash, claimed: SafeStringArray?, ghost blocks: set<Hash>)
      returns (ghost fine: bool, ok: bool, headChanged: bool, headGrew: bool, ghost order: seq<Hash>)
      requires Shape(chains) && b in chains && b.Digest? && chains[b].length > 0 && chains[b].forks == {}
      modifies this, claimed
      ensures Walked(old(chains), chains, b, order, old(ClaimsOf(claimed)), fine)
      ensures ok <==> fine && old(longestChain) in chains
      ensures ok && order == [] ==> longestChain in {old(longestChain), b}
      ensures ok ==> Crowned(chains, b, old(longestChain), longestChain)
      ensures headGrew <==> ok && longestChain != old(longestChain)
      ensures headChanged <==> headGrew && longestChain.Digest? && longestChain.prev != old(longestChain)
      ensures ok && Ready(blocks, b, old(chains)) && NoneGoes(old(chains), old(ClaimsOf(claimed)), order)
              && IsLongest(blocks, old(longestChain)) ==>
                chains == LedgerOf(blocks + {b}) && IsLongest(blocks + {b}, longestChain)
    {
      hide Walked, Ready, NoneGoes, IsLongest, Climbed, Crowned, Tallest, Tree;
      ghost var before, c, head := chains, ClaimsOf(claimed), longestChain;
      ghost var bound := DepthBoundExists(chains.Keys);
      var adopted, maxLen, highest;
      adopted, maxLen, highest, order := CheckOrphansAndReinsert(b, claimed, blocks, bound);
      fine := adopted;
      if !adopted {
        return fine, false, false, false, order;
      }
      if chains[b].length > maxLen {
        maxLen, highest := chains[b].length, b;
      }
      ok, headChanged, headGrew := HeadChanges(maxLen, highest);
      if ok {
        BestCrowned(chains, b, head, maxLen, highest);
        if Ready(blocks, b, before) && NoneGoes(before, c, order) && IsLongest(blocks, head) {
          WalkedLedger(blocks, b, before, chains, order, c);
          ReadyBlocks(blocks, b, before);
          NewLongest(blocks, b, head, chains, longestChain);
        }
      }
    }
  }
}
