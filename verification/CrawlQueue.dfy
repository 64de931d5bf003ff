/**
 The persistent crawl queue (dht/storage.go). `Disk` is what survives a restart: the bucket of
 URLs keyed by the (injectively hashed) sequence number, the bucket's own sequence counter, and
 the head pointer.
 */
module CrawlQueue {
  import opened Words

  datatype Disk = Disk(urls: map<int, string>, sequence: nat, pointer: Option<int>)

  const EMPTY_DISK := Disk(map[], 0, None)

  // ---------------------------------------------------------------- operations as values

  /** `NewStorage`: the pointer is initialised once. */
  function Opened(d: Disk): Disk {
    if d.pointer.None? then d.(pointer := Some(0)) else d
  }

  /** `UpdateCrawlQueue`: bbolt counts from 1, keys start at 0. */
  function Enqueued(d: Disk, url: string): Disk {
    d.(urls := d.urls[d.sequence := url], sequence := d.sequence + 1)
  }

  /** `CrawlQueueHead` */
  function Head(d: Disk): Option<string>
    requires d.pointer.Some?
  {
    if d.pointer.value in d.urls then Some(d.urls[d.pointer.value]) else None
  }

  function Advanced(d: Disk): Disk
    requires d.pointer.Some?
  {
    if d.pointer.value in d.urls then d.(pointer := Some(d.pointer.value + 1)) else d
  }

  /** `DeleteCrawlQueueHead` deletes the entry before the pointer. */
  function Deleted(d: Disk): Disk
    requires d.pointer.Some?
  {
    d.(urls := d.urls - {d.pointer.value - 1})
  }

  // ---------------------------------------------------------------- runs

  datatype Op = Open | Enqueue(url: string) | TakeHead | Delete

  function Apply(d: Disk, op: Op): Disk
    requires d.pointer.Some?
  {
    match op
    case Open => Opened(d)
    case Enqueue(url) => Enqueued(d, url)
    case TakeHead => Advanced(d)
    case Delete => Deleted(d)
  }

  /** What an operation hands out. */
  function Output(d: Disk, op: Op): seq<string>
    requires d.pointer.Some?
  {
    if op.TakeHead? && Head(d).Some? then [Head(d).value] else []
  }

  function Input(op: Op): seq<string> {
    if op.Enqueue? then [op.url] else []
  }

  /** The disk after operations on a storage that was opened on an empty disk. */
  function Run(ops: seq<Op>): (d: Disk)
    ensures d.pointer.Some?
  {
    if ops == [] then Opened(EMPTY_DISK)
    else
      var before := Run(ops[..|ops| - 1]);
      Apply(before, ops[|ops| - 1])
  }

  function Outputs(ops: seq<Op>): seq<string> {
    if ops == [] then []
    else Outputs(ops[..|ops| - 1]) + Output(Run(ops[..|ops| - 1]), ops[|ops| - 1])
  }

  function Inputs(ops: seq<Op>): seq<string> {
    if ops == [] then [] else Inputs(ops[..|ops| - 1]) + Input(ops[|ops| - 1])
  }

  /** The disk stores `all` from the pointer on; what it still has of the rest is unchanged. */
  ghost predicate Stores(d: Disk, all: seq<string>) {
    && d.pointer.Some? && 0 <= d.pointer.value <= d.sequence == |all|
    && (forall i | d.pointer.value <= i < |all| :: i in d.urls)
    && (forall i | i in d.urls :: 0 <= i < |all| && d.urls[i] == all[i])
  }

  /** One operation keeps the queue's contents, adds what it is given and hands out the next URL. */
  lemma StepStores(d: Disk, all: seq<string>, op: Op)
    requires Stores(d, all)
    ensures Stores(Apply(d, op), all + Input(op))
    ensures (all + Input(op))[..Apply(d, op).pointer.value] == all[..d.pointer.value] + Output(d, op)
  {}

  lemma {:induction false} RunStores(ops: seq<Op>)
    ensures Stores(Run(ops), Inputs(ops))
    ensures Outputs(ops) == Inputs(ops)[..Run(ops).pointer.value]
  {
    if ops != [] {
      var front := ops[..|ops| - 1];
      RunStores(front);
      StepStores(Run(front), Inputs(front), ops[|ops| - 1]);
    }
  }

  /** The URLs still to be handed out. */
  function Waiting(d: Disk, all: seq<string>): seq<string>
    requires d.pointer.Some? && 0 <= d.pointer.value <= |all|
  {
    all[d.pointer.value..]
  }

  /** Over every run, with restarts and repeated deletions at any point, the URLs handed out so far
      and those still waiting are exactly the URLs put in, once each and in order. */
  lemma RunIsFifo(ops: seq<Op>)
    ensures 0 <= Run(ops).pointer.value <= |Inputs(ops)|
    ensures Outputs(ops) + Waiting(Run(ops), Inputs(ops)) == Inputs(ops)
  {
    hide Run, Inputs, Outputs;
    RunStores(ops);
    var p := Run(ops).pointer.value;
    assert Inputs(ops)[..p] + Inputs(ops)[p..] == Inputs(ops);
  }

  /** The next URL is the first one waiting; there is none exactly when nothing waits. */
  lemma HeadIsFirstWaiting(ops: seq<Op>)
    ensures 0 <= Run(ops).pointer.value <= |Inputs(ops)|
    ensures var w := Waiting(Run(ops), Inputs(ops)); Head(Run(ops)) == if w == [] then None else Some(w[0])
  {
    RunStores(ops);
  }

  /** The same URLs went in and came out. */
  predicate SameFlow(a: seq<Op>, b: seq<Op>) {
    Inputs(a) == Inputs(b) && Outputs(a) == Outputs(b) && Run(a).pointer == Run(b).pointer
  }

  /** What comes out next depends on what went in and came out only, not on what was deleted. */
  lemma StepFlow(a: seq<Op>, b: seq<Op>, op: Op)
    requires SameFlow(a, b)
    ensures SameFlow(a + [op], b + [op])
  {
    hide Run, Inputs, Outputs;
    HeadIsFirstWaiting(a);
    HeadIsFirstWaiting(b);
    OneMoreOp(a, op);
    OneMoreOp(b, op);
  }

  lemma OneMoreOp(ops: seq<Op>, op: Op)
    ensures Run(ops + [op]) == Apply(Run(ops), op)
    ensures Inputs(ops + [op]) == Inputs(ops) + Input(op)
    ensures Outputs(ops + [op]) == Outputs(ops) + Output(Run(ops), op)
  {
    assert (ops + [op])[..|ops + [op]| - 1] == ops;
  }

  lemma {:induction false} RestFlow(a: seq<Op>, b: seq<Op>, rest: seq<Op>)
    requires SameFlow(a, b)
    ensures SameFlow(a + rest, b + rest)
  {
    hide SameFlow;
    if rest == [] {
      assert a + rest == a && b + rest == b;
    } else {
      var front, op := rest[..|rest| - 1], rest[|rest| - 1];
      RestFlow(a, b, front);
      StepFlow(a + front, b + front, op);
      assert a + rest == a + front + [op] && b + rest == b + front + [op];
    }
  }

  function Deletes(n: nat): seq<Op> {
    if n == 0 then [] else Deletes(n - 1) + [Delete]
  }

  lemma DeleteKeepsFlow(ops: seq<Op>)
    ensures SameFlow(ops + [Delete], ops)
  {
    hide Run, Inputs, Outputs;
    OneMoreOp(ops, Delete);
  }

  lemma FlowTwice(a: seq<Op>, b: seq<Op>, c: seq<Op>)
    requires SameFlow(a, b) && SameFlow(b, c)
    ensures SameFlow(a, c)
  {}

  lemma FlowItself(ops: seq<Op>)
    ensures SameFlow(ops, ops)
  {}

  lemma {:induction false} DeletesKeepFlow(ops: seq<Op>, n: nat)
    ensures SameFlow(ops + Deletes(n), ops)
  {
    hide SameFlow, Run, Inputs, Outputs;
    if n == 0 {
      assert ops + Deletes(n) == ops;
      FlowItself(ops);
    } else {
      var before := ops + Deletes(n - 1);
      assert ops + Deletes(n) == before + [Delete];
      DeletesKeepFlow(ops, n - 1);
      DeleteKeepsFlow(before);
      FlowTwice(before + [Delete], before, ops);
    }
  }

  /** Deleting the head, any number of times, at any point and also on an empty queue, loses nothing
      that waits: whatever happens afterwards hands out the same URLs as without it. */
  lemma DeletionsAreHarmless(ops: seq<Op>, n: nat, rest: seq<Op>)
    ensures Outputs(ops + Deletes(n) + rest) == Outputs(ops + rest)
  {
    DeletesKeepFlow(ops, n);
    RestFlow(ops + Deletes(n), ops, rest);
  }

  /** A deletion removes the entry of the URL handed out last from the disk, if it is still there, and
      nothing else; when nothing was handed out yet, nothing goes. */
  lemma DeleteRemovesLast(ops: seq<Op>, i: int)
    ensures var before, after, last := Run(ops), Run(ops + [Delete]), |Outputs(ops)| - 1;
            && (i in after.urls <==> i in before.urls && i != last)
            && (i in after.urls ==> after.urls[i] == before.urls[i])
            && (i in before.urls ==> 0 <= i < |Inputs(ops)| && before.urls[i] == Inputs(ops)[i])
            && (last >= 0 ==> last < |Inputs(ops)| && Inputs(ops)[last] == Outputs(ops)[last])
            && after.sequence == before.sequence && after.pointer == before.pointer
  {
    RunStores(ops);
    OneMoreOp(ops, Delete);
  }

  /** So a URL that is taken is on the disk until the next deletion, and no longer. */
  lemma TakenThenDeleted(ops: seq<Op>)
    requires Head(Run(ops)).Some?
    ensures var k, taken, after := |Outputs(ops)|, Run(ops + [TakeHead]), Run(ops + [TakeHead] + [Delete]);
            && k in taken.urls && Outputs(ops + [TakeHead]) == Outputs(ops) + [taken.urls[k]] && k !in after.urls
  {
    RunStores(ops);
    OneMoreOp(ops, TakeHead);
    DeleteRemovesLast(ops + [TakeHead], |Outputs(ops)|);
  }

  // ---------------------------------------------------------------- the object

  class Storage {
    var urls: map<int, string>
    var sequence: nat
    var pointer: int

    ghost function Abs(): Disk
      reads this
    {
      Disk(urls, sequence, Some(pointer))
    }

    constructor (d: Disk)
      ensures Abs() == Opened(d)
    {
      urls, sequence := d.urls, d.sequence;
      pointer := if d.pointer.Some? then d.pointer.value else 0;
    }

    method UpdateCrawlQueue(data: string)
      modifies this
      ensures Abs() == Enqueued(old(Abs()), data)
    {
      sequence := sequence + 1;
      var id := sequence;
      urls := urls[id - 1 := data];
    }

    method CrawlQueueHead() returns (head: Option<string>)
      modifies this`pointer
      ensures head == Head(old(Abs())) && Abs() == Advanced(old(Abs()))
    {
      var headSequenceNumber := pointer;
      if headSequenceNumber !in urls {
        return None;
      }
      head := Some(urls[headSequenceNumber]);
      pointer := headSequenceNumber + 1;
    }

    method DeleteCrawlQueueHead()
      modifies this`urls
      ensures Abs() == Deleted(old(Abs()))
    {
      var index := pointer;
      urls := urls - {index - 1};
    }

    /** The crawler's reaction to a finished page: delete, take the next URL, and start over after a
        pause while there is none. `pauses` are the URLs that are put in during each pause. */
    method NextCrawl(delete: bool, pauses: seq<seq<string>>) returns (next: Option<string>)
      modifies this
      ensures (Abs(), next) == Crawled(old(Abs()), delete, pauses)
      decreases |pauses|
    {
      if delete {
        DeleteCrawlQueueHead();
      }
      next := CrawlQueueHead();
      if next.None? && pauses != [] {
        for i := 0 to |pauses[0]|
          invariant EnqueuedAll(Abs(), pauses[0][i..])
                    == EnqueuedAll(Advanced(if delete then Deleted(old(Abs())) else old(Abs())), pauses[0])
        {
          assert pauses[0][i..][0] == pauses[0][i] && pauses[0][i..][1..] == pauses[0][i + 1..];
          UpdateCrawlQueue(pauses[0][i]);
        }
        next := NextCrawl(delete, pauses[1..]);
      }
    }
  }

  // ---------------------------------------------------------------- waiting for the next URL

  function EnqueuedAll(d: Disk, urls: seq<string>): (r: Disk)
    requires d.pointer.Some?
    ensures r.pointer == d.pointer
    decreases |urls|
  {
    if urls == [] then d else EnqueuedAll(Enqueued(d, urls[0]), urls[1..])
  }

  /** Delete, take the head, and after every pause without a head start over. */
  function Crawled(d: Disk, delete: bool, pauses: seq<seq<string>>): (r: (Disk, Option<string>))
    requires d.pointer.Some?
    decreases |pauses|
  {
    var cleared := if delete then Deleted(d) else d;
    var next := Head(cleared);
    if next.None? && pauses != [] then Crawled(EnqueuedAll(Advanced(cleared), pauses[0]), delete, pauses[1..])
    else (Advanced(cleared), next)
  }

  function Flat(pauses: seq<seq<string>>): seq<string> {
    if pauses == [] then [] else pauses[0] + Flat(pauses[1..])
  }

  lemma {:induction false} EnqueuedStores(d: Disk, all: seq<string>, urls: seq<string>)
    requires Stores(d, all)
    ensures Stores(EnqueuedAll(d, urls), all + urls)
    decreases |urls|
  {
    if urls == [] {
      assert all + urls == all;
    } else {
      StepStores(d, all, Enqueue(urls[0]));
      EnqueuedStores(Enqueued(d, urls[0]), all + [urls[0]], urls[1..]);
      assert all + [urls[0]] + urls[1..] == all + urls;
    }
  }

  lemma {:induction false} EnqueuedKeys(d: Disk, urls: seq<string>, i: int)
    requires d.pointer.Some?
    ensures i in EnqueuedAll(d, urls).urls <==> i in d.urls || d.sequence <= i < d.sequence + |urls|
    decreases |urls|
  {
    if urls != [] {
      EnqueuedKeys(Enqueued(d, urls[0]), urls[1..], i);
    }
  }

  /** What is on the disk `r` then: the URLs of the first `m` pauses were put in, where nothing waited before
      the last of them; the pointer has moved past the URL handed out; and of what was there before, only
      the entry before the pointer was deleted. */
  ghost predicate Left(d: Disk, all: seq<string>, delete: bool, pauses: seq<seq<string>>, m: nat, r: Disk, taken: bool)
    requires d.pointer.Some? && m <= |pauses|
  {
    && Stores(r, all + Flat(pauses[..m])) && r.pointer.value == d.pointer.value + (if taken then 1 else 0)
    && (m < |pauses| ==> taken) && (m > 0 ==> |all + Flat(pauses[..m - 1])| == d.pointer.value)
    && forall i :: i in r.urls <==> (i in d.urls && !(delete && i == d.pointer.value - 1))
                                    || |all| <= i < |all + Flat(pauses[..m])|
  }

  lemma {:induction false} CrawledDisk(d: Disk, all: seq<string>, delete: bool, pauses: seq<seq<string>>)
      returns (m: nat)
    requires Stores(d, all)
    ensures m <= |pauses|
    ensures var (r, next) := Crawled(d, delete, pauses); Left(d, all, delete, pauses, m, r, next.Some?)
    decreases |pauses|
  {
    hide Stores, Left;
    DeleteStores(d, all);
    var cleared := if delete then Deleted(d) else d;
    if Head(cleared).None? && pauses != [] {
      var more := EnqueuedAll(cleared, pauses[0]);
      EnqueuedStores(cleared, all, pauses[0]);
      var k := CrawledDisk(more, all + pauses[0], delete, pauses[1..]);
      m := k + 1;
      var (r, next) := Crawled(more, delete, pauses[1..]);
      LeftLater(d, all, delete, pauses, k, r, next.Some?);
    } else {
      m := 0;
      LeftAtOnce(d, all, delete, pauses);
    }
  }

  lemma DeleteStores(d: Disk, all: seq<string>)
    requires Stores(d, all)
    ensures d.pointer.Some? && Stores(Deleted(d), all)
  {
    StepStores(d, all, Delete);
    assert all + [] == all;
  }

  lemma LeftAtOnce(d: Disk, all: seq<string>, delete: bool, pauses: seq<seq<string>>)
    requires Stores(d, all)
    requires Head(if delete then Deleted(d) else d).None? ==> pauses == []
    ensures var cleared := if delete then Deleted(d) else d;
            Left(d, all, delete, pauses, 0, Advanced(cleared), Head(cleared).Some?)
  {
    var cleared := if delete then Deleted(d) else d;
    DeleteStores(d, all);
    StepStores(cleared, all, TakeHead);
    assert all + Flat(pauses[..0]) == all && all + [] == all;
  }

  lemma LeftLater(d: Disk, all: seq<string>, delete: bool, pauses: seq<seq<string>>, k: nat, r: Disk, taken: bool)
    requires Stores(d, all) && pauses != [] && k < |pauses|
    requires var cleared := if delete then Deleted(d) else d;
             Head(cleared).None?
             && Left(EnqueuedAll(cleared, pauses[0]), all + pauses[0], delete, pauses[1..], k, r, taken)
    ensures Left(d, all, delete, pauses, k + 1, r, taken)
  {
    hide Flat, EnqueuedAll, Stores;
    DeleteStores(d, all);
    StoredLength(d, all);
    var cleared := if delete then Deleted(d) else d;
    WaitingNone(cleared, all);
    FlatFront(all, pauses, k);
    if k > 0 {
      FlatFront(all, pauses, k - 1);
    } else {
      FlatNone();
      assert pauses[..k] == [] && all + Flat([]) == all;
    }
    forall i ensures i in EnqueuedAll(cleared, pauses[0]).urls <==>
                       i in cleared.urls || |all| <= i < |all| + |pauses[0]| {
      EnqueuedKeys(cleared, pauses[0], i);
    }
  }

  /** Without a head nothing waits. */
  lemma WaitingNone(d: Disk, all: seq<string>)
    requires Stores(d, all) && Head(d).None?
    ensures d.pointer.value == |all|
  {}

  lemma StoredLength(d: Disk, all: seq<string>)
    requires Stores(d, all)
    ensures d.sequence == |all|
  {}

  lemma FlatNone()
    ensures Flat([]) == []
  {}

  lemma FlatFront(all: seq<string>, pauses: seq<seq<string>>, k: nat)
    requires k < |pauses|
    ensures all + pauses[0] + Flat(pauses[1..][..k]) == all + Flat(pauses[..k + 1])
  {
    assert pauses[..k + 1][0] == pauses[0] && pauses[..k + 1][1..] == pauses[1..][..k];
    assert all + pauses[0] + Flat(pauses[1..][..k]) == all + (pauses[0] + Flat(pauses[1..][..k]));
  }

  /** The crawler gets the first URL that waits or is put in during a pause, whichever pause that is,
      and none exactly when nothing waits and every pause is in vain, however often the retries delete. */
  lemma {:induction false} CrawlsFirstWaiting(d: Disk, all: seq<string>, delete: bool, pauses: seq<seq<string>>)
    requires Stores(d, all)
    ensures var k, offered := d.pointer.value, all + Flat(pauses);
            Crawled(d, delete, pauses).1 == if |offered| == k then None else Some(offered[k])
    decreases |pauses|
  {
    var cleared := if delete then Deleted(d) else d;
    StepStores(d, all, Delete);
    if Head(cleared).None? && pauses != [] {
      EnqueuedStores(cleared, all, pauses[0]);
      CrawlsFirstWaiting(EnqueuedAll(cleared, pauses[0]), all + pauses[0], delete, pauses[1..]);
      assert all + pauses[0] + Flat(pauses[1..]) == all + Flat(pauses);
    } else if Head(cleared).None? {
      assert Flat(pauses) == [];
    }
  }
}
