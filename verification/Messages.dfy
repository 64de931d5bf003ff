/**
 The message store of a gossiper (dto/SafeMessagesMap.go), its origin counter
 (dto/SafeCounter.go) and the comparison of statuses (gossiper/helpers.go).
 */
module Messages {
  import opened Words

  datatype Rumor = Rumor(origin: string, id: uint32, text: string)
  datatype PeerStatus = PeerStatus(identifier: string, nextID: uint32)

  type Log = map<uint32, Rumor>
  type Store = map<string, Log>

  // ---------------------------------------------------------------- the store as a value

  function LogOf(m: Store, origin: string): Log {
    if origin in m then m[origin] else map[]
  }

  /** A rumor is new when its ID is unknown and either 1 or the successor of a known ID. */
  predicate Accepts(m: Store, r: Rumor) {
    && r.id !in LogOf(m, r.origin)
    && (r.id == 1 || Pred32(r.id) in LogOf(m, r.origin))
  }

  /** The store after `AddMessage`; a refused rumor still leaves an entry for its origin. */
  function Added(m: Store, r: Rumor): Store {
    m[r.origin := if Accepts(m, r) then LogOf(m, r.origin)[r.id := r] else LogOf(m, r.origin)]
  }

  /** What a store holds after `AddMessage`, ID by ID. */
  lemma AddedExactly(m: Store, r: Rumor, o: string, i: uint32)
    ensures o in Added(m, r) <==> o in m || o == r.origin
    ensures i in LogOf(Added(m, r), o) <==>
              i in LogOf(m, o) || (o == r.origin && i == r.id && (i == 1 || Pred32(i) in LogOf(m, o)))
    ensures i in LogOf(Added(m, r), o) ==>
              LogOf(Added(m, r), o)[i] == if i in LogOf(m, o) then LogOf(m, o)[i] else r
  {}

  function Lookup(m: Store, origin: string, id: uint32): Option<Rumor> {
    if id in LogOf(m, origin) then Some(LogOf(m, origin)[id]) else None
  }

  // ---------------------------------------------------------------- statuses as values

  predicate IsMaxId(ids: set<uint32>, m: uint32) {
    (m == 0 || m in ids) && forall i | i in ids :: i <= m
  }

  lemma {:induction false} MaxIdExists(ids: set<uint32>) returns (m: uint32)
    ensures IsMaxId(ids, m)
  {
    if ids == {} {
      m := 0;
    } else {
      var x :| x in ids;
      var rest := MaxIdExists(ids - {x});
      m := if rest < x then x else rest;
      assert forall i | i in ids :: i == x || i in ids - {x};
    }
  }

  ghost function MaxId(ids: set<uint32>): (m: uint32)
    ensures IsMaxId(ids, m)
  {
    assert exists m: uint32 :: IsMaxId(ids, m) by {
      var _ := MaxIdExists(ids);
    }
    var m: uint32 :| IsMaxId(ids, m);
    m
  }

  /** What a node advertises: per known origin one more than its largest ID. */
  ghost function Status(m: Store): map<string, uint32> {
    map o | o in m :: Succ32(MaxId(m[o].Keys))
  }

  /** A list of wants with one entry per origin, in any order. */
  ghost predicate Lists(want: seq<PeerStatus>, st: map<string, uint32>) {
    && (forall i, j | 0 <= i < j < |want| :: want[i].identifier != want[j].identifier)
    && (forall i | 0 <= i < |want| :: want[i].identifier in st && st[want[i].identifier] == want[i].nextID)
    && (forall o | o in st :: Mentions(want, o))
  }

  ghost predicate Mentions(l: seq<PeerStatus>, o: string) {
    exists i :: 0 <= i < |l| && l[i].identifier == o
  }

  /** The map a receiver builds from a list of wants: a later entry overwrites an earlier one. */
  function WantMap(want: seq<PeerStatus>): map<string, uint32> {
    if want == [] then map[]
    else WantMap(want[..|want| - 1])[want[|want| - 1].identifier := want[|want| - 1].nextID]
  }

  lemma {:induction false} WantMapEntries(want: seq<PeerStatus>, o: string)
    ensures o in WantMap(want) <==> Mentions(want, o)
  {
    if want != [] {
      var front := want[..|want| - 1];
      WantMapEntries(front, o);
      if i :| 0 <= i < |front| && front[i].identifier == o {
        assert want[i].identifier == o;
      }
      if i :| 0 <= i < |want| && want[i].identifier == o && i < |front| {
        assert front[i].identifier == o;
      }
    }
  }

  /** A list without repetitions is read back as the status it lists. */
  lemma {:induction false} WantMapOfLists(want: seq<PeerStatus>, st: map<string, uint32>)
    requires Lists(want, st)
    ensures WantMap(want) == st
  {
    forall o ensures o in WantMap(want) <==> o in st {
      WantMapEntries(want, o);
    }
    forall i | 0 <= i < |want|
      ensures want[i].identifier in WantMap(want) && WantMap(want)[want[i].identifier] == want[i].nextID
    {
      WantMapAt(want, i);
    }
  }

  lemma {:induction false} WantMapAt(want: seq<PeerStatus>, i: nat)
    requires forall i, j | 0 <= i < j < |want| :: want[i].identifier != want[j].identifier
    requires i < |want|
    ensures want[i].identifier in WantMap(want) && WantMap(want)[want[i].identifier] == want[i].nextID
  {
    if i < |want| - 1 {
      WantMapAt(want[..|want| - 1], i);
    }
  }

  /** What a node advertising `have` offers to a peer that advertised `want`. */
  function Offers(have: map<string, uint32>, want: map<string, uint32>): map<string, uint32> {
    map o | o in have && (o in want ==> want[o] < have[o]) :: if o in want then want[o] else 1
  }

  /** The entries of `have` the peer lacks, in order, with the ID it lacks. */
  function Difference(have: seq<PeerStatus>, want: map<string, uint32>): seq<PeerStatus> {
    if have == [] then []
    else
      var ps := have[|have| - 1];
      var rest := Difference(have[..|have| - 1], want);
      if ps.identifier !in want then rest + [PeerStatus(ps.identifier, 1)]
      else if want[ps.identifier] < ps.nextID then rest + [PeerStatus(ps.identifier, want[ps.identifier])]
      else rest
  }

  lemma ListsExtend(l: seq<PeerStatus>, st: map<string, uint32>, ps: PeerStatus)
    requires Lists(l, st) && ps.identifier !in st
    ensures Lists(l + [ps], st[ps.identifier := ps.nextID])
  {
    var all, st' := l + [ps], st[ps.identifier := ps.nextID];
    assert all[|l|] == ps;
    forall o | o in st' ensures Mentions(all, o) {
      if o != ps.identifier {
        assert Mentions(l, o);
        var i :| 0 <= i < |l| && l[i].identifier == o;
        assert all[i].identifier == o;
      }
    }
  }

  lemma ListsFront(l: seq<PeerStatus>, st: map<string, uint32>)
    requires l != [] && Lists(l, st)
    ensures Lists(l[..|l| - 1], st - {l[|l| - 1].identifier})
  {}

  lemma OffersWithout(st: map<string, uint32>, o: string, want: map<string, uint32>)
    requires o in st
    ensures o !in Offers(st - {o}, want)
    ensures o !in want ==> Offers(st, want) == Offers(st - {o}, want)[o := 1]
    ensures o in want && want[o] < st[o] ==> Offers(st, want) == Offers(st - {o}, want)[o := want[o]]
    ensures o in want && want[o] >= st[o] ==> Offers(st, want) == Offers(st - {o}, want)
  {
  }

  /** The listed difference is the offer computed on the statuses themselves. */
  lemma {:induction false} DifferenceListsOffers(have: seq<PeerStatus>, st: map<string, uint32>,
                                                 want: map<string, uint32>)
    requires Lists(have, st)
    ensures Lists(Difference(have, want), Offers(st, want))
  {
    if have != [] {
      var ps := have[|have| - 1];
      var front, st' := have[..|have| - 1], st - {ps.identifier};
      ListsFront(have, st);
      DifferenceListsOffers(front, st', want);
      OffersWithout(st, ps.identifier, want);
      var rest, offers' := Difference(front, want), Offers(st', want);
      if ps.identifier !in want {
        ListsExtend(rest, offers', PeerStatus(ps.identifier, 1));
      } else if want[ps.identifier] < ps.nextID {
        ListsExtend(rest, offers', PeerStatus(ps.identifier, want[ps.identifier]));
      }
    }
  }

  // ---------------------------------------------------------------- the classes

  class SafeMessagesMap {
    var originsMap: Store

    constructor ()
      ensures originsMap == map[]
    {
      originsMap := map[];
    }

    method AddMessage(msg: Rumor) returns (isNew: bool)
      modifies this
      ensures isNew == Accepts(old(originsMap), msg)
      ensures originsMap == Added(old(originsMap), msg)
    {
      if msg.origin !in originsMap {
        originsMap := originsMap[msg.origin := map[]];
      }
      var pm := originsMap[msg.origin];
      var notNew := true;
      if msg.id == 1 || Pred32(msg.id) in pm {
        notNew := msg.id in pm;
        if !notNew {
          originsMap := originsMap[msg.origin := pm[msg.id := msg]];
        }
      }
      isNew := !notNew;
    }

    method GetMessage(origin: string, messageID: uint32) returns (msg: Option<Rumor>)
      modifies this
      ensures msg == Lookup(old(originsMap), origin, messageID)
      ensures originsMap == old(originsMap)[origin := LogOf(old(originsMap), origin)]
    {
      if origin !in originsMap {
        originsMap := originsMap[origin := map[]];
      }
      var pm := originsMap[origin];
      msg := if messageID in pm then Some(pm[messageID]) else None;
    }

    method GetOwnStatusPacket() returns (wants: seq<PeerStatus>)
      ensures Lists(wants, Status(originsMap))
    {
      wants := [];
      var todo := originsMap.Keys;
      ghost var st := Status(originsMap);
      ghost var listed: map<string, uint32> := map[];
      while todo != {}
        invariant todo <= st.Keys
        invariant listed == st - todo
        invariant Lists(wants, listed)
        decreases |todo|
      {
        var origin :| origin in todo;
        var maxID := LargestId(originsMap[origin].Keys);
        MaxIdUnique(originsMap[origin].Keys, maxID);
        var ps := PeerStatus(origin, Succ32(maxID));
        ListsExtend(wants, listed, ps);
        wants := wants + [ps];
        todo := todo - {origin};
        listed := listed[origin := ps.nextID];
      }
      assert listed == st;
    }

    /** The inner loop of `GetOwnStatusPacket`: the largest ID of one origin, 0 if there is none. */
    static method LargestId(ids: set<uint32>) returns (maxID: uint32)
      ensures IsMaxId(ids, maxID)
    {
      maxID := 0;
      var left := ids;
      while left != {}
        invariant left <= ids
        invariant maxID == 0 || maxID in ids
        invariant forall i | i in ids && i !in left :: i <= maxID
        decreases |left|
      {
        var id :| id in left;
        if id > maxID {
          maxID := id;
        }
        left := left - {id};
      }
    }
  }

  lemma MaxIdUnique(ids: set<uint32>, m: uint32)
    requires IsMaxId(ids, m)
    ensures m == MaxId(ids)
  {}

  class SafeCounter {
    var v: uint32

    constructor ()
      ensures v == 1
    {
      v := 1;
    }

    method GetAndIncrement() returns (r: uint32)
      modifies this
      ensures r == old(v) && v == Succ32(old(v))
    {
      r := v;
      v := Succ32(v);
    }
  }

  method PeerStatusDifference(have: seq<PeerStatus>, want: seq<PeerStatus>) returns (wantList: seq<PeerStatus>)
    ensures wantList == Difference(have, WantMap(want))
  {
    var wantMap: map<string, uint32> := map[];
    for i := 0 to |want|
      invariant wantMap == WantMap(want[..i])
    {
      assert want[..i + 1][..i] == want[..i];
      wantMap := wantMap[want[i].identifier := want[i].nextID];
    }
    assert want[..|want|] == want;
    wantList := [];
    for i := 0 to |have|
      invariant wantList == Difference(have[..i], wantMap)
    {
      assert have[..i + 1][..i] == have[..i];
      var ps := have[i];
      if ps.identifier in wantMap && wantMap[ps.identifier] < ps.nextID {
        wantList := wantList + [PeerStatus(ps.identifier, wantMap[ps.identifier])];
      } else if ps.identifier !in wantMap {
        wantList := wantList + [PeerStatus(ps.identifier, 1)];
      }
    }
    assert have[..|have|] == have;
  }
}
