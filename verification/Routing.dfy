/** The DSDV routing table (routing/SafeRoutingEntry.go, routing/SafeRoutingTable.go). */
module Routing {
  import opened Words

  type Address = string

  datatype Route = Route(seqNum: uint32, hop: Address)

  type Routes = map<string, Route>

  /** A first route is always taken; a later one only with a strictly larger sequence number. */
  predicate Improves(routes: Routes, origin: string, seqNum: uint32) {
    origin in routes ==> seqNum > routes[origin].seqNum
  }

  function Updated(routes: Routes, origin: string, seqNum: uint32, hop: Address): Routes {
    if Improves(routes, origin, seqNum) then routes[origin := Route(seqNum, hop)] else routes
  }

  datatype Report = Report(origin: string, seqNum: uint32, hop: Address)

  /** The table after reports, from the first to the last. */
  function Heard(reports: seq<Report>): Routes {
    if reports == [] then map[]
    else
      var last := reports[|reports| - 1];
      Updated(Heard(reports[..|reports| - 1]), last.origin, last.seqNum, last.hop)
  }

  /** Report `k` has the largest number of its origin, and is the first that has it. */
  predicate Newest(reports: seq<Report>, k: nat) {
    && k < |reports|
    && forall j | 0 <= j < |reports| && reports[j].origin == reports[k].origin ::
         reports[j].seqNum <= reports[k].seqNum && (j < k ==> reports[j].seqNum < reports[k].seqNum)
  }

  /** Over all reports: an origin has a route exactly if it was reported, and it is the one reported first
      with the largest number. */
  lemma RouteIsNewest(reports: seq<Report>, k: nat)
    requires k < |reports|
    ensures reports[k].origin in Heard(reports)
    ensures Newest(reports, k) ==> Heard(reports)[reports[k].origin] == Route(reports[k].seqNum, reports[k].hop)
    ensures exists n: nat :: Newest(reports, n) && reports[n].origin == reports[k].origin
  {
    var n := NewestRoute(reports, k);
  }

  lemma {:induction false} NewestRoute(reports: seq<Report>, k: nat) returns (n: nat)
    requires k < |reports|
    ensures Newest(reports, n) && reports[n].origin == reports[k].origin
    ensures reports[n].origin in Heard(reports)
    ensures Heard(reports)[reports[n].origin] == Route(reports[n].seqNum, reports[n].hop)
  {
    var o, front, last := reports[k].origin, reports[..|reports| - 1], reports[|reports| - 1];
    n := |front|;
    if i: nat :| i < |front| && front[i].origin == o {
      var m := NewestRoute(front, i);
      if last.origin != o || last.seqNum <= front[m].seqNum { n := m; }
    } else {
      NotReported(front, o);
    }
  }

  lemma {:induction false} NotReported(reports: seq<Report>, o: string)
    requires forall i | 0 <= i < |reports| :: reports[i].origin != o
    ensures o !in Heard(reports)
  {
    if reports != [] {
      NotReported(reports[..|reports| - 1], o);
    }
  }

  class SafeRoutingTableEntry {
    var seqNum: uint32
    var address: Address

    constructor (seqNum: uint32, address: Address)
      ensures this.seqNum == seqNum && this.address == address
    {
      this.seqNum, this.address := seqNum, address;
    }

    function Value(): Route
      reads this
    {
      Route(seqNum, address)
    }

    method Update(seqNum: uint32, address: Address) returns (updated: bool)
      modifies this
      ensures updated == (seqNum > old(this.seqNum))
      ensures Value() == if updated then Route(seqNum, address) else old(Value())
    {
      if seqNum > this.seqNum {
        this.seqNum := seqNum;
        this.address := address;
        return true;
      }
      return false;
    }
  }

  class SafeRoutingTable {
    var originsMap: map<string, SafeRoutingTableEntry>

    /** No two origins share an entry object. */
    ghost predicate Valid()
      reads this
    {
      forall o, p | o in originsMap && p in originsMap && o != p :: originsMap[o] != originsMap[p]
    }

    ghost function Table(): Routes
      reads this, originsMap.Values
    {
      map o | o in originsMap :: originsMap[o].Value()
    }

    constructor ()
      ensures Valid() && Table() == map[] && originsMap == map[]
    {
      originsMap := map[];
    }

    method UpdateEntry(seqID: uint32, origin: string, addressSender: Address) returns (updated: bool)
      requires Valid()
      modifies this, originsMap.Values
      ensures Valid() && fresh(originsMap.Values - old(originsMap.Values))
      ensures updated == Improves(old(Table()), origin, seqID)
      ensures Table() == Updated(old(Table()), origin, seqID, addressSender)
    {
      if origin in originsMap {
        updated := originsMap[origin].Update(seqID, addressSender);
      } else {
        var srte := new SafeRoutingTableEntry(seqID, addressSender);
        originsMap := originsMap[origin := srte];
        updated := true;
      }
    }

    method GetNextHop(origin: string) returns (address: Option<Address>)
      requires Valid()
      ensures address == if origin in Table() then Some(Table()[origin].hop) else None
    {
      if origin !in originsMap {
        return None;
      }
      address := Some(originsMap[origin].address);
    }
  }
}
