/**
 The gossiper object (gossiper/gossiper.go, gossiper/rumorMongering.go, gossiper/DSDV.go). Its
 handlers change the shared tables in place; each is proved to be the step of the same name in
 the network model. `outbox` stands for the UDP socket.
 */
module Gossipers {
  import opened Words
  import opened Messages
  import opened Routing
  import opened Gossip

  class Gossiper {
    const name: string
    const address: Address
    const seqIDCounter: SafeCounter
    const msgMap: SafeMessagesMap
    const routingTable: SafeRoutingTable
    var mongering: set<Rumor>
    var handling: Option<(Address, Rumor)>
    var outbox: seq<Packet>

    ghost predicate Valid()
      reads this, routingTable
    {
      routingTable.Valid()
    }

    ghost function Abs(): Node
      reads this, seqIDCounter, msgMap, routingTable, routingTable.originsMap.Values
    {
      Node(name, seqIDCounter.v, msgMap.originsMap, routingTable.Table(), mongering, handling)
    }

    constructor (name: string, address: Address)
      ensures Valid() && Abs() == Node(name, 1, map[], map[], {}, None)
      ensures this.address == address && outbox == []
      ensures fresh(seqIDCounter) && fresh(msgMap) && fresh(routingTable)
    {
      this.name, this.address := name, address;
      seqIDCounter := new SafeCounter();
      msgMap := new SafeMessagesMap();
      routingTable := new SafeRoutingTable();
      mongering, handling, outbox := {}, None, [];
    }

    method ClientListen(text: string)
      requires Valid()
      modifies this, seqIDCounter, msgMap
      ensures Valid() && Abs() == OnClient(old(Abs()), text) && outbox == old(outbox)
    {
      var id := seqIDCounter.GetAndIncrement();
      var rumor := Rumor(name, id, text);
      var _ := msgMap.AddMessage(rumor);
      mongering := mongering + {rumor};
    }

    method UpdateDSDV(src: Address, rumor: Rumor)
      requires Valid()
      modifies this, routingTable, routingTable.originsMap.Values
      ensures Valid() && Abs() == TakeRoute(old(Abs()), src, rumor) && outbox == old(outbox)
    {
      handling := Some((src, rumor));
      if rumor.origin == name {
        return;
      }
      var _ := routingTable.UpdateEntry(rumor.id, rumor.origin, src);
    }

    method StoreHandled()
      requires Valid() && handling.Some?
      modifies this, msgMap
      ensures Valid() && Abs() == StoreRumor(old(Abs()))
      ensures |outbox| == |old(outbox)| + 1 && old(outbox) <= outbox
      ensures var sent := outbox[|old(outbox)|];
              && sent.StatusPacket? && sent.src == address && sent.dst == old(handling).value.0
              && Lists(sent.want, Status(Abs().msgs))
    {
      hide Added, Accepts, Lists, Status;
      ghost var n := Abs();
      var (src, rumor) := handling.value;
      var isNew := msgMap.AddMessage(rumor);
      assert routingTable.Table() == n.routes;
      assert msgMap.originsMap == StoreRumor(n).msgs && isNew == Accepts(n.msgs, rumor);
      var want := msgMap.GetOwnStatusPacket();
      outbox := outbox + [StatusPacket(address, src, want)];
      if isNew {
        mongering := mongering + {rumor};
      }
      handling := None;
    }

    /** Answer a status: send what the peer lacks; when it lacks nothing and no routine is
        mongering with it, ask for what this node lacks. `mine` and `again` are the two own
        statuses computed on the way, which may list the origins in any order. */
    method PeerStatusListen(peer: Address, want: seq<PeerStatus>, notMongering: bool)
      returns (ghost mine: seq<PeerStatus>, ghost again: seq<PeerStatus>)
      requires Valid()
      modifies this`outbox, msgMap
      ensures Valid() && Abs() == old(Abs())
      ensures Lists(mine, Status(Abs().msgs)) && Lists(again, Status(Abs().msgs))
      ensures var l := Difference(mine, WantMap(want));
              outbox == old(outbox) + Replies(l, Abs().msgs, address, peer)
                        + (if notMongering && l == [] && Difference(want, Status(Abs().msgs)) != []
                           then [StatusPacket(address, peer, again)] else [])
    {
      hide Lists, Difference, Replies, WantMap;
      ghost var n := Abs();
      var mySp := msgMap.GetOwnStatusPacket();
      mine, again := mySp, mySp;
      var theirDesired := PeerStatusDifference(mySp, want);
      KnownOrigins(mySp, Status(msgMap.originsMap), WantMap(want));
      SendDesired(theirDesired, peer);
      if notMongering && |theirDesired| == 0 {
        again := AskBack(peer, want, mySp);
      }
      assert routingTable.Table() == n.routes;
    }

    method AskBack(peer: Address, want: seq<PeerStatus>, mySp: seq<PeerStatus>) returns (ghost again: seq<PeerStatus>)
      requires Valid() && Lists(mySp, Status(msgMap.originsMap))
      modifies this`outbox
      ensures Lists(again, Status(msgMap.originsMap))
      ensures outbox == old(outbox) + (if Difference(want, Status(msgMap.originsMap)) != []
                                       then [StatusPacket(address, peer, again)] else [])
    {
      var ourDesired := PeerStatusDifference(want, mySp);
      WantMapOfLists(mySp, Status(msgMap.originsMap));
      again := mySp;
      if |ourDesired| != 0 {
        var status := msgMap.GetOwnStatusPacket();
        again := status;
        outbox := outbox + [StatusPacket(address, peer, status)];
      }
    }

    method SendDesired(l: seq<PeerStatus>, peer: Address)
      requires Valid() && forall j | 0 <= j < |l| :: l[j].identifier in msgMap.originsMap
      modifies this`outbox, msgMap
      ensures msgMap.originsMap == old(msgMap.originsMap)
      ensures outbox == old(outbox) + Replies(l, msgMap.originsMap, address, peer)
    {
      for i := 0 to |l|
        invariant msgMap.originsMap == old(msgMap.originsMap)
        invariant outbox == old(outbox) + Replies(l[..i], msgMap.originsMap, address, peer)
      {
        assert l[..i + 1][..i] == l[..i];
        var rm := msgMap.GetMessage(l[i].identifier, l[i].nextID);
        if rm.Some? {
          outbox := outbox + [RumorPacket(address, peer, rm.value)];
        }
      }
      assert l[..|l|] == l;
    }

    /** `forward`: count a hop and pass the packet to the next hop, if there is one. */
    method Forward(destination: string, hopLimit: uint32) returns (next: Option<(Address, uint32)>)
      requires Valid()
      ensures next == OnForward(Abs(), destination, hopLimit)
    {
      var left := Pred32(hopLimit);
      next := None;
      if left > 0 {
        var hop := routingTable.GetNextHop(destination);
        if hop.Some? {
          next := Some((hop.value, left));
        }
      }
    }
  }

  lemma KnownOrigins(mine: seq<PeerStatus>, own: map<string, uint32>, want: map<string, uint32>)
    requires Lists(mine, own)
    ensures forall j | 0 <= j < |Difference(mine, want)| :: Difference(mine, want)[j].identifier in own
  {
    DifferenceListsOffers(mine, own, want);
  }
}
