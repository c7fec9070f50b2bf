/** The pubsub service as the node sees it, and `GlobalTable` of `discovery.go`. */
module Discovery {
  import opened Common
  import opened Bitset
  import opened PrefTable
  import opened Topics
  import opened NodeModel

  /** libp2p's pubsub service. Whether it accepts is the caller's parameter. Messages to other nodes
      carry a copy; the node's own copy of a message is the very slice that was published. */
  class PubSub {
    var inFlight: seq<array<bv8>>   // own messages waiting for local delivery
    var wire: seq<Bytes>            // what other nodes receive
    var topics: seq<string>         // every subscription ever created
    var cancels: seq<nat>

    constructor ()
      ensures inFlight == [] && wire == [] && topics == [] && cancels == []
    {
      inFlight, wire, topics, cancels := [], [], [], [];
    }

    method Publish(data: array<bv8>, accepted: bool)
      modifies `inFlight, `wire
      ensures inFlight == if accepted then old(inFlight) + [data] else old(inFlight)
      ensures wire == if accepted then old(wire) + [data[..]] else old(wire)
    {
      if accepted {
        inFlight := inFlight + [data];
        wire := wire + [data[..]];
      }
    }

    method Subscribe(topic: string) returns (id: nat)
      modifies `topics, `cancels
      ensures id == |old(topics)|
      ensures topics == old(topics) + [topic] && cancels == old(cancels) + [0]
    {
      id := |topics|;
      topics := topics + [topic];
      cancels := cancels + [0];
    }

    method Cancel(id: nat)
      requires id < |cancels|
      modifies `cancels
      ensures cancels == old(cancels)[id := old(cancels)[id] + 1]
    {
      cancels := cancels[id := cancels[id] + 1];
    }
  }

  class GlobalTable {
    const hostID: PeerID
    const pubsubService: PubSub
    const shardPrefTable: ShardPrefTable

    constructor (hostID: PeerID, pubsubService: PubSub, shardPrefTable: ShardPrefTable)
      ensures this.hostID == hostID && this.pubsubService == pubsubService && this.shardPrefTable == shardPrefTable
    {
      this.hostID, this.pubsubService, this.shardPrefTable := hostID, pubsubService, shardPrefTable;
    }

    /** How a local call may move the table's pointers: not at all, or a fresh record for this host. */
    twostate predicate OnlyOwnRecordAdded()
      reads shardPrefTable, shardPrefTable.shardPrefMap.Values
    {
      var before, after := old(shardPrefTable.shardPrefMap), shardPrefTable.shardPrefMap;
      if hostID in before || hostID !in after then after == before
      else fresh(after[hostID]) && fresh(after[hostID].shardBits) && after == before[hostID := after[hostID]]
    }

    /** Testing this host's record, if it has one, does not panic. */
    ghost predicate OwnTestable(shardID: int)
      reads shardPrefTable, shardPrefTable.shardPrefMap.Values, shardPrefTable.Arrays()
    {
      hostID in shardPrefTable.shardPrefMap ==> Testable(shardPrefTable.shardPrefMap[hostID].shardBits[..], shardID)
    }

    /** The first half of Advertise. */
    method Toggle(shardID: int) returns (ok: bool)
      requires shardPrefTable.Valid() && OwnTestable(shardID)
      modifies shardPrefTable, shardPrefTable.ArrayOf(hostID)
      ensures shardPrefTable.Valid()
      ensures shardPrefTable.View() == Toggled(hostID, old(shardPrefTable.View()), shardID).0
      ensures ok == Toggled(hostID, old(shardPrefTable.View()), shardID).1
      ensures OnlyOwnRecordAdded()
      ensures ok ==> hostID in shardPrefTable.shardPrefMap
    {
      var listening := shardPrefTable.IsPeerListeningShard(hostID, shardID);
      assert shardPrefTable.View() == old(shardPrefTable.View());
      if listening {
        ok := shardPrefTable.RemovePeerListeningShard(hostID, shardID);
      } else {
        ok := shardPrefTable.AddPeerListeningShard(hostID, shardID);
      }
    }

    /** The second half: publish the live slice. */
    method PublishOwn(publishOk: bool)
      requires hostID in shardPrefTable.shardPrefMap
      modifies pubsubService`inFlight, pubsubService`wire
      ensures shardPrefTable.View() == old(shardPrefTable.View())
      ensures pubsubService.wire ==
              if publishOk then old(pubsubService.wire) + [BitsOf(shardPrefTable.View(), hostID)]
              else old(pubsubService.wire)
      ensures pubsubService.inFlight ==
              if publishOk then old(pubsubService.inFlight) + [shardPrefTable.shardPrefMap[hostID].shardBits]
              else old(pubsubService.inFlight)
    {
      var own := shardPrefTable.GetPeerListeningShard(hostID);
      var selfListeningShards := own.ToBytes();
      assert selfListeningShards[..] == BitsOf(shardPrefTable.View(), hostID);
      pubsubService.Publish(selfListeningShards, publishOk);
    }

    /** Toggle, then publish the live slice. */
    method Advertise(topic: string, publishOk: bool) returns (ok: bool)
      requires shardPrefTable.Valid() && (ParseInt(topic).Ok? ==> OwnTestable(ParseInt(topic).value))
      modifies shardPrefTable, shardPrefTable.ArrayOf(hostID), pubsubService`inFlight, pubsubService`wire
      ensures shardPrefTable.Valid()
      ensures var (table, wire, nil) :=
                Advertised(hostID, old(shardPrefTable.View()), old(pubsubService.wire), topic, publishOk);
              shardPrefTable.View() == table && pubsubService.wire == wire && ok == nil
      ensures OnlyOwnRecordAdded()
      ensures ok ==> hostID in shardPrefTable.shardPrefMap
      ensures pubsubService.inFlight ==
              if ok then old(pubsubService.inFlight) + [shardPrefTable.shardPrefMap[hostID].shardBits]
              else old(pubsubService.inFlight)
    {
      var parsed := ParseInt(topic);
      if parsed.Err? {
        assert shardPrefTable.View() == old(shardPrefTable.View());
        return false;
      }
      ok := Toggle(parsed.value);
      if !ok {
        return;
      }
      PublishOwn(publishOk);
      ok := publishOk;
    }

    /** The other peers that listen to the topic's shard, each once. */
    method FindPeers(topic: string) returns (found: Result<seq<PeerID>>)
      requires ParseInt(ShardTopicToShardID(topic)).Ok? ==>
                 AllTestable(shardPrefTable.View(), ParseInt(ShardTopicToShardID(topic)).value)
      ensures found.Ok? <==> ParseInt(ShardTopicToShardID(topic)).Ok?
      ensures found.Ok? ==>
                && Distinct(found.value)
                && Elements(found.value) ==
                   PeersInShard(shardPrefTable.View(), ParseInt(ShardTopicToShardID(topic)).value) - {hostID}
    {
      var parsed := ParseInt(ShardTopicToShardID(topic));
      if parsed.Err? {
        return Err;
      }
      ghost var view := shardPrefTable.View();
      var peerIDs := shardPrefTable.GetPeersInShard(parsed.value);
      assert shardPrefTable.View() == view;
      var pinfos: seq<PeerID> := [];
      for i := 0 to |peerIDs|
        invariant Distinct(pinfos)
        invariant Elements(pinfos) == Elements(peerIDs[..i]) - {hostID}
      {
        assert peerIDs[..i + 1] == peerIDs[..i] + [peerIDs[i]];
        ElementsAppend(peerIDs[..i], peerIDs[i]);
        if peerIDs[i] == hostID {
          continue;
        }
        assert forall k | 0 <= k < |pinfos| :: pinfos[k] in Elements(pinfos);
        assert forall k | 0 <= k < i :: peerIDs[..i][k] == peerIDs[k];
        ElementsAppend(pinfos, peerIDs[i]);
        pinfos := pinfos + [peerIDs[i]];
      }
      assert peerIDs[..|peerIDs|] == peerIDs;
      found := Ok(pinfos);
    }
  }
}
