/** `ShardManager` of `shardmanager.go`: one node's shards, subscriptions and preference handler. */
module ShardManager {
  import opened Common
  import opened Bitset
  import opened PrefTable
  import opened Topics
  import opened Discovery
  import opened PeerSelection
  import Model = NodeModel
  import Runs = NodeRuns

  method InShards(shardID: int, shards: seq<int>) returns (found: bool)
    ensures found <==> shardID in shards
  {
    for i := 0 to |shards|
      invariant shardID !in shards[..i]
    {
      if shards[i] == shardID {
        return true;
      }
    }
    found := false;
  }

  class ShardManager {
    const hostID: PeerID
    const pubsubService: PubSub
    const shardPrefTable: ShardPrefTable
    const discovery: GlobalTable
    var subs: map<string, nat>

    ghost function View(): Model.NodeState
      reads this, pubsubService, shardPrefTable, shardPrefTable.shardPrefMap.Values, shardPrefTable.Arrays()
    {
      Model.NodeState(hostID, shardPrefTable.View(), pubsubService.wire, subs, pubsubService.topics,
                      pubsubService.cancels)
    }

    /** Every own message still in flight is the slice of the node's own table entry. */
    ghost predicate OwnMessagesShared()
      reads pubsubService, shardPrefTable, shardPrefTable.shardPrefMap.Values
    {
      forall a | a in pubsubService.inFlight ::
        hostID in shardPrefTable.shardPrefMap && a == shardPrefTable.shardPrefMap[hostID].shardBits
    }

    ghost predicate Valid()
      reads this, pubsubService, shardPrefTable, shardPrefTable.shardPrefMap.Values, shardPrefTable.Arrays()
    {
      && discovery.hostID == hostID && discovery.pubsubService == pubsubService
      && discovery.shardPrefTable == shardPrefTable
      && shardPrefTable.Valid()
      && Model.ValidNode(View())
      && OwnMessagesShared()
    }

    /** NewNode and NewShardManager: everything empty but the preference subscription. */
    constructor (hostID: PeerID)
      ensures this.hostID == hostID && Valid() && Model.Fresh(View())
      ensures fresh(pubsubService) && fresh(shardPrefTable)
    {
      var pubsub := new PubSub();
      var table := new ShardPrefTable();
      var globalTable := new GlobalTable(hostID, pubsub, table);
      this.hostID, pubsubService, shardPrefTable, discovery := hostID, pubsub, table, globalTable;
      subs := map[];
      new;
      var _ := SubscribeTopic(LISTENING_SHARD_TOPIC, true);
    }

    // -------------------------------------------------------------- subscriptions

    method SubscribeTopic(topic: string, subscribeOk: bool) returns (ok: bool)
      modifies `subs, pubsubService`topics, pubsubService`cancels
      ensures View() == Model.SubscribeTopic(old(View()), topic, subscribeOk).0
      ensures ok == subscribeOk
      ensures shardPrefTable.View() == old(shardPrefTable.View())
    {
      if !subscribeOk {
        return false;
      }
      var id := pubsubService.Subscribe(topic);
      subs := subs[topic := id];
      ok := true;
    }

    method UnsubscribeTopic(topic: string)
      requires topic in subs ==> subs[topic] < |pubsubService.cancels|
      modifies `subs, pubsubService`topics, pubsubService`cancels
      ensures View() == Model.UnsubscribeTopic(old(View()), topic)
      ensures shardPrefTable.View() == old(shardPrefTable.View())
    {
      if topic !in subs {
        return;
      }
      pubsubService.Cancel(subs[topic]);
      subs := subs - {topic};
    }

    method SubscribeCollation(shardID: int, subscribeOk: bool) returns (ok: bool)
      requires Valid()
      modifies `subs, pubsubService`topics, pubsubService`cancels
      ensures Valid()
      ensures View() == Model.SubscribeTopic(old(View()), CollationsTopic(shardID), subscribeOk).0
      ensures OwnSlice() == old(OwnSlice())
      ensures ok == subscribeOk
    {
      Runs.SubscribeKeepsValid(View(), CollationsTopic(shardID), subscribeOk);
      ok := SubscribeTopic(CollationsTopic(shardID), subscribeOk);
    }

    method UnsubscribeCollation(shardID: int)
      requires Valid()
      modifies `subs, pubsubService`topics, pubsubService`cancels
      ensures Valid()
      ensures View() == Model.UnsubscribeTopic(old(View()), CollationsTopic(shardID))
      ensures OwnSlice() == old(OwnSlice())
    {
      Runs.UnsubscribeKeepsValid(View(), CollationsTopic(shardID));
      UnsubscribeTopic(CollationsTopic(shardID));
    }

    method IsCollationSubscribed(shardID: int) returns (subscribed: bool)
      ensures subscribed <==> Model.IsCollationSubscribed(View(), shardID)
    {
      subscribed := CollationsTopic(shardID) in subs;
    }

    // -------------------------------------------------------------- preferences

    method GetListeningShards() returns (shards: seq<int>)
      requires Valid()
      ensures ListsInOrder(shards, ShardSet(Model.Own(View())))
    {
      assert hostID in shardPrefTable.shardPrefMap ==> WellFormed(View().table[hostID]);
      shards := shardPrefTable.GetPeerListeningShardSlice(hostID);
    }

    method IsShardListened(shardID: int) returns (listened: bool)
      requires Valid()
      ensures listened <==> Model.IsShardListened(View(), shardID)
    {
      var shards := GetListeningShards();
      listened := InShards(shardID, shards);
      assert shardID in shards <==> shardID in Elements(shards);
    }

    /** The preference handler: the new record takes over the message's slice. */
    method HandlePreference(from: PeerID, data: array<bv8>)
      requires shardPrefTable.Valid()
      requires forall q | q in shardPrefTable.shardPrefMap && q != from ::
               shardPrefTable.shardPrefMap[q].shardBits != data
      modifies shardPrefTable
      ensures shardPrefTable.Valid()
      ensures shardPrefTable.View() == old(shardPrefTable.View())[from := data[..]]
      ensures from in shardPrefTable.shardPrefMap && shardPrefTable.shardPrefMap[from].shardBits == data
      ensures shardPrefTable.shardPrefMap == old(shardPrefTable.shardPrefMap)[from := shardPrefTable.shardPrefMap[from]]
    {
      var shardPref := new ListeningShards();
      shardPref.FromBytes(data);
      shardPrefTable.SetPeerListeningShard(from, shardPref);
      shardPrefTable.ViewAfter(from);
    }

    /** Delivery of another node's message, decoded into a slice that nothing here refers to. */
    method ReceivePreference(from: PeerID, data: array<bv8>)
      requires Valid() && from != hostID && WellFormed(data[..])
      requires data !in shardPrefTable.Arrays()
      modifies shardPrefTable
      ensures Valid()
      ensures View() == Model.ReceivePreference(old(View()), from, data[..])
    {
      HandlePreference(from, data);
    }

    /** Delivery of one of the node's own messages, however late and in whatever order: the message
        is the live slice, so nothing changes. */
    method ReceiveOwn(message: nat)
      requires Valid() && message < |pubsubService.inFlight|
      modifies shardPrefTable
      ensures Valid()
      ensures View() == old(View())
      ensures hostID in shardPrefTable.shardPrefMap && hostID in old(shardPrefTable.shardPrefMap)
      ensures shardPrefTable.shardPrefMap[hostID].shardBits == old(shardPrefTable.shardPrefMap[hostID].shardBits)
    {
      var data := pubsubService.inFlight[message];
      assert data in pubsubService.inFlight;
      HandlePreference(hostID, data);
      assert shardPrefTable.View() == old(shardPrefTable.View());
    }

    // -------------------------------------------------------------- listening

    ghost function OwnSlice(): Option<array<bv8>>
      reads shardPrefTable, shardPrefTable.shardPrefMap.Values
    {
      if hostID in shardPrefTable.shardPrefMap then Some(shardPrefTable.shardPrefMap[hostID].shardBits) else None
    }

    /** The own messages waiting for delivery: one more, on the live slice, if this call published. */
    twostate predicate OwnMessageQueued(published: bool)
      reads pubsubService, shardPrefTable, shardPrefTable.shardPrefMap.Values
    {
      if published then
        OwnSlice().Some? && pubsubService.inFlight == old(pubsubService.inFlight) + [OwnSlice().value]
      else pubsubService.inFlight == old(pubsubService.inFlight)
    }

    lemma OwnIsTestable(shardID: int)
      requires Valid() && (hostID in View().table ==> Addressable(shardID))
      ensures discovery.OwnTestable(shardID)
    {
      if hostID in shardPrefTable.shardPrefMap {
        assert WellFormed(View().table[hostID]);
        ActsOnTarget(View().table[hostID], shardID);
      }
    }

    /** `discovery.Advertise` seen from the node. */
    method AdvertiseShard(shardID: int, publishOk: bool) returns (ok: bool)
      requires Valid() && IsInt64(shardID) && (hostID in View().table ==> Addressable(shardID))
      modifies shardPrefTable, shardPrefTable.ArrayOf(hostID), pubsubService`inFlight, pubsubService`wire
      ensures Valid()
      ensures View() == Model.Advertise(old(View()), shardID, publishOk).0
      ensures ok == Model.Advertise(old(View()), shardID, publishOk).1
      ensures discovery.OnlyOwnRecordAdded() && OwnMessageQueued(ok)
    {
      ParseFormat(shardID);
      OwnIsTestable(shardID);
      Runs.AdvertiseKeepsValid(View(), shardID, publishOk);
      ok := discovery.Advertise(FormatInt(shardID), publishOk);
    }

    /** Past its announcement a call may look its ID up in every record. */
    lemma AdvertisedIsTestable(before: Model.NodeState, shardID: int, publishOk: bool)
      requires Valid() && IsInt64(shardID) && WellFormedTable(before.table)
      requires Model.Advertise(before, shardID, publishOk).1
      ensures AllTestable(shardPrefTable.View(), shardID)
    {
      Model.AdvertiseActsOnTarget(before, shardID, publishOk);
      forall p | p in shardPrefTable.View() ensures Testable(shardPrefTable.View()[p], shardID) {
        ActsOnTarget(View().table[p], shardID);
      }
    }

    /** The other nodes that listen to a shard, as the table has it. */
    ghost function OtherListeners(shardID: int): set<PeerID>
      reads shardPrefTable, shardPrefTable.shardPrefMap.Values, shardPrefTable.Arrays()
    {
      PeersInShard(shardPrefTable.View(), shardID) - {hostID}
    }

    /** Chooses among the other listeners of the shard and dials those it has no link to. `connected`
        is what the pubsub service lists for the shard's topic, `linked` whoever has a connection. */
    method ConnectShardNodes(numShardPeerToConnect: int, shardID: int, connected: seq<PeerID>, linked: set<PeerID>)
      returns (chosen: seq<PeerID>, dialled: seq<PeerID>)
      requires Valid() && IsInt64(shardID)
      requires |Elements(connected)| < numShardPeerToConnect ==>
                 |connected| <= numShardPeerToConnect && AllTestable(shardPrefTable.View(), shardID)
      ensures Connects(numShardPeerToConnect, OtherListeners(shardID), connected, linked, chosen, dialled)
      ensures Distinct(connected) && |connected| < numShardPeerToConnect ==>
                |connected| + |chosen| ==
                Min(numShardPeerToConnect, |Elements(connected) + OtherListeners(shardID)|)
    {
      ghost var others := OtherListeners(shardID);
      var mapConnected := MapConnected(connected);
      if |mapConnected| >= numShardPeerToConnect {
        DistinctSize(connected);
        assert PicksAt([], [], []);
        return [], [];
      }
      var found := FindOtherListeners(shardID);
      shardPrefTable.ViewSame();
      assert Elements(found) == others;
      chosen, dialled := ChooseAndDial(connected, found, numShardPeerToConnect, linked);
      shardPrefTable.ViewSame();
      assert OtherListeners(shardID) == others;
    }

    method FindOtherListeners(shardID: int) returns (found: seq<PeerID>)
      requires Valid() && IsInt64(shardID) && AllTestable(shardPrefTable.View(), shardID)
      ensures Distinct(found) && Elements(found) == OtherListeners(shardID)
    {
      TopicRoundTrip(shardID);
      var result := discovery.FindPeers(FormatInt(shardID));
      shardPrefTable.ViewSame();
      found := result.value;
    }

    /** How ListenShard and UnlistenShard begin: the early return if the node already listens, or already
        does not, and then the announcement. */
    method AdvertiseUnless(listening: bool, shardID: int, publishOk: bool) returns (skipped: bool, ok: bool)
      requires Valid() && IsInt64(shardID)
      requires Model.IsShardListened(View(), shardID) != listening && hostID in View().table ==> Addressable(shardID)
      modifies shardPrefTable, shardPrefTable.ArrayOf(hostID), pubsubService`inFlight, pubsubService`wire
      ensures Valid()
      ensures skipped <==> (Model.IsShardListened(old(View()), shardID) == listening)
      ensures View() == if skipped then old(View()) else Model.Advertise(old(View()), shardID, publishOk).0
      ensures !skipped ==> ok == Model.Advertise(old(View()), shardID, publishOk).1
      ensures !skipped && ok ==> AllTestable(shardPrefTable.View(), shardID)
      ensures discovery.OnlyOwnRecordAdded() && OwnMessageQueued(!skipped && ok)
    {
      var listened := IsShardListened(shardID);
      shardPrefTable.ViewSame();
      if listened == listening {
        return true, true;
      }
      skipped := false;
      ok := AdvertiseShard(shardID, publishOk);
      if ok {
        AdvertisedIsTestable(old(View()), shardID, publishOk);
      }
    }

    method ListenShard(numShardPeerToConnect: int, shardID: int, env: Model.Env,
                       connected: seq<PeerID>, linked: set<PeerID>)
      returns (ok: bool, chosen: seq<PeerID>, dialled: seq<PeerID>)
      requires Valid() && Model.HonestCall(View(), Model.Listen(shardID, env))
      requires |Elements(connected)| < numShardPeerToConnect ==> |connected| <= numShardPeerToConnect
      modifies `subs, pubsubService, shardPrefTable, shardPrefTable.ArrayOf(hostID)
      ensures Valid()
      ensures View() == Model.Step(old(View()), Model.Listen(shardID, env)).0
      ensures ok <==> !Model.Step(old(View()), Model.Listen(shardID, env)).1.Failed?
      ensures discovery.OnlyOwnRecordAdded()
      ensures OwnMessageQueued(Model.Announces(old(View()), Model.Listen(shardID, env)))
      ensures if Model.Announces(old(View()), Model.Listen(shardID, env))
              then Connects(numShardPeerToConnect, OtherListeners(shardID), connected, linked, chosen, dialled)
              else chosen == [] && dialled == []
    {
      var skipped, advertised := AdvertiseUnless(true, shardID, env.publishOk);
      ok, chosen, dialled := skipped || advertised, [], [];
      if !skipped && advertised {
        ok, chosen, dialled :=
          ConnectAndSubscribe(numShardPeerToConnect, shardID, env.subscribeOk, connected, linked);
      }
    }

    /** The rest of ListenShard: its dialling fails silently, its subscription does not. */
    method ConnectAndSubscribe(numShardPeerToConnect: int, shardID: int, subscribeOk: bool,
                               connected: seq<PeerID>, linked: set<PeerID>)
      returns (ok: bool, chosen: seq<PeerID>, dialled: seq<PeerID>)
      requires Valid() && IsInt64(shardID) && AllTestable(shardPrefTable.View(), shardID)
      requires |Elements(connected)| < numShardPeerToConnect ==> |connected| <= numShardPeerToConnect
      modifies `subs, pubsubService`topics, pubsubService`cancels
      ensures Valid()
      ensures View() == Model.SubscribeTopic(old(View()), CollationsTopic(shardID), subscribeOk).0
      ensures Connects(numShardPeerToConnect, OtherListeners(shardID), connected, linked, chosen, dialled)
      ensures OwnSlice() == old(OwnSlice())
      ensures ok == subscribeOk
    {
      ghost var others := OtherListeners(shardID);
      chosen, dialled := ConnectShardNodes(numShardPeerToConnect, shardID, connected, linked);
      shardPrefTable.ViewSame();
      ok := SubscribeCollation(shardID, subscribeOk);
      shardPrefTable.ViewSame();
      assert OtherListeners(shardID) == others;
    }

    method UnlistenShard(shardID: int, env: Model.Env) returns (ok: bool)
      requires Valid() && IsInt64(shardID)
      modifies `subs, pubsubService, shardPrefTable, shardPrefTable.ArrayOf(hostID)
      ensures Valid()
      ensures View() == Model.Step(old(View()), Model.Unlisten(shardID, env)).0
      ensures ok <==> !Model.Step(old(View()), Model.Unlisten(shardID, env)).1.Failed?
      ensures discovery.OnlyOwnRecordAdded()
      ensures OwnMessageQueued(Model.Announces(old(View()), Model.Unlisten(shardID, env)))
    {
      Model.ListenedIsAddressable(View(), shardID);
      var skipped, advertised := AdvertiseUnless(false, shardID, env.publishOk);
      ok := skipped || advertised;
      if !skipped && advertised {
        UnsubscribeCollation(shardID);
      }
    }
  }
}
