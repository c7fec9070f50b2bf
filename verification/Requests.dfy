/** The shard-peer query of `requests.go`: one peer asks another whom it knows in some shards. */
module Requests {
  import opened Common
  import opened PrefTable
  import opened PeerCodec

  /** The responder. The response maps every requested shard to printed peer IDs. */
  method OnShardPeerRequest(table: ShardPrefTable, shardIDs: seq<int>, codec: Codec)
    returns (response: map<int, seq<string>>)
    requires forall s | s in shardIDs :: AllTestable(table.View(), s)
    ensures response.Keys == Elements(shardIDs)
    ensures forall s | s in response :: Prints(codec, response[s], PeersInShard(table.View(), s))
  {
    response := map[];
    ghost var view := table.View();
    for i := 0 to |shardIDs|
      invariant table.View() == view
      invariant response.Keys == Elements(shardIDs[..i])
      invariant forall s | s in response :: Prints(codec, response[s], PeersInShard(view, s))
    {
      var shardID := shardIDs[i];
      assert shardID in shardIDs;
      var peerIDs := table.GetPeersInShard(shardID);
      var peers := PeerIDsToPeersString(codec, peerIDs);
      assert Prints(codec, peers, PeersInShard(view, shardID));
      assert shardIDs[..i + 1] == shardIDs[..i] + [shardID];
      ElementsAppend(shardIDs[..i], shardID);
      response := response[shardID := peers];
    }
    assert shardIDs[..|shardIDs|] == shardIDs;
  }

  /** The requester's side once the response is in. Go visits the response in any order; whatever
      the order, one unreadable peer ID fails the whole query. */
  method DecodeResponse(response: map<int, seq<string>>, codec: Codec)
    returns (shardPeers: Result<map<int, seq<PeerID>>>)
    ensures shardPeers.Ok? <==> forall s | s in response :: AllReadable(codec, response[s])
    ensures shardPeers.Ok? ==>
              && shardPeers.value.Keys == response.Keys
              && forall s | s in response :: ReadAs(codec, response[s], shardPeers.value[s])
  {
    var decoded: map<int, seq<PeerID>> := map[];
    var rest: set<int> := response.Keys;
    while rest != {}
      invariant decoded.Keys + rest == response.Keys && decoded.Keys !! rest
      invariant forall s | s in decoded :: AllReadable(codec, response[s]) && ReadAs(codec, response[s], decoded[s])
      decreases rest
    {
      var shardID := Pick(rest);
      var peerIDs := PeersStringToPeerIDs(codec, response[shardID]);
      if peerIDs.Err? {
        return Err;
      }
      decoded := decoded[shardID := peerIDs.value];
      rest := rest - {shardID};
    }
    assert decoded.Keys == response.Keys;
    shardPeers := Ok(decoded);
  }

  /** `requestShardPeer` against a responder: the answer has exactly the requested shards, and for
      each of them exactly the peers that the responder knows there, none twice. */
  method RequestShardPeer(responder: ShardPrefTable, shardIDs: seq<int>, codec: Codec)
    returns (shardPeers: Result<map<int, seq<PeerID>>>)
    requires Invertible(codec) && forall s | s in shardIDs :: AllTestable(responder.View(), s)
    ensures shardPeers.Ok? && shardPeers.value.Keys == Elements(shardIDs)
    ensures forall s | s in shardIDs ::
              Distinct(shardPeers.value[s]) && Elements(shardPeers.value[s]) == PeersInShard(responder.View(), s)
  {
    ghost var view := responder.View();
    var response := OnShardPeerRequest(responder, shardIDs, codec);
    responder.ViewSame();
    forall s | s in response
      ensures AllReadable(codec, response[s])
      ensures forall read | ReadAs(codec, response[s], read) ::
                Distinct(read) && Elements(read) == PeersInShard(view, s)
    {
      var peerIDs :| Distinct(peerIDs) && Elements(peerIDs) == PeersInShard(view, s)
                     && response[s] == EncodeAll(codec, peerIDs);
      ReadBack(codec, peerIDs);
    }
    shardPeers := DecodeResponse(response, codec);
    responder.ViewSame();
    forall s | s in shardIDs ensures s in shardPeers.value { assert s in Elements(shardIDs); }
  }
}
