/** Lists of peer IDs and their printed forms (`utils.go`). */
module PeerCodec {
  import opened Common

  /** Base58 printing and reading of a peer ID, taken as given. */
  datatype Codec = Codec(encode: PeerID -> string, decode: string -> Option<PeerID>)

  ghost predicate Invertible(codec: Codec) {
    forall p: PeerID :: codec.decode(codec.encode(p)) == Some(p)
  }

  function EncodeAll(codec: Codec, peerIDs: seq<PeerID>): seq<string> {
    seq(|peerIDs|, i requires 0 <= i < |peerIDs| => codec.encode(peerIDs[i]))
  }

  function DecodeAll(codec: Codec, peers: seq<string>): Result<seq<PeerID>> {
    if peers == [] then Ok([])
    else
      match (DecodeAll(codec, peers[..|peers| - 1]), codec.decode(peers[|peers| - 1]))
      case (Ok(rest), Some(p)) => Ok(rest + [p])
      case _ => Err
  }

  /** Printing goes position by position. */
  ghost predicate PrintedAs(codec: Codec, peerIDs: seq<PeerID>, peers: seq<string>) {
    |peers| == |peerIDs| && forall i | 0 <= i < |peers| :: peers[i] == codec.encode(peerIDs[i])
  }

  ghost predicate AllReadable(codec: Codec, peers: seq<string>) {
    forall i | 0 <= i < |peers| :: codec.decode(peers[i]).Some?
  }

  /** Reading goes position by position. */
  ghost predicate ReadAs(codec: Codec, peers: seq<string>, peerIDs: seq<PeerID>) {
    |peerIDs| == |peers| && forall i | 0 <= i < |peers| :: codec.decode(peers[i]) == Some(peerIDs[i])
  }

  /** A list is read exactly if every one of its IDs can be, and then each in its place. */
  lemma {:induction false} DecodeExactly(codec: Codec, peers: seq<string>)
    ensures DecodeAll(codec, peers).Ok? <==> AllReadable(codec, peers)
    ensures DecodeAll(codec, peers).Ok? ==> ReadAs(codec, peers, DecodeAll(codec, peers).value)
  {
    if peers == [] {
    } else {
      var init := peers[..|peers| - 1];
      DecodeExactly(codec, init);
      assert forall i | 0 <= i < |init| :: init[i] == peers[i];
    }
  }

  /** What was printed can be read, and reads as what was printed. */
  lemma ReadBack(codec: Codec, peerIDs: seq<PeerID>)
    requires Invertible(codec)
    ensures AllReadable(codec, EncodeAll(codec, peerIDs))
    ensures forall read | ReadAs(codec, EncodeAll(codec, peerIDs), read) :: read == peerIDs
  {
    forall read | ReadAs(codec, EncodeAll(codec, peerIDs), read) ensures read == peerIDs {
      forall i | 0 <= i < |peerIDs| ensures read[i] == peerIDs[i] {
        assert codec.decode(EncodeAll(codec, peerIDs)[i]) == Some(read[i]);
      }
    }
  }

  lemma DecodeEncode(codec: Codec, peerIDs: seq<PeerID>)
    requires Invertible(codec)
    ensures DecodeAll(codec, EncodeAll(codec, peerIDs)) == Ok(peerIDs)
  {
    DecodeExactly(codec, EncodeAll(codec, peerIDs));
    ReadBack(codec, peerIDs);
  }

  /** `peers` prints the members of `members`, each once, in some order. */
  ghost predicate Prints(codec: Codec, peers: seq<string>, members: set<PeerID>) {
    exists peerIDs :: Distinct(peerIDs) && Elements(peerIDs) == members && peers == EncodeAll(codec, peerIDs)
  }

  method PeerIDsToPeersString(codec: Codec, peerIDs: seq<PeerID>) returns (peers: seq<string>)
    ensures peers == EncodeAll(codec, peerIDs) && PrintedAs(codec, peerIDs, peers)
  {
    peers := [];
    for i := 0 to |peerIDs|
      invariant peers == EncodeAll(codec, peerIDs[..i])
    {
      peers := peers + [codec.encode(peerIDs[i])];
    }
    assert peerIDs[..|peerIDs|] == peerIDs;
  }

  method PeersStringToPeerIDs(codec: Codec, peers: seq<string>) returns (peerIDs: Result<seq<PeerID>>)
    ensures peerIDs == DecodeAll(codec, peers)
    ensures peerIDs.Ok? <==> AllReadable(codec, peers)
    ensures peerIDs.Ok? ==> ReadAs(codec, peers, peerIDs.value)
  {
    var decoded: seq<PeerID> := [];
    for i := 0 to |peers|
      invariant ReadAs(codec, peers[..i], decoded)
    {
      var peerID := codec.decode(peers[i]);
      if peerID.None? {
        DecodeExactly(codec, peers);
        return Err;
      }
      decoded := decoded + [peerID.value];
    }
    assert peers[..|peers|] == peers;
    DecodeExactly(codec, peers);
    assert decoded == DecodeAll(codec, peers).value;
    peerIDs := Ok(decoded);
  }
}
