/** `ShardPrefTable` of `shardpreftable.go`: every known peer's shard preference. */
module PrefTable {
  import opened Common
  import opened Bitset

  /** The table with every pointer followed. */
  type Table = map<PeerID, Bytes>

  // ---------------------------------------------------------------- the operations, on values

  predicate Listening(t: Table, peerID: PeerID, shardID: int) {
    peerID in t && Testable(t[peerID], shardID) && HasBit(t[peerID], shardID)
  }

  function BitsOf(t: Table, peerID: PeerID): Bytes {
    if peerID in t then t[peerID] else EMPTY
  }

  /** The table after the call, and whether it returned nil. */
  function AddShard(t: Table, peerID: PeerID, shardID: int): (Table, bool) {
    match WithShard(BitsOf(t, peerID), shardID)
    case Err => (t, false)
    case Ok(bits) => (t[peerID := bits], true)
  }

  function RemoveShard(t: Table, peerID: PeerID, shardID: int): (Table, bool) {
    if !Listening(t, peerID, shardID) then (t, true)
    else
      match WithoutShard(t[peerID], shardID)
      case Err => (t, false)
      case Ok(bits) => (t[peerID := bits], true)
  }

  ghost function PeersInShard(t: Table, shardID: int): set<PeerID> {
    set p | p in t && Listening(t, p, shardID)
  }

  ghost predicate WellFormedTable(t: Table) {
    forall p | p in t :: WellFormed(t[p])
  }

  ghost predicate AllTestable(t: Table, shardID: int) {
    forall p | p in t :: Testable(t[p], shardID)
  }

  /** `GetPeersInShard` is the reverse of `GetPeerListeningShardSlice`. */
  lemma ReverseIndex(t: Table, peerID: PeerID, shardID: int)
    requires WellFormedTable(t) && 0 <= shardID
    ensures peerID in PeersInShard(t, shardID) <==> shardID in ShardSet(BitsOf(t, peerID))
    ensures peerID in PeersInShard(t, shardID) <==> Listening(t, peerID, shardID)
  {
    EmptyHasNoShards();
    assert WellFormed(BitsOf(t, peerID));
    HasBitIsMembership(BitsOf(t, peerID), shardID);
  }

  /** What a query may ask for: on a table with any record at all, an ID that thirteen bytes cover. */
  lemma TestableExactly(t: Table, shardID: int)
    requires WellFormedTable(t)
    ensures AllTestable(t, shardID) <==> t == map[] || Addressable(shardID)
  {
    EmptyHasNoShards();
    forall p | p in t ensures Testable(t[p], shardID) <==> Addressable(shardID) {
      ActsOnTarget(t[p], shardID);
    }
    if t != map[] {
      var p :| p in t;
    }
  }

  /** For one: asking for shard -8 panics a node that has recorded anybody. */
  lemma MinusEightPanics(t: Table)
    requires WellFormedTable(t)
    ensures AllTestable(t, -8) <==> t == map[]
  {
    TestableExactly(t, -8);
  }

  // ---------------------------------------------------------------- runs refine a table of sets

  datatype TableOp =
    | Add(peer: PeerID, shardID: int)
    | Remove(peer: PeerID, shardID: int)
    | Replace(peer: PeerID, bits: Bytes)

  type SetTable = map<PeerID, set<int>>

  function ApplyTable(t: Table, op: TableOp): Table {
    match op
    case Add(p, s) => AddShard(t, p, s).0
    case Remove(p, s) => RemoveShard(t, p, s).0
    case Replace(p, bits) => t[p := bits]
  }

  ghost function ApplySets(t: SetTable, op: TableOp): SetTable {
    match op
    case Add(p, s) => if Accepted(s) then t[p := (if p in t then t[p] else {}) + TargetSet(s)] else t
    case Remove(p, s) => if p in t then t[p := t[p] - TargetSet(s)] else t
    case Replace(p, bits) => t[p := ShardSet(bits)]
  }

  function RunTable(t: Table, ops: seq<TableOp>): Table {
    if ops == [] then t else ApplyTable(RunTable(t, ops[..|ops| - 1]), ops[|ops| - 1])
  }

  ghost function RunSets(t: SetTable, ops: seq<TableOp>): SetTable {
    if ops == [] then t else ApplySets(RunSets(t, ops[..|ops| - 1]), ops[|ops| - 1])
  }

  ghost function Sets(t: Table): SetTable {
    map p | p in t :: ShardSet(t[p])
  }

  /** What arrives from a peer is a whole bitset, and a Remove does not panic on a record. */
  ghost predicate Honest(t: Table, op: TableOp) {
    match op
    case Add(_, _) => true
    case Remove(p, s) => p in t ==> Addressable(s)
    case Replace(_, bits) => WellFormed(bits)
  }

  ghost predicate HonestOps(t: Table, ops: seq<TableOp>) {
    ops == []
    || (HonestOps(t, ops[..|ops| - 1]) && Honest(RunTable(t, ops[..|ops| - 1]), ops[|ops| - 1]))
  }

  lemma {:induction false} HonestPrefix(t: Table, ops: seq<TableOp>, i: nat)
    requires HonestOps(t, ops) && i < |ops|
    ensures HonestOps(t, ops[..i]) && Honest(RunTable(t, ops[..i]), ops[i])
  {
    var pre := ops[..|ops| - 1];
    if i == |ops| - 1 {
    } else {
      HonestPrefix(t, pre, i);
      assert pre[..i] == ops[..i];
    }
  }

  /** An Add fails, and changes nothing, exactly on IDs that `setShard` does not accept. */
  lemma AddRefines(t: Table, p: PeerID, shardID: int)
    requires WellFormedTable(t)
    ensures var (after, ok) := AddShard(t, p, shardID);
            && (ok <==> Accepted(shardID))
            && if ok then
                 && after == t[p := BitsOf(after, p)] && WellFormed(BitsOf(after, p))
                 && ShardSet(BitsOf(after, p)) == ShardSet(BitsOf(t, p)) + TargetSet(shardID)
               else after == t
  {
    EmptyHasNoShards();
    ActsOnTarget(BitsOf(t, p), shardID);
    ApplyKeepsWellFormed(BitsOf(t, p), Set(shardID));
  }

  /** A Remove that does not panic never fails; it makes no record. */
  lemma RemoveRefines(t: Table, p: PeerID, shardID: int)
    requires WellFormedTable(t) && (p in t ==> Addressable(shardID))
    ensures var (after, ok) := RemoveShard(t, p, shardID);
            && ok
            && if p in t then
                 && after == t[p := BitsOf(after, p)] && WellFormed(BitsOf(after, p))
                 && ShardSet(BitsOf(after, p)) == ShardSet(t[p]) - TargetSet(shardID)
               else after == t
  {
    if p in t {
      TargetIs(shardID);
      ActsOnTarget(t[p], shardID);
      ApplyKeepsWellFormed(t[p], Unset(shardID));
      assert t == t[p := t[p]];
    }
  }

  lemma SetsAfter(t: Table, p: PeerID, bits: Bytes)
    requires WellFormedTable(t) && WellFormed(bits)
    ensures WellFormedTable(t[p := bits]) && Sets(t[p := bits]) == Sets(t)[p := ShardSet(bits)]
  {
  }

  lemma ApplyRefines(t: Table, op: TableOp)
    requires WellFormedTable(t) && Honest(t, op)
    ensures WellFormedTable(ApplyTable(t, op))
    ensures Sets(ApplyTable(t, op)) == ApplySets(Sets(t), op)
  {
    match op
    case Add(p, s) =>
      EmptyHasNoShards();
      AddRefines(t, p, s);
      if Accepted(s) {
        SetsAfter(t, p, BitsOf(ApplyTable(t, op), p));
      }
    case Remove(p, s) =>
      if p in t {
        RemoveRefines(t, p, s);
        SetsAfter(t, p, BitsOf(ApplyTable(t, op), p));
      }
    case Replace(p, bits) =>
      SetsAfter(t, p, bits);
  }

  /** Over every sequence of calls the table of byte strings is a table of shard sets. */
  lemma {:induction false} RunRefines(t: Table, ops: seq<TableOp>)
    requires WellFormedTable(t) && HonestOps(t, ops)
    ensures WellFormedTable(RunTable(t, ops))
    ensures Sets(RunTable(t, ops)) == RunSets(Sets(t), ops)
  {
    if ops == [] {
    } else {
      RunRefines(t, ops[..|ops| - 1]);
      ApplyRefines(RunTable(t, ops[..|ops| - 1]), ops[|ops| - 1]);
    }
  }

  /** Calls about other peers leave a peer's bytes, or its absence, alone. */
  lemma {:induction false} RunFrame(t: Table, ops: seq<TableOp>, peerID: PeerID)
    requires forall op | op in ops :: op.peer != peerID
    ensures peerID in RunTable(t, ops) <==> peerID in t
    ensures peerID in t ==> RunTable(t, ops)[peerID] == t[peerID]
  {
    if ops == [] {
    } else {
      assert forall op | op in ops[..|ops| - 1] :: op in ops;
      RunFrame(t, ops[..|ops| - 1], peerID);
      assert ops[|ops| - 1] in ops;
    }
  }

  // ---------------------------------------------------------------- the mutable object

  class ShardPrefTable {
    var shardPrefMap: map<PeerID, ListeningShards>

    ghost function Arrays(): set<array<bv8>>
      reads this, shardPrefMap.Values
    {
      set p | p in shardPrefMap :: shardPrefMap[p].shardBits
    }

    /** Distinct peers share neither record nor slice. */
    ghost predicate Valid()
      reads this, shardPrefMap.Values
    {
      forall p, q | p in shardPrefMap && q in shardPrefMap && p != q ::
        shardPrefMap[p] != shardPrefMap[q] && shardPrefMap[p].shardBits != shardPrefMap[q].shardBits
    }

    ghost function View(): Table
      reads this, shardPrefMap.Values, Arrays()
    {
      map p | p in shardPrefMap :: shardPrefMap[p].shardBits[..]
    }

    /** The one slice that a local call about `peerID` may write. */
    ghost function ArrayOf(peerID: PeerID): set<array<bv8>>
      reads this, shardPrefMap.Values
    {
      if peerID in shardPrefMap then {shardPrefMap[peerID].shardBits} else {}
    }

    constructor ()
      ensures Valid() && shardPrefMap == map[] && View() == map[]
    {
      shardPrefMap := map[];
    }

    /** Nothing the table reaches changed. */
    twostate lemma ViewSame()
      requires unchanged(this)
      requires forall p | p in shardPrefMap :: unchanged(shardPrefMap[p]) && unchanged(shardPrefMap[p].shardBits)
      ensures View() == old(View())
      ensures old(Valid()) ==> Valid()
    {
      forall p | p in shardPrefMap ensures View()[p] == old(View())[p] {
        assert old(View())[p] == old(shardPrefMap[p].shardBits[..]);
      }
    }

    /** Only `peerID`'s entry or slice changed. */
    twostate lemma ViewAfter(peerID: PeerID)
      requires peerID in shardPrefMap
      requires shardPrefMap.Keys == old(shardPrefMap.Keys) + {peerID}
      requires forall q | q in old(shardPrefMap) && q != peerID ::
                 && shardPrefMap[q] == old(shardPrefMap[q]) && unchanged(shardPrefMap[q])
                 && unchanged(shardPrefMap[q].shardBits)
      ensures View() == old(View())[peerID := shardPrefMap[peerID].shardBits[..]]
    {
      ghost var expected := old(View())[peerID := shardPrefMap[peerID].shardBits[..]];
      assert View().Keys == shardPrefMap.Keys;
      assert expected.Keys == old(shardPrefMap.Keys) + {peerID};
      forall q | q in shardPrefMap ensures View()[q] == expected[q] {
        if q != peerID {
          assert old(View())[q] == old(shardPrefMap[q].shardBits[..]);
        }
      }
    }

    method IsPeerRecorded(peerID: PeerID) returns (recorded: bool)
      ensures recorded <==> peerID in shardPrefMap
    {
      recorded := peerID in shardPrefMap;
    }

    method IsPeerListeningShard(peerID: PeerID, shardID: int) returns (listening: bool)
      requires peerID in shardPrefMap ==> Testable(shardPrefMap[peerID].shardBits[..], shardID)
      ensures listening <==> Listening(View(), peerID, shardID)
      ensures 0 <= shardID ==> (listening <==> peerID in View() && shardID in ShardSet(View()[peerID]))
    {
      var recorded := IsPeerRecorded(peerID);
      if !recorded {
        return false;
      }
      var shardPref := shardPrefMap[peerID];
      listening := shardPref.IsShardSet(shardID);
    }

    method AddPeerListeningShard(peerID: PeerID, shardID: int) returns (ok: bool)
      requires Valid()
      modifies this, ArrayOf(peerID)
      ensures Valid()
      ensures View() == AddShard(old(View()), peerID, shardID).0
      ensures ok == AddShard(old(View()), peerID, shardID).1
      ensures peerID in old(shardPrefMap) ==> shardPrefMap == old(shardPrefMap)
      ensures peerID !in old(shardPrefMap) && ok ==>
                && peerID in shardPrefMap
                && shardPrefMap == old(shardPrefMap)[peerID := shardPrefMap[peerID]]
                && fresh(shardPrefMap[peerID]) && fresh(shardPrefMap[peerID].shardBits)
      ensures peerID !in old(shardPrefMap) && !ok ==> shardPrefMap == old(shardPrefMap)
    {
      var shardPref;
      if peerID in shardPrefMap {
        shardPref := shardPrefMap[peerID];
      } else {
        shardPref := new ListeningShards();
      }
      ok := shardPref.SetShard(shardID);
      if !ok {
        assert View() == old(View());
        return;
      }
      shardPrefMap := shardPrefMap[peerID := shardPref];
      ViewAfter(peerID);
    }

    method RemovePeerListeningShard(peerID: PeerID, shardID: int) returns (ok: bool)
      requires Valid()
      requires peerID in shardPrefMap ==> Testable(shardPrefMap[peerID].shardBits[..], shardID)
      modifies ArrayOf(peerID)
      ensures Valid()
      ensures View() == RemoveShard(old(View()), peerID, shardID).0
      ensures ok == RemoveShard(old(View()), peerID, shardID).1
    {
      var recorded := IsPeerRecorded(peerID);
      if !recorded {
        assert View() == old(View());
        return true;
      }
      var listening := IsPeerListeningShard(peerID, shardID);
      if !listening {
        assert View() == old(View());
        return true;
      }
      ok := shardPrefMap[peerID].UnsetShard(shardID);
      ViewAfter(peerID);
    }

    /** The live record escapes; for an unknown peer a fresh one that the table does not keep. */
    method GetPeerListeningShard(peerID: PeerID) returns (shardPref: ListeningShards)
      ensures peerID in shardPrefMap ==> shardPref == shardPrefMap[peerID]
      ensures peerID !in shardPrefMap ==> fresh(shardPref) && fresh(shardPref.shardBits)
      ensures shardPref.shardBits[..] == BitsOf(View(), peerID)
    {
      var recorded := IsPeerRecorded(peerID);
      if !recorded {
        shardPref := new ListeningShards();
      } else {
        shardPref := shardPrefMap[peerID];
      }
    }

    method GetPeerListeningShardSlice(peerID: PeerID) returns (shards: seq<int>)
      requires peerID in shardPrefMap ==> shardPrefMap[peerID].shardBits.Length >= NUM_BYTES
      ensures ListsInOrder(shards, ShardSet(BitsOf(View(), peerID)))
    {
      EmptyHasNoShards();
      var recorded := IsPeerRecorded(peerID);
      if !recorded {
        return [];
      }
      shards := shardPrefMap[peerID].GetShards();
    }

    /** Stores the pointer. The peer's own old slice may be shared again, another peer's may not. */
    method SetPeerListeningShard(peerID: PeerID, shardPref: ListeningShards)
      requires Valid()
      requires forall q | q in shardPrefMap && q != peerID ::
                 shardPrefMap[q] != shardPref && shardPrefMap[q].shardBits != shardPref.shardBits
      modifies this
      ensures Valid()
      ensures shardPrefMap == old(shardPrefMap)[peerID := shardPref]
      ensures View() == old(View())[peerID := shardPref.shardBits[..]]
    {
      shardPrefMap := shardPrefMap[peerID := shardPref];
    }

    /** Go visits a map in any order. */
    method GetPeersInShard(shardID: int) returns (peers: seq<PeerID>)
      requires AllTestable(View(), shardID)
      ensures Distinct(peers)
      ensures Elements(peers) == PeersInShard(View(), shardID)
    {
      peers := [];
      var rest := shardPrefMap.Keys;
      ghost var view := View();
      while rest != {}
        invariant rest <= shardPrefMap.Keys && View() == view
        invariant Distinct(peers)
        invariant Elements(peers) == set p | p in shardPrefMap && p !in rest && Listening(view, p, shardID)
        decreases rest
      {
        var peerID :| peerID in rest;
        assert peerID in view && Testable(view[peerID], shardID);
        var isSet := shardPrefMap[peerID].IsShardSet(shardID);
        if isSet {
          assert forall i | 0 <= i < |peers| :: peers[i] in Elements(peers);
          ElementsAppend(peers, peerID);
          peers := peers + [peerID];
        }
        rest := rest - {peerID};
      }
    }

    /** Any sequence of calls on the shared records is the sequence on a table of shard sets. What a
        peer sends arrives in a slice of its own. */
    method Play(ops: seq<TableOp>)
      requires Valid() && WellFormedTable(View()) && HonestOps(View(), ops)
      modifies this, Arrays()
      ensures Valid() && WellFormedTable(View())
      ensures View() == RunTable(old(View()), ops)
      ensures Sets(View()) == RunSets(Sets(old(View())), ops)
    {
      ghost var start := View();
      for i := 0 to |ops|
        invariant Valid() && View() == RunTable(start, ops[..i])
        invariant forall a | a in Arrays() :: a in old(Arrays()) || fresh(a)
      {
        assert ops[..i + 1][..i] == ops[..i];
        HonestPrefix(start, ops, i);
        RunRefines(start, ops[..i]);
        PlayOne(ops[i]);
      }
      assert ops[..|ops|] == ops;
      RunRefines(start, ops);
    }

    method PlayOne(op: TableOp)
      requires Valid() && WellFormedTable(View()) && Honest(View(), op)
      modifies this, ArrayOf(op.peer)
      ensures Valid() && View() == ApplyTable(old(View()), op)
      ensures forall a | a in Arrays() :: a in old(Arrays()) || fresh(a)
    {
      match op
      case Add(peer, shardID) =>
        var _ := AddPeerListeningShard(peer, shardID);
      case Remove(peer, shardID) =>
        assert peer in shardPrefMap ==> WellFormed(View()[peer]);
        EmptyHasNoShards();
        ActsOnTarget(BitsOf(View(), peer), shardID);
        var _ := RemovePeerListeningShard(peer, shardID);
      case Replace(peer, bits) =>
        ReplaceBits(peer, bits);
    }

    method ReplaceBits(peerID: PeerID, bits: Bytes)
      requires Valid()
      modifies this
      ensures Valid() && View() == old(View())[peerID := bits]
      ensures forall a | a in Arrays() :: a in old(Arrays()) || fresh(a)
    {
      var data := new bv8[|bits|](i requires 0 <= i < |bits| => bits[i]);
      assert data[..] == bits;
      var shardPref := new ListeningShards();
      shardPref.FromBytes(data);
      SetPeerListeningShard(peerID, shardPref);
      ViewAfter(peerID);
    }
  }
}
