/** `AddPeerListeningShard` and `RemovePeerListeningShard` release the table lock between reading a
    pointer, updating a byte and storing the pointer (`shardpreftable.go`). Here every such section
    is one step, any number of calls run at once, and pointers are explicit: a table maps a peer to
    a record, a record to a slice. Updating one byte is one step. */
module Interleavings {
  import opened Common
  import opened Bitset
  import PrefTable

  datatype Kind = AddShard | RemoveShard

  datatype Call = Call(kind: Kind, peer: PeerID, shardID: int)

  /** How far a call has come. */
  datatype Stage =
    | Start
    | HasRecord(record: nat)      // Add: pointer read, or a record allocated
    | BitWritten(record: nat)     // Add: byte updated, pointer still to be stored
    | FoundRecorded               // Remove: its own isPeerRecorded
    | FoundRecordedAgain          // Remove: the isPeerRecorded inside IsPeerListeningShard
    | Testing(record: nat)        // Remove: pointer read, bit still to be tested
    | MustUnset                   // Remove: the bit was seen set
    | Returned

  /** A published preference on its way back to the publisher: the live slice, not a copy. */
  datatype Message = Message(peer: PeerID, slice: nat)

  datatype State = State(
    slices: seq<Bytes>,
    records: seq<nat>,
    table: map<PeerID, nat>,
    stages: seq<Stage>,
    inFlight: seq<Message>)

  datatype Event =
    | Advance(call: nat)
    | Publish(peer: PeerID)
    | DeliverOwn(message: nat)
    | Receive(peer: PeerID, bits: Bytes)   // a remote preference: a slice of its own

  predicate StageClosed(records: nat, table: map<PeerID, nat>, call: Call, stage: Stage) {
    match stage
    case Start | Returned => true
    case HasRecord(r) => r < records
    case BitWritten(r) => r < records
    case Testing(r) => r < records && call.peer in table
    case FoundRecorded | FoundRecordedAgain | MustUnset => call.peer in table
  }

  /** No dangling pointers. */
  predicate Closed(calls: seq<Call>, s: State) {
    && (forall r | 0 <= r < |s.records| :: s.records[r] < |s.slices|)
    && (forall p | p in s.table :: s.table[p] < |s.records|)
    && |s.stages| == |calls|
    && (forall i | 0 <= i < |calls| :: StageClosed(|s.records|, s.table, calls[i], s.stages[i]))
    && (forall m | 0 <= m < |s.inFlight| :: s.inFlight[m].slice < |s.slices|)
  }

  function SliceOf(s: State, peer: PeerID): nat
    requires peer in s.table && s.table[peer] < |s.records|
  {
    s.records[s.table[peer]]
  }

  /** Store a new record for `peer` that points at `slice`. */
  function Repoint(calls: seq<Call>, s: State, peer: PeerID, slice: nat): (after: State)
    requires Closed(calls, s) && slice < |s.slices|
    ensures Closed(calls, after)
  {
    s.(records := s.records + [slice], table := s.table[peer := |s.records|])
  }

  function Write(s: State, slice: nat, after: Result<Bytes>): State
    requires slice < |s.slices|
  {
    if after.Ok? then s.(slices := s.slices[slice := after.value]) else s
  }

  function AdvanceAdd(calls: seq<Call>, s: State, i: nat): (after: State)
    requires Closed(calls, s) && i < |calls|
    ensures Closed(calls, after)
  {
    var call := calls[i];
    match s.stages[i]
    case Start =>
      if call.peer in s.table then s.(stages := s.stages[i := HasRecord(s.table[call.peer])])
      else
        s.(slices := s.slices + [EMPTY], records := s.records + [|s.slices|],
           stages := s.stages[i := HasRecord(|s.records|)])
    case HasRecord(r) =>
      var after := WithShard(s.slices[s.records[r]], call.shardID);
      Write(s, s.records[r], after).(stages := s.stages[i := if after.Ok? then BitWritten(r) else Returned])
    case BitWritten(r) => s.(table := s.table[call.peer := r], stages := s.stages[i := Returned])
    case _ => s
  }

  function AdvanceRemove(calls: seq<Call>, s: State, i: nat): (after: State)
    requires Closed(calls, s) && i < |calls|
    ensures Closed(calls, after)
  {
    var call := calls[i];
    match s.stages[i]
    case Start => s.(stages := s.stages[i := if call.peer in s.table then FoundRecorded else Returned])
    case FoundRecorded => s.(stages := s.stages[i := FoundRecordedAgain])
    case FoundRecordedAgain => s.(stages := s.stages[i := Testing(s.table[call.peer])])
    case Testing(r) =>
      var bits := s.slices[s.records[r]];
      var listening := Testable(bits, call.shardID) && HasBit(bits, call.shardID);
      s.(stages := s.stages[i := if listening then MustUnset else Returned])
    case MustUnset =>
      var slice := SliceOf(s, call.peer);
      Write(s, slice, WithoutShard(s.slices[slice], call.shardID)).(stages := s.stages[i := Returned])
    case _ => s
  }

  function Next(calls: seq<Call>, s: State, e: Event): (after: State)
    requires Closed(calls, s)
    ensures Closed(calls, after)
  {
    match e
    case Advance(i) =>
      if i >= |calls| then s
      else if calls[i].kind.AddShard? then AdvanceAdd(calls, s, i)
      else AdvanceRemove(calls, s, i)
    case Publish(p) =>
      if p in s.table then s.(inFlight := s.inFlight + [Message(p, SliceOf(s, p))]) else s
    case DeliverOwn(m) =>
      if m < |s.inFlight| then Repoint(calls, s, s.inFlight[m].peer, s.inFlight[m].slice) else s
    case Receive(p, bits) =>
      Repoint(calls, s.(slices := s.slices + [bits]), p, |s.slices|)
  }

  function Run(calls: seq<Call>, s: State, events: seq<Event>): (after: State)
    requires Closed(calls, s)
    ensures Closed(calls, after)
  {
    if events == [] then s
    else Next(calls, Run(calls, s, events[..|events| - 1]), events[|events| - 1])
  }

  // ---------------------------------------------------------------- uninterrupted calls

  /** The table with every pointer followed. */
  ghost function View(calls: seq<Call>, s: State): PrefTable.Table
    requires Closed(calls, s)
  {
    map p | p in s.table :: s.slices[SliceOf(s, p)]
  }

  ghost predicate Unshared(calls: seq<Call>, s: State)
    requires Closed(calls, s)
  {
    forall p, q | p in s.table && q in s.table && p != q :: SliceOf(s, p) != SliceOf(s, q)
  }

  ghost function Steps(calls: seq<Call>, s: State, i: nat, n: nat): (after: State)
    requires Closed(calls, s)
    ensures Closed(calls, after)
  {
    if n == 0 then s else Next(calls, Steps(calls, s, i, n - 1), Advance(i))
  }

  lemma WriteView(calls: seq<Call>, s: State, after: State, peer: PeerID, bits: Bytes)
    requires Closed(calls, s) && Closed(calls, after) && Unshared(calls, s)
    requires peer in s.table && after.table == s.table && after.records == s.records
    requires after.slices == s.slices[SliceOf(s, peer) := bits]
    ensures View(calls, after) == View(calls, s)[peer := bits]
  {
  }

  lemma ThreeSteps(calls: seq<Call>, s: State, i: nat, one: State, two: State)
    requires Closed(calls, s) && i < |calls| && calls[i].kind.AddShard?
    requires one == AdvanceAdd(calls, s, i) && two == AdvanceAdd(calls, one, i)
    ensures Steps(calls, s, i, 3) == AdvanceAdd(calls, two, i)
  {
    assert Steps(calls, s, i, 1) == Next(calls, Steps(calls, s, i, 0), Advance(i));
    assert Steps(calls, s, i, 2) == Next(calls, Steps(calls, s, i, 1), Advance(i));
  }

  lemma SameTableSameView(calls: seq<Call>, s: State, after: State)
    requires Closed(calls, s) && Closed(calls, after)
    requires after.table == s.table && after.records == s.records && after.slices == s.slices
    ensures View(calls, after) == View(calls, s)
  {
  }

  /** The write and the store of an Add, from the record it holds. */
  lemma AddFinishes(calls: seq<Call>, s: State, i: nat, record: nat)
    requires Closed(calls, s) && i < |calls| && calls[i].kind.AddShard?
    requires s.stages[i] == HasRecord(record) && record < |s.records|
    ensures var end := AdvanceAdd(calls, AdvanceAdd(calls, s, i), i);
            var after := WithShard(s.slices[s.records[record]], calls[i].shardID);
            && end.stages[i].Returned? && end.records == s.records
            && end.table == (if after.Ok? then s.table[calls[i].peer := record] else s.table)
            && end.slices == (if after.Ok? then s.slices[s.records[record] := after.value] else s.slices)
  {
  }

  lemma AddToRecord(calls: seq<Call>, s: State, i: nat)
    requires Closed(calls, s) && Unshared(calls, s)
    requires i < |calls| && calls[i].kind.AddShard? && s.stages[i].Start? && calls[i].peer in s.table
    ensures var three := AdvanceAdd(calls, AdvanceAdd(calls, AdvanceAdd(calls, s, i), i), i);
            && three.stages[i].Returned?
            && View(calls, three) == PrefTable.AddShard(View(calls, s), calls[i].peer, calls[i].shardID).0
  {
    var peer := calls[i].peer;
    var one := AdvanceAdd(calls, s, i);
    var three := AdvanceAdd(calls, AdvanceAdd(calls, one, i), i);
    AddFinishes(calls, one, i, s.table[peer]);
    var after := WithShard(s.slices[SliceOf(s, peer)], calls[i].shardID);
    if after.Ok? {
      WriteView(calls, s, three, peer, after.value);
    } else {
      SameTableSameView(calls, s, three);
    }
  }

  lemma NewRecordView(calls: seq<Call>, s: State, after: State, peer: PeerID, bits: Bytes)
    requires Closed(calls, s) && Closed(calls, after)
    requires after.records == s.records + [|s.slices|] && after.slices == s.slices + [bits]
    requires after.table == s.table || after.table == s.table[peer := |s.records|]
    ensures View(calls, after) == if after.table == s.table then View(calls, s) else View(calls, s)[peer := bits]
  {
    forall p | p in s.table
      ensures s.table[p] < |s.records| && after.slices[after.records[s.table[p]]] == s.slices[SliceOf(s, p)]
    {
      assert s.records[s.table[p]] < |s.slices|;
    }
  }

  lemma AddNewRecord(calls: seq<Call>, s: State, i: nat)
    requires Closed(calls, s)
    requires i < |calls| && calls[i].kind.AddShard? && s.stages[i].Start? && calls[i].peer !in s.table
    ensures var three := AdvanceAdd(calls, AdvanceAdd(calls, AdvanceAdd(calls, s, i), i), i);
            && three.stages[i].Returned?
            && View(calls, three) == PrefTable.AddShard(View(calls, s), calls[i].peer, calls[i].shardID).0
  {
    var one := AdvanceAdd(calls, s, i);
    var three := AdvanceAdd(calls, AdvanceAdd(calls, one, i), i);
    AddFinishes(calls, one, i, |s.records|);
    var after := WithShard(EMPTY, calls[i].shardID);
    NewRecordView(calls, s, three, calls[i].peer, if after.Ok? then after.value else EMPTY);
  }

  /** With nothing in between, the steps of an Add are the call that `PrefTable.AddShard` describes. */
  lemma UninterruptedAdd(calls: seq<Call>, s: State, i: nat)
    requires Closed(calls, s) && Unshared(calls, s)
    requires i < |calls| && calls[i].kind.AddShard? && s.stages[i].Start?
    ensures Steps(calls, s, i, 3).stages[i].Returned?
    ensures View(calls, Steps(calls, s, i, 3)) == PrefTable.AddShard(View(calls, s), calls[i].peer, calls[i].shardID).0
  {
    var one := AdvanceAdd(calls, s, i);
    ThreeSteps(calls, s, i, one, AdvanceAdd(calls, one, i));
    if calls[i].peer in s.table {
      AddToRecord(calls, s, i);
    } else {
      AddNewRecord(calls, s, i);
    }
  }

  /** A Remove of a recorded peer tests before it changes anything. */
  lemma RemoveTests(calls: seq<Call>, s: State, i: nat)
    requires Closed(calls, s)
    requires i < |calls| && calls[i].kind.RemoveShard? && s.stages[i].Start? && calls[i].peer in s.table
    ensures Steps(calls, s, i, 4) ==
            s.(stages := s.stages[i :=
              if PrefTable.Listening(View(calls, s), calls[i].peer, calls[i].shardID) then MustUnset else Returned])
  {
    var stages := s.stages;
    assert Steps(calls, s, i, 1) == Next(calls, Steps(calls, s, i, 0), Advance(i));
    assert Steps(calls, s, i, 1) == s.(stages := stages[i := FoundRecorded]);
    assert Steps(calls, s, i, 2) == s.(stages := stages[i := FoundRecordedAgain]);
    assert Steps(calls, s, i, 3) == s.(stages := stages[i := Testing(s.table[calls[i].peer])]);
  }

  lemma ReturnedIsDone(calls: seq<Call>, s: State, i: nat)
    requires Closed(calls, s) && i < |calls| && s.stages[i].Returned?
    ensures Next(calls, s, Advance(i)) == s
  {
  }

  lemma ReturnedStays(calls: seq<Call>, s: State, i: nat, n: nat)
    requires Closed(calls, s) && i < |calls| && Steps(calls, s, i, n).stages[i].Returned?
    ensures Steps(calls, s, i, n + 1) == Steps(calls, s, i, n)
  {
    ReturnedIsDone(calls, Steps(calls, s, i, n), i);
  }

  /** The last step of a Remove, if it saw the bit set. */
  lemma RemoveUnsets(calls: seq<Call>, s: State, tested: State, i: nat)
    requires Closed(calls, s) && Closed(calls, tested) && Unshared(calls, s)
    requires i < |calls| && calls[i].kind.RemoveShard? && calls[i].peer in s.table
    requires tested == s.(stages := s.stages[i := MustUnset])
    requires PrefTable.Listening(View(calls, s), calls[i].peer, calls[i].shardID)
    ensures AdvanceRemove(calls, tested, i).stages[i].Returned?
    ensures View(calls, AdvanceRemove(calls, tested, i)) ==
            PrefTable.RemoveShard(View(calls, s), calls[i].peer, calls[i].shardID).0
  {
    var peer := calls[i].peer;
    var after := WithoutShard(s.slices[SliceOf(s, peer)], calls[i].shardID);
    var last := AdvanceRemove(calls, tested, i);
    if after.Ok? {
      WriteView(calls, s, last, peer, after.value);
    } else {
      SameTableSameView(calls, s, last);
    }
  }

  /** With nothing in between, the steps of a Remove are the call that `PrefTable.RemoveShard` describes. */
  lemma UninterruptedRemove(calls: seq<Call>, s: State, i: nat)
    requires Closed(calls, s) && Unshared(calls, s)
    requires i < |calls| && calls[i].kind.RemoveShard? && s.stages[i].Start?
    ensures Steps(calls, s, i, 5).stages[i].Returned?
    ensures View(calls, Steps(calls, s, i, 5))
            == PrefTable.RemoveShard(View(calls, s), calls[i].peer, calls[i].shardID).0
  {
    if calls[i].peer !in s.table {
      var one := Steps(calls, s, i, 1);
      assert one == Next(calls, Steps(calls, s, i, 0), Advance(i));
      ReturnedStays(calls, s, i, 1);
      ReturnedStays(calls, s, i, 2);
      ReturnedStays(calls, s, i, 3);
      ReturnedStays(calls, s, i, 4);
      SameTableSameView(calls, s, one);
    } else {
      RemoveTests(calls, s, i);
      var tested := Steps(calls, s, i, 4);
      if tested.stages[i].Returned? {
        ReturnedStays(calls, s, i, 4);
        SameTableSameView(calls, s, tested);
      } else {
        assert Steps(calls, s, i, 5) == AdvanceRemove(calls, tested, i);
        RemoveUnsets(calls, s, tested, i);
      }
    }
  }

  // ---------------------------------------------------------------- what a run adds up to

  /** Calls of this kind on this peer that have taken effect, by the shard that their ID leads to. */
  ghost predicate Applied(call: Call, stage: Stage, kind: Kind, peer: PeerID) {
    && call.kind == kind && call.peer == peer && Target(call.shardID).Some?
    && (stage.Returned? || (kind.AddShard? && stage.BitWritten?))
  }

  ghost function AppliedShards(calls: seq<Call>, stages: seq<Stage>, kind: Kind, peer: PeerID): set<int>
    requires |stages| == |calls|
  {
    set i | 0 <= i < |calls| && Applied(calls[i], stages[i], kind, peer) :: Target(calls[i].shardID).value
  }

  ghost function CalledShards(calls: seq<Call>, kind: Kind, peer: PeerID): set<int> {
    set i | 0 <= i < |calls| && calls[i].kind == kind && calls[i].peer == peer && Target(calls[i].shardID).Some? ::
      Target(calls[i].shardID).value
  }

  /** No shard is both added and removed; which of the two would win is up to the scheduler. */
  ghost predicate NoConflict(calls: seq<Call>, peer: PeerID) {
    forall i, j | 0 <= i < j < |calls| && calls[i].peer == peer && calls[j].peer == peer ::
      Target(calls[i].shardID).Some? && Target(calls[i].shardID) == Target(calls[j].shardID) ==>
        calls[i].kind == calls[j].kind
  }

  ghost predicate NotReplaced(events: seq<Event>, peer: PeerID) {
    forall i | 0 <= i < |events| :: events[i].Receive? ==> events[i].peer != peer
  }

  predicate Points(stage: Stage) {
    stage.HasRecord? || stage.BitWritten? || stage.Testing?
  }

  /** `slice` is the peer's, reached through no other peer's pointers. */
  ghost predicate Owns(calls: seq<Call>, s: State, peer: PeerID, slice: nat)
    requires Closed(calls, s)
  {
    && slice < |s.slices| && |s.slices[slice]| == NUM_BYTES
    && peer in s.table
    && (forall p | p in s.table :: SliceOf(s, p) == slice <==> p == peer)
    && (forall m | 0 <= m < |s.inFlight| :: s.inFlight[m].slice == slice <==> s.inFlight[m].peer == peer)
    && (forall i | 0 <= i < |calls| && Points(s.stages[i]) ::
          s.records[s.stages[i].record] == slice <==> calls[i].peer == peer)
  }

  lemma AppliedAfter(calls: seq<Call>, stages: seq<Stage>, i: nat, stage: Stage, kind: Kind, peer: PeerID)
    requires |stages| == |calls| && i < |calls|
    requires Applied(calls[i], stages[i], kind, peer) ==> Applied(calls[i], stage, kind, peer)
    ensures AppliedShards(calls, stages[i := stage], kind, peer)
         == AppliedShards(calls, stages, kind, peer)
            + if Applied(calls[i], stage, kind, peer) then TargetSet(calls[i].shardID) else {}
  {
    var after := stages[i := stage];
    forall j | 0 <= j < |calls| && j != i ensures after[j] == stages[j] {}
    forall x | x in AppliedShards(calls, after, kind, peer)
      ensures x in AppliedShards(calls, stages, kind, peer)
              || (Applied(calls[i], stage, kind, peer) && x == Target(calls[i].shardID).value)
    {
      var j :| 0 <= j < |calls| && Applied(calls[j], after[j], kind, peer) && Target(calls[j].shardID).value == x;
      assert j == i || Applied(calls[j], stages[j], kind, peer);
    }
    forall x | x in AppliedShards(calls, stages, kind, peer) ensures x in AppliedShards(calls, after, kind, peer) {
      var j :| 0 <= j < |calls| && Applied(calls[j], stages[j], kind, peer) && Target(calls[j].shardID).value == x;
      assert Applied(calls[j], after[j], kind, peer);
    }
    if Applied(calls[i], stage, kind, peer) {
      assert Applied(calls[i], after[i], kind, peer);
    }
  }

  ghost predicate Accounted(calls: seq<Call>, s: State, peer: PeerID, slice: nat, initial: set<int>)
    requires Closed(calls, s)
  {
    && Owns(calls, s, peer, slice)
    && ShardSet(s.slices[slice])
       == initial + AppliedShards(calls, s.stages, AddShard, peer) - AppliedShards(calls, s.stages, RemoveShard, peer)
  }

  lemma OwnsAdd(calls: seq<Call>, s: State, i: nat, peer: PeerID, slice: nat)
    requires Closed(calls, s) && Owns(calls, s, peer, slice) && i < |calls|
    ensures Owns(calls, AdvanceAdd(calls, s, i), peer, slice)
  {
    assert StageClosed(|s.records|, s.table, calls[i], s.stages[i]);
  }

  lemma OwnsRemove(calls: seq<Call>, s: State, i: nat, peer: PeerID, slice: nat)
    requires Closed(calls, s) && Owns(calls, s, peer, slice) && i < |calls|
    ensures Owns(calls, AdvanceRemove(calls, s, i), peer, slice)
  {
    assert StageClosed(|s.records|, s.table, calls[i], s.stages[i]);
  }

  lemma OwnsEnvironment(calls: seq<Call>, s: State, e: Event, peer: PeerID, slice: nat)
    requires Closed(calls, s) && Owns(calls, s, peer, slice)
    requires !e.Advance? && (e.Receive? ==> e.peer != peer)
    ensures Owns(calls, Next(calls, s, e), peer, slice)
    ensures Next(calls, s, e).slices[slice] == s.slices[slice]
  {
  }

  /** The write of an Add, if this step is it, inserts its shard in its peer's slice only. */
  lemma AddEffect(calls: seq<Call>, s: State, i: nat, peer: PeerID, slice: nat)
    requires Closed(calls, s) && Owns(calls, s, peer, slice) && i < |calls|
    requires calls[i].kind.AddShard?
    ensures AdvanceAdd(calls, s, i).stages == s.stages[i := AdvanceAdd(calls, s, i).stages[i]]
    ensures Applied(calls[i], AdvanceAdd(calls, s, i).stages[i], AddShard, peer) <==>
              Applied(calls[i], s.stages[i], AddShard, peer)
              || (calls[i].peer == peer && s.stages[i].HasRecord? && Target(calls[i].shardID).Some?)
    ensures ShardSet(AdvanceAdd(calls, s, i).slices[slice]) ==
            if calls[i].peer == peer && s.stages[i].HasRecord?
            then ShardSet(s.slices[slice]) + TargetSet(calls[i].shardID)
            else ShardSet(s.slices[slice])
  {
    assert StageClosed(|s.records|, s.table, calls[i], s.stages[i]);
    if s.stages[i].HasRecord? && calls[i].peer == peer {
      TargetIs(calls[i].shardID);
      ActsOnTarget(s.slices[slice], calls[i].shardID);
    }
  }

  /** A Remove has returned only when its shard is out of its peer's slice. */
  lemma RemoveEffect(calls: seq<Call>, s: State, i: nat, peer: PeerID, slice: nat)
    requires Closed(calls, s) && Owns(calls, s, peer, slice) && i < |calls|
    requires calls[i].kind.RemoveShard?
    ensures AdvanceRemove(calls, s, i).stages == s.stages[i := AdvanceRemove(calls, s, i).stages[i]]
    ensures Applied(calls[i], s.stages[i], RemoveShard, peer) ==>
              Applied(calls[i], AdvanceRemove(calls, s, i).stages[i], RemoveShard, peer)
    ensures ShardSet(AdvanceRemove(calls, s, i).slices[slice]) ==
            if !s.stages[i].Returned? && Applied(calls[i], AdvanceRemove(calls, s, i).stages[i], RemoveShard, peer)
            then ShardSet(s.slices[slice]) - TargetSet(calls[i].shardID)
            else ShardSet(s.slices[slice])
  {
    assert StageClosed(|s.records|, s.table, calls[i], s.stages[i]);
    if calls[i].peer == peer {
      TargetIs(calls[i].shardID);
      ActsOnTarget(s.slices[slice], calls[i].shardID);
    }
  }

  lemma AddAccounted(calls: seq<Call>, s: State, i: nat, peer: PeerID, slice: nat, initial: set<int>)
    requires Closed(calls, s) && i < |calls| && calls[i].kind.AddShard?
    requires NoConflict(calls, peer) && Accounted(calls, s, peer, slice, initial)
    ensures Accounted(calls, AdvanceAdd(calls, s, i), peer, slice, initial)
  {
    var stage := AdvanceAdd(calls, s, i).stages[i];
    OwnsAdd(calls, s, i, peer, slice);
    AddEffect(calls, s, i, peer, slice);
    AppliedAfter(calls, s.stages, i, stage, AddShard, peer);
    AppliedAfter(calls, s.stages, i, stage, RemoveShard, peer);
    if calls[i].peer == peer && Target(calls[i].shardID).Some? {
      assert Target(calls[i].shardID).value !in AppliedShards(calls, s.stages, RemoveShard, peer);
    }
    if Applied(calls[i], s.stages[i], AddShard, peer) {
      assert Target(calls[i].shardID).value in AppliedShards(calls, s.stages, AddShard, peer);
    }
  }

  lemma RemoveAccounted(calls: seq<Call>, s: State, i: nat, peer: PeerID, slice: nat, initial: set<int>)
    requires Closed(calls, s) && i < |calls| && calls[i].kind.RemoveShard?
    requires NoConflict(calls, peer) && Accounted(calls, s, peer, slice, initial)
    ensures Accounted(calls, AdvanceRemove(calls, s, i), peer, slice, initial)
  {
    var stage := AdvanceRemove(calls, s, i).stages[i];
    OwnsRemove(calls, s, i, peer, slice);
    RemoveEffect(calls, s, i, peer, slice);
    AppliedAfter(calls, s.stages, i, stage, AddShard, peer);
    AppliedAfter(calls, s.stages, i, stage, RemoveShard, peer);
    if s.stages[i].Returned? && Applied(calls[i], stage, RemoveShard, peer) {
      assert Target(calls[i].shardID).value in AppliedShards(calls, s.stages, RemoveShard, peer);
    }
  }

  lemma NextAccounted(calls: seq<Call>, s: State, e: Event, peer: PeerID, slice: nat, initial: set<int>)
    requires Closed(calls, s) && NoConflict(calls, peer) && Accounted(calls, s, peer, slice, initial)
    requires e.Receive? ==> e.peer != peer
    ensures Accounted(calls, Next(calls, s, e), peer, slice, initial)
  {
    if e.Advance? && e.call < |calls| {
      if calls[e.call].kind.AddShard? {
        AddAccounted(calls, s, e.call, peer, slice, initial);
      } else {
        RemoveAccounted(calls, s, e.call, peer, slice, initial);
      }
    } else if !e.Advance? {
      OwnsEnvironment(calls, s, e, peer, slice);
    }
  }

  lemma {:induction false} RunAccounted(calls: seq<Call>, s: State, events: seq<Event>,
                                        peer: PeerID, slice: nat, initial: set<int>)
    requires Closed(calls, s) && NoConflict(calls, peer) && Accounted(calls, s, peer, slice, initial)
    requires NotReplaced(events, peer)
    ensures Accounted(calls, Run(calls, s, events), peer, slice, initial)
  {
    if events == [] {
    } else {
      var pre := events[..|events| - 1];
      RunAccounted(calls, s, pre, peer, slice, initial);
      NextAccounted(calls, Run(calls, s, pre), events[|events| - 1], peer, slice, initial);
    }
  }

  // ---------------------------------------------------------------- no lost update

  ghost predicate AllAtStart(s: State) {
    forall i | 0 <= i < |s.stages| :: s.stages[i].Start?
  }

  ghost predicate AllReturned(s: State) {
    forall i | 0 <= i < |s.stages| :: s.stages[i].Returned?
  }

  /** The shards that the table says `peer` listens to. */
  ghost function ShardsOf(calls: seq<Call>, s: State, peer: PeerID): set<int>
    requires Closed(calls, s)
  {
    if peer in s.table then ShardSet(s.slices[SliceOf(s, peer)]) else {}
  }

  /** Every call on a recorded peer takes effect, however the calls interleave with one another,
      with calls on other peers, with deliveries of other peers' preferences and with late or
      reordered deliveries of the node's own messages. */
  lemma NoLostUpdate(calls: seq<Call>, s: State, events: seq<Event>, peer: PeerID)
    requires Closed(calls, s) && AllAtStart(s)
    requires peer in s.table && Owns(calls, s, peer, SliceOf(s, peer))
    requires NoConflict(calls, peer) && NotReplaced(events, peer)
    ensures var end := Run(calls, s, events);
            ShardsOf(calls, end, peer) == ShardsOf(calls, s, peer)
              + AppliedShards(calls, end.stages, AddShard, peer) - AppliedShards(calls, end.stages, RemoveShard, peer)
    ensures var end := Run(calls, s, events);
            AllReturned(end) ==>
              ShardsOf(calls, end, peer) == ShardsOf(calls, s, peer)
                + CalledShards(calls, AddShard, peer) - CalledShards(calls, RemoveShard, peer)
  {
    var end, initial := Run(calls, s, events), ShardsOf(calls, s, peer);
    assert AppliedShards(calls, s.stages, AddShard, peer) == {}
           && AppliedShards(calls, s.stages, RemoveShard, peer) == {};
    RunAccounted(calls, s, events, peer, SliceOf(s, peer), initial);
    if AllReturned(end) {
      AllApplied(calls, end, AddShard, peer);
      AllApplied(calls, end, RemoveShard, peer);
    }
  }

  lemma AllApplied(calls: seq<Call>, s: State, kind: Kind, peer: PeerID)
    requires Closed(calls, s) && AllReturned(s)
    ensures AppliedShards(calls, s.stages, kind, peer) == CalledShards(calls, kind, peer)
  {
    forall x | x in CalledShards(calls, kind, peer) ensures x in AppliedShards(calls, s.stages, kind, peer) {
      var i :| 0 <= i < |calls| && calls[i].kind == kind && calls[i].peer == peer
               && Target(calls[i].shardID).Some? && Target(calls[i].shardID).value == x;
      assert Applied(calls[i], s.stages[i], kind, peer);
    }
    forall x | x in AppliedShards(calls, s.stages, kind, peer) ensures x in CalledShards(calls, kind, peer) {
      var i :| 0 <= i < |calls| && Applied(calls[i], s.stages[i], kind, peer) && Target(calls[i].shardID).value == x;
    }
  }

  /** At any moment of such a run, handing the node any of its own messages changes no byte of its
      own preference: the entry becomes a new record, on the slice that it had. */
  lemma OwnDeliveryHarmless(calls: seq<Call>, s: State, events: seq<Event>, self: PeerID, m: nat)
    requires Closed(calls, s) && AllAtStart(s)
    requires self in s.table && Owns(calls, s, self, SliceOf(s, self))
    requires NoConflict(calls, self) && NotReplaced(events, self)
    requires m < |Run(calls, s, events).inFlight| && Run(calls, s, events).inFlight[m].peer == self
    ensures var before := Run(calls, s, events);
            var after := Next(calls, before, DeliverOwn(m));
            && self in before.table && self in after.table
            && after.table == before.table[self := |before.records|]
            && SliceOf(after, self) == SliceOf(before, self)
            && after.slices == before.slices
  {
    assert AppliedShards(calls, s.stages, AddShard, self) == {}
        && AppliedShards(calls, s.stages, RemoveShard, self) == {};
    RunAccounted(calls, s, events, self, SliceOf(s, self), ShardsOf(calls, s, self));
  }

  lemma MessagesStay(calls: seq<Call>, s: State, e: Event)
    requires Closed(calls, s)
    ensures s.inFlight <= Next(calls, s, e).inFlight
  {
  }

  /** Nothing published is forgotten: whatever happens afterwards, the publisher's own message, on the
      slice that was published, can still be delivered. */
  lemma {:induction false} PublishedComesBack(calls: seq<Call>, s: State, self: PeerID, later: seq<Event>)
    requires Closed(calls, s) && self in s.table
    ensures var sent := Next(calls, s, Publish(self));
            s.inFlight + [Message(self, SliceOf(s, self))] <= Run(calls, sent, later).inFlight
  {
    if later == [] {
    } else {
      PublishedComesBack(calls, s, self, later[..|later| - 1]);
      MessagesStay(calls, Run(calls, Next(calls, s, Publish(self)), later[..|later| - 1]), later[|later| - 1]);
    }
  }

  /** A preference from another peer replaces that peer's entry, and no other, by a slice of its own. */
  lemma ReceivedReplaces(calls: seq<Call>, s: State, peer: PeerID, bits: Bytes)
    requires Closed(calls, s)
    ensures View(calls, Next(calls, s, Receive(peer, bits))) == View(calls, s)[peer := bits]
    ensures Unshared(calls, s) ==> Unshared(calls, Next(calls, s, Receive(peer, bits)))
  {
    var after := Next(calls, s, Receive(peer, bits));
    forall p | p in s.table && p != peer
      ensures SliceOf(after, p) == SliceOf(s, p) && after.slices[SliceOf(s, p)] == s.slices[SliceOf(s, p)]
    {
      assert s.table[p] < |s.records| && s.records[s.table[p]] < |s.slices|;
    }
  }

  lemma RunSnoc(calls: seq<Call>, s: State, events: seq<Event>, e: Event)
    requires Closed(calls, s)
    ensures Run(calls, s, events + [e]) == Next(calls, Run(calls, s, events), e)
  {
    assert (events + [e])[..|events + [e]| - 1] == events;
  }

  /** Every interleaving ends with the shards that were there, those added in range and not those removed. */
  ghost predicate NothingEverLost(calls: seq<Call>, s: State, peer: PeerID)
    requires Closed(calls, s)
  {
    forall events | NotReplaced(events, peer) && AllReturned(Run(calls, s, events)) ::
      ShardsOf(calls, Run(calls, s, events), peer)
      == ShardsOf(calls, s, peer) + CalledShards(calls, AddShard, peer) - CalledShards(calls, RemoveShard, peer)
  }

  // ---------------------------------------------------------------- an update lost

  /** Call j has made a record of its own, for a peer without one, and nothing else leads to it. */
  ghost predicate Hidden(calls: seq<Call>, s: State, j: nat, record: nat, slice: nat)
    requires Closed(calls, s) && j < |calls|
  {
    && s.stages[j] == HasRecord(record) && record < |s.records| && s.records[record] == slice
    && slice < |s.slices| && s.slices[slice] == EMPTY
    && (forall p | p in s.table :: SliceOf(s, p) != slice)
    && (forall i | 0 <= i < |calls| && i != j && Points(s.stages[i]) :: s.records[s.stages[i].record] != slice)
  }

  lemma HiddenFromAdd(calls: seq<Call>, s: State, i: nat, j: nat, record: nat, slice: nat)
    requires Closed(calls, s) && i < |calls| && j < |calls| && i != j && Hidden(calls, s, j, record, slice)
    ensures Hidden(calls, AdvanceAdd(calls, s, i), j, record, slice)
  {
    assert StageClosed(|s.records|, s.table, calls[i], s.stages[i]);
  }

  lemma HiddenFromRemove(calls: seq<Call>, s: State, i: nat, j: nat, record: nat, slice: nat)
    requires Closed(calls, s) && i < |calls| && j < |calls| && i != j && Hidden(calls, s, j, record, slice)
    ensures Hidden(calls, AdvanceRemove(calls, s, i), j, record, slice)
  {
    assert StageClosed(|s.records|, s.table, calls[i], s.stages[i]);
  }

  /** The stages that a call of this kind goes through. */
  ghost predicate Fits(call: Call, stage: Stage) {
    match stage
    case Start | Returned => true
    case HasRecord(_) | BitWritten(_) => call.kind.AddShard?
    case FoundRecorded | FoundRecordedAgain | Testing(_) | MustUnset => call.kind.RemoveShard?
  }

  ghost predicate AllFit(calls: seq<Call>, s: State)
    requires |s.stages| == |calls|
  {
    forall i | 0 <= i < |calls| :: Fits(calls[i], s.stages[i])
  }

  ghost function StepsLeft(stage: Stage): nat {
    match stage
    case Start => 5
    case FoundRecorded => 4
    case FoundRecordedAgain => 3
    case HasRecord(_) | Testing(_) => 2
    case BitWritten(_) | MustUnset => 1
    case Returned => 0
  }

  lemma AdvanceGoesOn(calls: seq<Call>, s: State, i: nat)
    requires Closed(calls, s) && i < |calls| && Fits(calls[i], s.stages[i]) && !s.stages[i].Returned?
    ensures var after := Next(calls, s, Advance(i));
            && after.stages == s.stages[i := after.stages[i]]
            && Fits(calls[i], after.stages[i]) && StepsLeft(after.stages[i]) < StepsLeft(s.stages[i])
  {
  }

  /** One step of call i, as far as call j is concerned. */
  lemma OneStepOn(calls: seq<Call>, s: State, events: seq<Event>, i: nat,
                  j: nat, record: nat, slice: nat, peer: PeerID)
    returns (longer: seq<Event>)
    requires Closed(calls, s) && NotReplaced(events, peer) && i < |calls| && j < |calls| && i != j
    requires Hidden(calls, Run(calls, s, events), j, record, slice) && AllFit(calls, Run(calls, s, events))
    requires !Run(calls, s, events).stages[i].Returned?
    ensures NotReplaced(longer, peer)
    ensures Hidden(calls, Run(calls, s, longer), j, record, slice) && AllFit(calls, Run(calls, s, longer))
    ensures var stage := Run(calls, s, longer).stages[i];
            && Run(calls, s, longer).stages == Run(calls, s, events).stages[i := stage]
            && StepsLeft(stage) < StepsLeft(Run(calls, s, events).stages[i])
  {
    var now := Run(calls, s, events);
    RunSnoc(calls, s, events, Advance(i));
    if calls[i].kind.AddShard? {
      HiddenFromAdd(calls, now, i, j, record, slice);
    } else {
      HiddenFromRemove(calls, now, i, j, record, slice);
    }
    AdvanceGoesOn(calls, now, i);
    longer := events + [Advance(i)];
  }

  /** Call i runs to its end while call j keeps its record to itself. */
  lemma {:induction false} FinishCall(calls: seq<Call>, s: State, events: seq<Event>, i: nat,
                                      j: nat, record: nat, slice: nat, peer: PeerID)
    returns (longer: seq<Event>)
    requires Closed(calls, s) && NotReplaced(events, peer) && i < |calls| && j < |calls| && i != j
    requires Hidden(calls, Run(calls, s, events), j, record, slice) && AllFit(calls, Run(calls, s, events))
    ensures NotReplaced(longer, peer)
    ensures Hidden(calls, Run(calls, s, longer), j, record, slice) && AllFit(calls, Run(calls, s, longer))
    ensures Run(calls, s, longer).stages == Run(calls, s, events).stages[i := Returned]
    decreases StepsLeft(Run(calls, s, events).stages[i])
  {
    if Run(calls, s, events).stages[i].Returned? {
      longer := events;
    } else {
      var once := OneStepOn(calls, s, events, i, j, record, slice, peer);
      longer := FinishCall(calls, s, once, i, j, record, slice, peer);
    }
  }

  /** So do the first n calls, one after another. */
  lemma {:induction false} FinishOthers(calls: seq<Call>, s: State, events: seq<Event>, n: nat,
                                        j: nat, record: nat, slice: nat, peer: PeerID)
    returns (longer: seq<Event>)
    requires Closed(calls, s) && NotReplaced(events, peer) && n <= |calls| && j < |calls|
    requires Hidden(calls, Run(calls, s, events), j, record, slice) && AllFit(calls, Run(calls, s, events))
    ensures NotReplaced(longer, peer)
    ensures Hidden(calls, Run(calls, s, longer), j, record, slice) && AllFit(calls, Run(calls, s, longer))
    ensures forall i | 0 <= i < n && i != j :: Run(calls, s, longer).stages[i].Returned?
  {
    if n == 0 {
      longer := events;
    } else {
      longer := FinishOthers(calls, s, events, n - 1, j, record, slice, peer);
      if n - 1 != j {
        longer := FinishCall(calls, s, longer, n - 1, j, record, slice, peer);
      }
    }
  }

  /** Call j goes first and makes a record of its own. */
  lemma GoesFirst(calls: seq<Call>, s: State, j: nat)
    requires Closed(calls, s) && AllAtStart(s) && j < |calls| && calls[j].kind.AddShard? && calls[j].peer !in s.table
    ensures Hidden(calls, Next(calls, s, Advance(j)), j, |s.records|, |s.slices|)
    ensures AllFit(calls, Next(calls, s, Advance(j)))
  {
    var after := Next(calls, s, Advance(j));
    forall p | p in after.table ensures SliceOf(after, p) != |s.slices| {
      assert s.records[s.table[p]] < |s.slices|;
    }
  }

  /** Call j goes last and stores its record over whatever the others made. */
  lemma GoesLast(calls: seq<Call>, s: State, j: nat, record: nat, slice: nat)
    requires Closed(calls, s) && j < |calls| && Hidden(calls, s, j, record, slice)
    requires calls[j].kind.AddShard? && Accepted(calls[j].shardID)
    requires forall i | 0 <= i < |calls| && i != j :: s.stages[i].Returned?
    ensures var end := Next(calls, Next(calls, s, Advance(j)), Advance(j));
            AllReturned(end) && ShardsOf(calls, end, calls[j].peer) == TargetSet(calls[j].shardID)
  {
    EmptyHasNoShards();
    ActsOnTarget(EMPTY, calls[j].shardID);
    AddFinishes(calls, s, j, record);
  }

  /** In between all the other calls run to their end. */
  lemma OthersFinish(calls: seq<Call>, s: State, j: nat) returns (events: seq<Event>)
    requires Closed(calls, s) && AllAtStart(s) && j < |calls| && calls[j].kind.AddShard? && calls[j].peer !in s.table
    ensures NotReplaced(events, calls[j].peer)
    ensures Hidden(calls, Run(calls, s, events), j, |s.records|, |s.slices|)
    ensures forall i | 0 <= i < |calls| && i != j :: Run(calls, s, events).stages[i].Returned?
  {
    GoesFirst(calls, s, j);
    RunSnoc(calls, s, [], Advance(j));
    assert [] + [Advance(j)] == [Advance(j)];
    events := FinishOthers(calls, s, [Advance(j)], |calls|, j, |s.records|, |s.slices|, calls[j].peer);
  }

  /** On an unrecorded peer any Add can wipe out all the others: some interleaving of all the calls ends
      with the shard alone that its ID leads to, or with none. */
  lemma FirstRecordRace(calls: seq<Call>, s: State, j: nat) returns (events: seq<Event>)
    requires Closed(calls, s) && AllAtStart(s)
    requires j < |calls| && calls[j].kind.AddShard? && Accepted(calls[j].shardID) && calls[j].peer !in s.table
    ensures NotReplaced(events, calls[j].peer) && AllReturned(Run(calls, s, events))
    ensures ShardsOf(calls, Run(calls, s, events), calls[j].peer) == TargetSet(calls[j].shardID)
  {
    var others := OthersFinish(calls, s, j);
    GoesLast(calls, Run(calls, s, others), j, |s.records|, |s.slices|);
    RunSnoc(calls, s, others, Advance(j));
    RunSnoc(calls, s, others + [Advance(j)], Advance(j));
    events := others + [Advance(j)] + [Advance(j)];
  }

  // ---------------------------------------------------------------- a single shard to add

  /** Every pointer of `peer`, and no other, leads to a slice in `mine`. */
  ghost predicate OwnsAll(calls: seq<Call>, s: State, peer: PeerID, mine: set<nat>)
    requires Closed(calls, s)
  {
    && (forall k | k in mine :: k < |s.slices| && |s.slices[k]| == NUM_BYTES)
    && (forall p | p in s.table :: SliceOf(s, p) in mine <==> p == peer)
    && (forall m | 0 <= m < |s.inFlight| :: s.inFlight[m].slice in mine <==> s.inFlight[m].peer == peer)
    && (forall i | 0 <= i < |calls| && Points(s.stages[i]) ::
          s.records[s.stages[i].record] in mine <==> calls[i].peer == peer)
  }

  ghost predicate AcceptedAdd(call: Call, peer: PeerID) {
    call.kind.AddShard? && call.peer == peer && Accepted(call.shardID)
  }

  /** No slice of the peer holds more than `shards`; those that are published or about to be stored hold
      all of them; and once an Add is through there is a record. */
  ghost predicate Holds(calls: seq<Call>, s: State, peer: PeerID, mine: set<nat>, shards: set<int>)
    requires Closed(calls, s) && OwnsAll(calls, s, peer, mine)
  {
    && (forall k | k in mine :: ShardSet(s.slices[k]) <= shards)
    && (peer in s.table ==> ShardSet(s.slices[SliceOf(s, peer)]) == shards)
    && (forall m | 0 <= m < |s.inFlight| && s.inFlight[m].peer == peer ::
          ShardSet(s.slices[s.inFlight[m].slice]) == shards)
    && (forall i | 0 <= i < |calls| && s.stages[i].BitWritten? && calls[i].peer == peer ::
          ShardSet(s.slices[s.records[s.stages[i].record]]) == shards)
    && (forall i | 0 <= i < |calls| && AcceptedAdd(calls[i], peer) && s.stages[i].Returned? :: peer in s.table)
  }

  ghost function MineAfterAdd(calls: seq<Call>, s: State, i: nat, peer: PeerID, mine: set<nat>): set<nat>
    requires Closed(calls, s) && i < |calls|
  {
    if calls[i].peer == peer && s.stages[i].Start? && peer !in s.table then mine + {|s.slices|} else mine
  }

  lemma OwnsAllAdd(calls: seq<Call>, s: State, i: nat, peer: PeerID, mine: set<nat>)
    requires Closed(calls, s) && OwnsAll(calls, s, peer, mine) && i < |calls|
    ensures OwnsAll(calls, AdvanceAdd(calls, s, i), peer, MineAfterAdd(calls, s, i, peer, mine))
  {
    assert StageClosed(|s.records|, s.table, calls[i], s.stages[i]);
  }

  lemma OwnsAllRemove(calls: seq<Call>, s: State, i: nat, peer: PeerID, mine: set<nat>)
    requires Closed(calls, s) && OwnsAll(calls, s, peer, mine) && i < |calls|
    ensures OwnsAll(calls, AdvanceRemove(calls, s, i), peer, mine)
  {
    assert StageClosed(|s.records|, s.table, calls[i], s.stages[i]);
  }

  lemma OwnsAllEnvironment(calls: seq<Call>, s: State, e: Event, peer: PeerID, mine: set<nat>)
    requires Closed(calls, s) && OwnsAll(calls, s, peer, mine)
    requires !e.Advance? && (e.Receive? ==> e.peer != peer)
    ensures OwnsAll(calls, Next(calls, s, e), peer, mine)
  {
  }

  lemma HoldsEnvironment(calls: seq<Call>, s: State, e: Event, peer: PeerID, mine: set<nat>, shards: set<int>)
    requires Closed(calls, s) && OwnsAll(calls, s, peer, mine) && Holds(calls, s, peer, mine, shards)
    requires !e.Advance? && (e.Receive? ==> e.peer != peer)
    ensures OwnsAll(calls, Next(calls, s, e), peer, mine) && Holds(calls, Next(calls, s, e), peer, mine, shards)
  {
    OwnsAllEnvironment(calls, s, e, peer, mine);
  }

  /** One more of the call's two or three steps, by where it stands. */
  lemma HoldsAddStart(calls: seq<Call>, s: State, i: nat, peer: PeerID, mine: set<nat>, shards: set<int>)
    requires Closed(calls, s) && OwnsAll(calls, s, peer, mine) && Holds(calls, s, peer, mine, shards)
    requires i < |calls| && s.stages[i].Start?
    requires OwnsAll(calls, AdvanceAdd(calls, s, i), peer, MineAfterAdd(calls, s, i, peer, mine))
    ensures Holds(calls, AdvanceAdd(calls, s, i), peer, MineAfterAdd(calls, s, i, peer, mine), shards)
  {
    EmptyHasNoShards();
  }

  lemma HoldsAddStore(calls: seq<Call>, s: State, i: nat, peer: PeerID, mine: set<nat>, shards: set<int>)
    requires Closed(calls, s) && OwnsAll(calls, s, peer, mine) && Holds(calls, s, peer, mine, shards)
    requires i < |calls| && s.stages[i].BitWritten?
    requires OwnsAll(calls, AdvanceAdd(calls, s, i), peer, mine)
    ensures Holds(calls, AdvanceAdd(calls, s, i), peer, mine, shards)
  {
    assert StageClosed(|s.records|, s.table, calls[i], s.stages[i]);
  }

  /** The byte update of an Add on the peer completes the slice it writes and spoils no other. */
  lemma AddWrites(calls: seq<Call>, s: State, i: nat, peer: PeerID, mine: set<nat>, shards: set<int>)
    requires Closed(calls, s) && OwnsAll(calls, s, peer, mine) && i < |calls| && calls[i].kind.AddShard?
    requires s.stages[i].HasRecord? && s.stages[i].record < |s.records|
    requires forall k | k in mine :: ShardSet(s.slices[k]) <= shards
    requires AcceptedAdd(calls[i], peer) ==> TargetSet(calls[i].shardID) == shards
    ensures var after, written := AdvanceAdd(calls, s, i), s.records[s.stages[i].record];
            && |after.slices| == |s.slices|
            && (forall k | k in mine ::
                  after.slices[k] == s.slices[k] || (k == written && ShardSet(after.slices[k]) == shards))
            && (AcceptedAdd(calls[i], peer) ==> ShardSet(after.slices[written]) == shards)
            && (calls[i].peer == peer ==> (after.stages[i].BitWritten? <==> AcceptedAdd(calls[i], peer)))
  {
    var written := s.records[s.stages[i].record];
    if calls[i].peer == peer {
      ActsOnTarget(s.slices[written], calls[i].shardID);
    }
  }

  lemma HoldsAddWrite(calls: seq<Call>, s: State, i: nat, peer: PeerID, mine: set<nat>, shards: set<int>)
    requires Closed(calls, s) && OwnsAll(calls, s, peer, mine) && Holds(calls, s, peer, mine, shards)
    requires i < |calls| && s.stages[i].HasRecord? && calls[i].kind.AddShard?
    requires AcceptedAdd(calls[i], peer) ==> TargetSet(calls[i].shardID) == shards
    requires OwnsAll(calls, AdvanceAdd(calls, s, i), peer, mine)
    ensures Holds(calls, AdvanceAdd(calls, s, i), peer, mine, shards)
  {
    assert StageClosed(|s.records|, s.table, calls[i], s.stages[i]);
    AddWrites(calls, s, i, peer, mine, shards);
  }

  lemma HoldsAdd(calls: seq<Call>, s: State, i: nat, peer: PeerID, mine: set<nat>, shards: set<int>)
    requires Closed(calls, s) && OwnsAll(calls, s, peer, mine) && Holds(calls, s, peer, mine, shards)
    requires i < |calls| && calls[i].kind.AddShard?
    requires AcceptedAdd(calls[i], peer) ==> TargetSet(calls[i].shardID) == shards
    ensures OwnsAll(calls, AdvanceAdd(calls, s, i), peer, MineAfterAdd(calls, s, i, peer, mine))
    ensures Holds(calls, AdvanceAdd(calls, s, i), peer, MineAfterAdd(calls, s, i, peer, mine), shards)
  {
    OwnsAllAdd(calls, s, i, peer, mine);
    match s.stages[i]
    case Start => HoldsAddStart(calls, s, i, peer, mine, shards);
    case HasRecord(_) => HoldsAddWrite(calls, s, i, peer, mine, shards);
    case BitWritten(_) => HoldsAddStore(calls, s, i, peer, mine, shards);
    case _ =>
  }

  lemma RemoveWritesNothing(calls: seq<Call>, s: State, i: nat, peer: PeerID, mine: set<nat>, shards: set<int>)
    requires Closed(calls, s) && OwnsAll(calls, s, peer, mine)
    requires forall k | k in mine :: ShardSet(s.slices[k]) <= shards
    requires i < |calls| && (calls[i].peer == peer ==> TargetSet(calls[i].shardID) !! shards)
    ensures |AdvanceRemove(calls, s, i).slices| == |s.slices|
    ensures forall k | k in mine :: ShardSet(AdvanceRemove(calls, s, i).slices[k]) == ShardSet(s.slices[k])
  {
    assert StageClosed(|s.records|, s.table, calls[i], s.stages[i]);
    if s.stages[i].MustUnset? && calls[i].peer == peer {
      ActsOnTarget(s.slices[SliceOf(s, peer)], calls[i].shardID);
    }
  }

  lemma RemoveShape(calls: seq<Call>, s: State, i: nat)
    requires Closed(calls, s) && i < |calls|
    ensures var after := AdvanceRemove(calls, s, i);
            && after.table == s.table && after.records == s.records && after.inFlight == s.inFlight
            && after.stages == s.stages[i := after.stages[i]] && (after.stages[i].BitWritten? ==> after == s)
  {
  }

  lemma HoldsRemove(calls: seq<Call>, s: State, i: nat, peer: PeerID, mine: set<nat>, shards: set<int>)
    requires Closed(calls, s) && OwnsAll(calls, s, peer, mine) && Holds(calls, s, peer, mine, shards)
    requires i < |calls| && calls[i].kind.RemoveShard?
    requires calls[i].peer == peer ==> TargetSet(calls[i].shardID) !! shards
    ensures OwnsAll(calls, AdvanceRemove(calls, s, i), peer, mine)
    ensures Holds(calls, AdvanceRemove(calls, s, i), peer, mine, shards)
  {
    OwnsAllRemove(calls, s, i, peer, mine);
    RemoveWritesNothing(calls, s, i, peer, mine, shards);
    RemoveShape(calls, s, i);
  }

  /** Every Add on the peer that goes through adds `shards`, and no Remove removes any of them. */
  ghost predicate AddsOnly(calls: seq<Call>, peer: PeerID, shards: set<int>) {
    forall i | 0 <= i < |calls| && calls[i].peer == peer ::
      if calls[i].kind.AddShard? then Accepted(calls[i].shardID) ==> TargetSet(calls[i].shardID) == shards
      else TargetSet(calls[i].shardID) !! shards
  }

  lemma {:induction false} RunHolds(calls: seq<Call>, s: State, events: seq<Event>, peer: PeerID, shards: set<int>)
    returns (mine: set<nat>)
    requires Closed(calls, s) && AllAtStart(s) && peer !in s.table
    requires forall m | 0 <= m < |s.inFlight| :: s.inFlight[m].peer != peer
    requires AddsOnly(calls, peer, shards) && NotReplaced(events, peer)
    ensures OwnsAll(calls, Run(calls, s, events), peer, mine)
    ensures Holds(calls, Run(calls, s, events), peer, mine, shards)
  {
    if events == [] {
      mine := {};
    } else {
      var pre, e := events[..|events| - 1], events[|events| - 1];
      mine := RunHolds(calls, s, pre, peer, shards);
      var before := Run(calls, s, pre);
      if e.Advance? && e.call < |calls| {
        if calls[e.call].kind.AddShard? {
          HoldsAdd(calls, before, e.call, peer, mine, shards);
          mine := MineAfterAdd(calls, before, e.call, peer, mine);
        } else {
          HoldsRemove(calls, before, e.call, peer, mine, shards);
        }
      } else if !e.Advance? {
        HoldsEnvironment(calls, before, e, peer, mine, shards);
      }
    }
  }

  /** All Adds on the peer that go through add the same: one shard, or, by a negative ID, none. */
  ghost predicate AddTheSame(calls: seq<Call>, peer: PeerID) {
    forall i, j | 0 <= i < |calls| && 0 <= j < |calls| && AcceptedAdd(calls[i], peer) && AcceptedAdd(calls[j], peer) ::
      TargetSet(calls[i].shardID) == TargetSet(calls[j].shardID)
  }

  lemma WhatTheyAdd(calls: seq<Call>, peer: PeerID)
    requires NoConflict(calls, peer) && AddTheSame(calls, peer)
    ensures AddsOnly(calls, peer, CalledShards(calls, AddShard, peer))
    ensures CalledShards(calls, AddShard, peer) !! CalledShards(calls, RemoveShard, peer)
  {
    var shards := CalledShards(calls, AddShard, peer);
    forall i | 0 <= i < |calls| && AcceptedAdd(calls[i], peer) ensures TargetSet(calls[i].shardID) == shards {
      forall x | x in shards ensures x in TargetSet(calls[i].shardID) {
        var j :| 0 <= j < |calls| && calls[j].kind == AddShard && calls[j].peer == peer
                 && Target(calls[j].shardID).Some? && Target(calls[j].shardID).value == x;
        TargetIs(calls[j].shardID);
        assert AcceptedAdd(calls[j], peer);
      }
    }
  }

  /** Then nothing is lost on an unrecorded peer either. */
  lemma TheSameIsSafe(calls: seq<Call>, s: State, peer: PeerID)
    requires Closed(calls, s) && AllAtStart(s) && NoConflict(calls, peer) && peer !in s.table
    requires forall m | 0 <= m < |s.inFlight| :: s.inFlight[m].peer != peer
    requires AddTheSame(calls, peer)
    ensures NothingEverLost(calls, s, peer)
  {
    var shards := CalledShards(calls, AddShard, peer);
    WhatTheyAdd(calls, peer);
    forall events | NotReplaced(events, peer) && AllReturned(Run(calls, s, events))
      ensures ShardsOf(calls, Run(calls, s, events), peer) == shards
    {
      var mine := RunHolds(calls, s, events, peer, shards);
      var end := Run(calls, s, events);
      if x :| x in shards {
        var i :| 0 <= i < |calls| && calls[i].kind == AddShard && calls[i].peer == peer
                 && Target(calls[i].shardID).Some? && Target(calls[i].shardID).value == x;
        TargetIs(calls[i].shardID);
        assert AcceptedAdd(calls[i], peer) && end.stages[i].Returned?;
      }
    }
  }

  // ---------------------------------------------------------------- exactly when

  /** Of two Adds that add different shards, the race can leave what one of them adds. */
  lemma RaceLoses(calls: seq<Call>, s: State, i: nat, j: nat)
    requires Closed(calls, s) && AllAtStart(s) && i < |calls| && j < |calls|
    requires AcceptedAdd(calls[i], calls[j].peer) && AcceptedAdd(calls[j], calls[j].peer) && calls[j].peer !in s.table
    requires NoConflict(calls, calls[j].peer)
    requires !(TargetSet(calls[i].shardID) <= TargetSet(calls[j].shardID))
    ensures !NothingEverLost(calls, s, calls[j].peer)
  {
    var x := Target(calls[i].shardID).value;
    var events := FirstRecordRace(calls, s, j);
    assert x in CalledShards(calls, AddShard, calls[j].peer);
    AddedNotRemoved(calls, calls[j].peer, i);
    assert x !in ShardsOf(calls, Run(calls, s, events), calls[j].peer);
  }

  lemma AddedNotRemoved(calls: seq<Call>, peer: PeerID, i: nat)
    requires NoConflict(calls, peer) && i < |calls| && calls[i].kind.AddShard? && calls[i].peer == peer
    requires Target(calls[i].shardID).Some?
    ensures Target(calls[i].shardID).value !in CalledShards(calls, RemoveShard, peer)
  {
  }

  /** Whatever the calls and their IDs, every interleaving keeps every update exactly when the peer
      already had a record, or all the Adds for it that go through add the same. */
  lemma NeverLostExactly(calls: seq<Call>, s: State, peer: PeerID)
    requires Closed(calls, s) && AllAtStart(s) && NoConflict(calls, peer)
    requires if peer in s.table then Owns(calls, s, peer, SliceOf(s, peer))
             else forall m | 0 <= m < |s.inFlight| :: s.inFlight[m].peer != peer
    ensures NothingEverLost(calls, s, peer) <==> peer in s.table || AddTheSame(calls, peer)
  {
    if peer in s.table {
      forall events | NotReplaced(events, peer) && AllReturned(Run(calls, s, events))
        ensures ShardsOf(calls, Run(calls, s, events), peer)
             == ShardsOf(calls, s, peer) + CalledShards(calls, AddShard, peer) - CalledShards(calls, RemoveShard, peer)
      {
        NoLostUpdate(calls, s, events, peer);
      }
    } else if AddTheSame(calls, peer) {
      TheSameIsSafe(calls, s, peer);
    } else {
      var i, j :| 0 <= i < |calls| && 0 <= j < |calls| && AcceptedAdd(calls[i], peer) && AcceptedAdd(calls[j], peer)
                  && TargetSet(calls[i].shardID) != TargetSet(calls[j].shardID);
      if TargetSet(calls[i].shardID) <= TargetSet(calls[j].shardID) {
        RaceLoses(calls, s, j, i);
      } else {
        RaceLoses(calls, s, i, j);
      }
    }
  }

  /** Without negative IDs, adding the same means adding one shard in range at most. */
  lemma AddTheSameInRange(calls: seq<Call>, peer: PeerID)
    requires forall i | 0 <= i < |calls| && calls[i].peer == peer :: 0 <= calls[i].shardID
    ensures AddTheSame(calls, peer) <==>
            forall i, j | 0 <= i < |calls| && 0 <= j < |calls| && calls[i].kind.AddShard? && calls[j].kind.AddShard?
                          && calls[i].peer == peer && calls[j].peer == peer
                          && InRange(calls[i].shardID) && InRange(calls[j].shardID) ::
              calls[i].shardID == calls[j].shardID
  {
    forall i | 0 <= i < |calls| && calls[i].peer == peer
      ensures Accepted(calls[i].shardID) <==> InRange(calls[i].shardID)
      ensures InRange(calls[i].shardID) ==> TargetSet(calls[i].shardID) == {calls[i].shardID}
    {
      TargetIs(calls[i].shardID);
    }
    if AddTheSame(calls, peer) {
      forall i, j | 0 <= i < |calls| && 0 <= j < |calls| && calls[i].kind.AddShard? && calls[j].kind.AddShard?
                    && calls[i].peer == peer && calls[j].peer == peer
                    && InRange(calls[i].shardID) && InRange(calls[j].shardID)
        ensures calls[i].shardID == calls[j].shardID
      {
        assert AcceptedAdd(calls[i], peer) && AcceptedAdd(calls[j], peer);
        assert calls[i].shardID in TargetSet(calls[j].shardID);
      }
    }
  }
}
