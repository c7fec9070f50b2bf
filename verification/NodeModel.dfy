/** One node's state with every pointer followed, and what each call of `discovery.go` and
    `shardmanager.go` does to it. The classes in `ShardManager.dfy` are proved against these
    functions; the theorems about runs are about these functions. */
module NodeModel {
  import opened Common
  import opened Bitset
  import opened PrefTable
  import opened Topics

  datatype NodeState = NodeState(
    self: PeerID,
    table: Table,
    wire: seq<Bytes>,          // the preferences published so far
    subs: map<string, nat>,    // topic to subscription
    topics: seq<string>,       // the topic of every subscription ever created
    cancels: seq<nat>)         // how often each of them was cancelled

  /** What the pubsub service answers during a call. */
  datatype Env = Env(publishOk: bool, subscribeOk: bool)

  /** Skipped and Done return nil, Failed returns an error. */
  datatype Outcome = Skipped | Done | Failed

  function Own(n: NodeState): Bytes {
    BitsOf(n.table, n.self)
  }

  predicate IsShardListened(n: NodeState, shardID: int) {
    Has(Own(n), shardID)
  }

  predicate IsCollationSubscribed(n: NodeState, shardID: int) {
    CollationsTopic(shardID) in n.subs
  }

  // ---------------------------------------------------------------- calls

  /** If we are not listening to this shard yet, add it; if we are, remove it. */
  function Toggled(self: PeerID, table: Table, shardID: int): (Table, bool) {
    if Listening(table, self, shardID) then RemoveShard(table, self, shardID) else AddShard(table, self, shardID)
  }

  /** Table, published preferences and result of `GlobalTable.Advertise`. */
  function Advertised(self: PeerID, table: Table, wire: seq<Bytes>, topic: string, publishOk: bool)
    : (Table, seq<Bytes>, bool)
  {
    match ParseInt(topic)
    case Err => (table, wire, false)
    case Ok(shardID) =>
      var (after, ok) := Toggled(self, table, shardID);
      if !ok then (after, wire, false)
      else if publishOk then (after, wire + [BitsOf(after, self)], true)
      else (after, wire, false)
  }

  function Advertise(n: NodeState, shardID: int, publishOk: bool): (NodeState, bool) {
    var (table, wire, ok) := Advertised(n.self, n.table, n.wire, FormatInt(shardID), publishOk);
    (n.(table := table, wire := wire), ok)
  }

  function SubscribeTopic(n: NodeState, topic: string, subscribeOk: bool): (NodeState, bool) {
    if !subscribeOk then (n, false)
    else
      (n.(subs := n.subs[topic := |n.topics|], topics := n.topics + [topic], cancels := n.cancels + [0]), true)
  }

  function UnsubscribeTopic(n: NodeState, topic: string): NodeState {
    if topic !in n.subs || n.subs[topic] >= |n.cancels| then n
    else
      var id := n.subs[topic];
      n.(subs := n.subs - {topic}, cancels := n.cancels[id := n.cancels[id] + 1])
  }

  function ListenShard(n: NodeState, shardID: int, env: Env): (NodeState, Outcome) {
    if IsShardListened(n, shardID) then (n, Skipped)
    else
      var (advertised, ok) := Advertise(n, shardID, env.publishOk);
      if !ok then (advertised, Failed)
      else
        var (after, subscribed) := SubscribeTopic(advertised, CollationsTopic(shardID), env.subscribeOk);
        (after, if subscribed then Done else Failed)
  }

  function UnlistenShard(n: NodeState, shardID: int, env: Env): (NodeState, Outcome) {
    if !IsShardListened(n, shardID) then (n, Skipped)
    else
      var (advertised, ok) := Advertise(n, shardID, env.publishOk);
      if !ok then (advertised, Failed)
      else (UnsubscribeTopic(advertised, CollationsTopic(shardID)), Done)
  }

  /** The preference handler on a message from another peer. */
  function ReceivePreference(n: NodeState, from: PeerID, bits: Bytes): NodeState {
    n.(table := n.table[from := bits])
  }

  datatype Call =
    | Listen(shardID: int, env: Env)
    | Unlisten(shardID: int, env: Env)
    | Receive(from: PeerID, bits: Bytes)
    | ReceiveOwn            // by reference: the table keeps the slice it has

  function Step(n: NodeState, call: Call): (NodeState, Outcome) {
    match call
    case Listen(s, env) => ListenShard(n, s, env)
    case Unlisten(s, env) => UnlistenShard(n, s, env)
    case Receive(from, bits) => (ReceivePreference(n, from, bits), Skipped)
    case ReceiveOwn => (n, Skipped)
  }

  /** A call publishes a preference: it passes the early return, and toggling and publishing go through. */
  predicate Announces(n: NodeState, call: Call) {
    match call
    case Listen(s, env) => !IsShardListened(n, s) && Advertise(n, s, env.publishOk).1
    case Unlisten(s, env) => IsShardListened(n, s) && Advertise(n, s, env.publishOk).1
    case Receive(_, _) | ReceiveOwn => false
  }

  lemma AnnouncesOnce(n: NodeState, call: Call)
    ensures var after := Step(n, call).0;
            after.wire == if Announces(n, call) then n.wire + [Own(after)] else n.wire
  {
  }

  function Run(n: NodeState, calls: seq<Call>): NodeState {
    if calls == [] then n else Step(Run(n, calls[..|calls| - 1]), calls[|calls| - 1]).0
  }

  // ---------------------------------------------------------------- invariants

  /** Entries are well formed; every subscription in `subs` exists, is for its topic, and is live. */
  ghost predicate ValidNode(n: NodeState) {
    && WellFormedTable(n.table)
    && |n.cancels| == |n.topics|
    && (forall t | t in n.subs :: n.subs[t] < |n.topics| && n.topics[n.subs[t]] == t && n.cancels[n.subs[t]] == 0)
    && (forall id | 0 <= id < |n.cancels| :: n.cancels[id] <= 1)
  }

  /** A node right after `NewShardManager`: subscribed to the preference topic, nothing else. */
  ghost predicate Fresh(n: NodeState) {
    && n.table == map[] && n.wire == []
    && n.subs == map[LISTENING_SHARD_TOPIC := 0] && n.topics == [LISTENING_SHARD_TOPIC] && n.cancels == [0]
  }

  /** A call that does not panic. Shard IDs are any int64s; but a node with a record tests it for the ID
      before it lists or unlists anything, and that must not run off the slice. What others send is
      well formed and not in our name. */
  ghost predicate HonestCall(n: NodeState, call: Call) {
    match call
    case Listen(s, _) => IsInt64(s) && (n.self in n.table ==> Addressable(s))
    case Unlisten(s, _) => IsInt64(s)
    case Receive(from, bits) => from != n.self && WellFormed(bits)
    case ReceiveOwn => true
  }

  ghost predicate HonestCalls(n: NodeState, calls: seq<Call>) {
    calls == []
    || (HonestCalls(n, calls[..|calls| - 1]) && HonestCall(Run(n, calls[..|calls| - 1]), calls[|calls| - 1]))
  }

  ghost predicate NonNegative(call: Call) {
    call.Listen? || call.Unlisten? ==> 0 <= call.shardID
  }

  ghost predicate AllNonNegative(calls: seq<Call>) {
    forall i | 0 <= i < |calls| :: NonNegative(calls[i])
  }

  ghost predicate Agrees(n: NodeState, shardID: int) {
    IsShardListened(n, shardID) <==> IsCollationSubscribed(n, shardID)
  }

  // ---------------------------------------------------------------- what a call means

  lemma ListenedIsAddressable(n: NodeState, shardID: int)
    ensures IsShardListened(n, shardID) ==> Addressable(shardID)
  {
    TargetIs(shardID);
  }

  /** `Advertise` on any int64 at all: an ID that `setShard` does not accept changes nothing and is an
      error; any other toggles its target, even if the publication then fails. */
  lemma AdvertiseActsOnTarget(n: NodeState, shardID: int, publishOk: bool)
    requires WellFormedTable(n.table) && IsInt64(shardID)
    ensures var (after, ok) := Advertise(n, shardID, publishOk);
            && (!Accepted(shardID) ==> after == n && !ok)
            && (Accepted(shardID) ==>
                  && ok == publishOk
                  && after == n.(table := n.table[n.self := Own(after)],
                                 wire := if publishOk then n.wire + [Own(after)] else n.wire)
                  && WellFormed(Own(after))
                  && ShardSet(Own(after)) ==
                     if TargetSet(shardID) <= ShardSet(Own(n)) then ShardSet(Own(n)) - TargetSet(shardID)
                     else ShardSet(Own(n)) + TargetSet(shardID))
  {
    ParseFormat(shardID);
    EmptyHasNoShards();
    ActsOnTarget(Own(n), shardID);
    ActsOnTarget(EMPTY, shardID);
    ApplyKeepsWellFormed(Own(n), Set(shardID));
    ApplyKeepsWellFormed(Own(n), Unset(shardID));
  }

  /** `Advertise` toggles: it adds a shard that is not there and removes one that is. The error of an
      ID past the range comes before anything changes, a publishing error after the toggle. */
  lemma AdvertiseToggles(n: NodeState, shardID: int, publishOk: bool)
    requires WellFormedTable(n.table) && 0 <= shardID && IsInt64(shardID)
    ensures var (after, ok) := Advertise(n, shardID, publishOk);
            && (shardID >= NUM_SHARDS ==> after == n && !ok)
            && (shardID < NUM_SHARDS ==>
                  && ok == publishOk
                  && after == n.(table := n.table[n.self := Own(after)],
                                 wire := if publishOk then n.wire + [Own(after)] else n.wire)
                  && WellFormed(Own(after))
                  && ShardSet(Own(after)) ==
                     if shardID in ShardSet(Own(n)) then ShardSet(Own(n)) - {shardID} else ShardSet(Own(n)) + {shardID})
  {
    TargetIs(shardID);
    AdvertiseActsOnTarget(n, shardID, publishOk);
  }

  /** Advertising toggles exactly one shard's bit, or none: that of the target. */
  lemma AdvertiseMovesTarget(n: NodeState, shardID: int, publishOk: bool, t: int)
    requires WellFormedTable(n.table) && IsInt64(shardID)
    ensures IsShardListened(Advertise(n, shardID, publishOk).0, t) <==>
              (IsShardListened(n, t) != (Target(shardID) == Some(t)))
  {
    TargetIs(shardID);
    AdvertiseActsOnTarget(n, shardID, publishOk);
    var after := Advertise(n, shardID, publishOk).0;
    assert InRange(t) ==> (t in ShardSet(Own(after)) <==> IsShardListened(after, t));
    assert InRange(t) ==> (t in ShardSet(Own(n)) <==> IsShardListened(n, t));
  }
}
