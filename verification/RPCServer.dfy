/** The batch calls of `rpcserver.go` and the client side of `discovershard` in `cli.go`. */
module RPCServer {
  import opened Common
  import opened Bitset
  import opened PrefTable
  import opened Topics
  import opened PeerCodec
  import opened PeerSelection
  import opened ShardManager
  import Model = NodeModel
  import Runs = NodeRuns

  /** A batch as a run; `envs[i]` is what the pubsub service answers during the i-th call. */
  ghost function ListenCalls(shardIDs: seq<int>, envs: seq<Model.Env>): seq<Model.Call>
    requires |envs| == |shardIDs|
  {
    seq(|shardIDs|, i requires 0 <= i < |shardIDs| => Model.Listen(shardIDs[i], envs[i]))
  }

  ghost function UnlistenCalls(shardIDs: seq<int>, envs: seq<Model.Env>): seq<Model.Call>
    requires |envs| == |shardIDs|
  {
    seq(|shardIDs|, i requires 0 <= i < |shardIDs| => Model.Unlisten(shardIDs[i], envs[i]))
  }

  /** The request's `int64`s. */
  ghost predicate Int64s(shardIDs: seq<int>) {
    forall i | 0 <= i < |shardIDs| :: IsInt64(shardIDs[i])
  }

  ghost predicate NonNegatives(shardIDs: seq<int>) {
    forall i | 0 <= i < |shardIDs| :: 0 <= shardIDs[i]
  }

  /** No shard ID panics a node if it is not negative, and no UnlistenShard does at all. */
  lemma {:induction false} HonestBatch(n: Model.NodeState, calls: seq<Model.Call>)
    requires forall i | 0 <= i < |calls| :: (calls[i].Listen? || calls[i].Unlisten?) && IsInt64(calls[i].shardID)
    requires forall i | 0 <= i < |calls| && calls[i].Listen? :: 0 <= calls[i].shardID
    ensures Model.HonestCalls(n, calls)
  {
    if calls == [] {
    } else {
      HonestBatch(n, calls[..|calls| - 1]);
      TargetIs(calls[|calls| - 1].shardID);
    }
  }

  lemma BatchShards(shardIDs: seq<int>, envs: seq<Model.Env>)
    requires |envs| == |shardIDs|
    ensures Runs.CalledShards(ListenCalls(shardIDs, envs)) == InRangePart(shardIDs)
    ensures Runs.CalledShards(UnlistenCalls(shardIDs, envs)) == InRangePart(shardIDs)
  {
    var listens, unlistens := ListenCalls(shardIDs, envs), UnlistenCalls(shardIDs, envs);
    forall i | 0 <= i < |shardIDs| && InRange(shardIDs[i])
      ensures shardIDs[i] in Runs.CalledShards(listens) && shardIDs[i] in Runs.CalledShards(unlistens)
    {
      assert listens[i].shardID == shardIDs[i] && unlistens[i].shardID == shardIDs[i];
    }
  }

  /** A batch of subscriptions unites with the shards listened to, a batch of unsubscriptions subtracts
      from them, whatever the order, the repetitions, the IDs past the range and the failures. */
  lemma BatchMeaning(n: Model.NodeState, shardIDs: seq<int>, envs: seq<Model.Env>)
    requires Model.ValidNode(n) && Int64s(shardIDs) && |envs| == |shardIDs|
    ensures NonNegatives(shardIDs) ==>
              ShardSet(Model.Own(Model.Run(n, ListenCalls(shardIDs, envs))))
                  == ShardSet(Model.Own(n)) + InRangePart(shardIDs)
    ensures ShardSet(Model.Own(Model.Run(n, UnlistenCalls(shardIDs, envs))))
            == ShardSet(Model.Own(n)) - InRangePart(shardIDs)
  {
    BatchShards(shardIDs, envs);
    HonestBatch(n, UnlistenCalls(shardIDs, envs));
    Runs.BatchIsUnionOrDifference(n, UnlistenCalls(shardIDs, envs));
    if NonNegatives(shardIDs) {
      HonestBatch(n, ListenCalls(shardIDs, envs));
      Runs.BatchIsUnionOrDifference(n, ListenCalls(shardIDs, envs));
    }
  }

  lemma ListenCallAt(n: Model.NodeState, shardIDs: seq<int>, envs: seq<Model.Env>, i: nat)
    requires |envs| == |shardIDs| && i < |shardIDs| && Model.HonestCalls(n, ListenCalls(shardIDs, envs))
    ensures var calls, call := ListenCalls(shardIDs, envs), Model.Listen(shardIDs[i], envs[i]);
            && Model.HonestCall(Model.Run(n, calls[..i]), call)
            && Model.Run(n, calls[..i + 1]) == Model.Step(Model.Run(n, calls[..i]), call).0
  {
    Runs.RunStep(n, ListenCalls(shardIDs, envs), i);
    Runs.HonestPrefix(n, ListenCalls(shardIDs, envs), i);
  }

  /** Whom the call on `shardID` connects to, once its announcement took the node to `after`; nobody if
      it announced nothing. */
  ghost predicate ConnectsAfter(before: Model.NodeState, shardID: int, env: Model.Env, target: int,
                                connected: seq<PeerID>, linked: set<PeerID>,
                                chosen: seq<PeerID>, dialled: seq<PeerID>)
  {
    var call := Model.Listen(shardID, env);
    if Model.Announces(before, call) then
      var others := PeersInShard(Model.Step(before, call).0.table, shardID) - {before.self};
      Connects(target, others, connected, linked, chosen, dialled)
    else chosen == [] && dialled == []
  }

  /** So it is for every call of a batch that has been made. */
  ghost predicate BatchConnects(start: Model.NodeState, shardIDs: seq<int>, envs: seq<Model.Env>, target: int,
                                connected: seq<seq<PeerID>>, linked: seq<set<PeerID>>,
                                chosen: seq<seq<PeerID>>, dialled: seq<seq<PeerID>>)
    requires |envs| == |connected| == |linked| == |shardIDs|
  {
    && |chosen| == |dialled| <= |shardIDs|
    && forall k | 0 <= k < |chosen| ::
         ConnectsAfter(Model.Run(start, ListenCalls(shardIDs, envs)[..k]), shardIDs[k], envs[k],
                       target, connected[k], linked[k], chosen[k], dialled[k])
  }

  lemma OneMoreConnects(start: Model.NodeState, shardIDs: seq<int>, envs: seq<Model.Env>, target: int,
                        connected: seq<seq<PeerID>>, linked: seq<set<PeerID>>,
                        chosen: seq<seq<PeerID>>, dialled: seq<seq<PeerID>>, c: seq<PeerID>, d: seq<PeerID>)
    requires |envs| == |connected| == |linked| == |shardIDs|
    requires BatchConnects(start, shardIDs, envs, target, connected, linked, chosen, dialled) && |chosen| < |shardIDs|
    requires var k := |chosen|;
             ConnectsAfter(Model.Run(start, ListenCalls(shardIDs, envs)[..k]), shardIDs[k], envs[k],
                           target, connected[k], linked[k], c, d)
    ensures BatchConnects(start, shardIDs, envs, target, connected, linked, chosen + [c], dialled + [d])
  {
  }

  method SubscribeOne(node: ShardManager, shardID: int, numShardPeerToConnect: int, env: Model.Env,
                      connected: seq<PeerID>, linked: set<PeerID>)
    returns (chosen: seq<PeerID>, dialled: seq<PeerID>)
    requires node.Valid() && Model.HonestCall(node.View(), Model.Listen(shardID, env))
    requires |Elements(connected)| < numShardPeerToConnect ==> |connected| <= numShardPeerToConnect
    modifies node`subs, node.pubsubService, node.shardPrefTable, node.shardPrefTable.ArrayOf(node.hostID)
    ensures node.Valid()
    ensures fresh(node.shardPrefTable.ArrayOf(node.hostID) - old(node.shardPrefTable.ArrayOf(node.hostID)))
    ensures node.View() == Model.Step(old(node.View()), Model.Listen(shardID, env)).0
    ensures ConnectsAfter(old(node.View()), shardID, env, numShardPeerToConnect, connected, linked, chosen, dialled)
  {
    var ok;
    ok, chosen, dialled := node.ListenShard(numShardPeerToConnect, shardID, env, connected, linked);
  }

  /** Subscribing to a list of shards unites: order, repetitions, IDs past the range and failing
      announcements make no difference to the shards listened to. A negative ID is listened to like
      any other, as long as that does not panic. For every ID in turn the node connects to the
      requested number of that shard's peers. */
  method SubscribeShard(node: ShardManager, shardIDs: seq<int>, numShardPeerToConnect: int,
                        envs: seq<Model.Env>, connected: seq<seq<PeerID>>, linked: seq<set<PeerID>>)
    returns (chosen: seq<seq<PeerID>>, dialled: seq<seq<PeerID>>)
    requires node.Valid() && Int64s(shardIDs) && |envs| == |connected| == |linked| == |shardIDs|
    requires Model.HonestCalls(node.View(), ListenCalls(shardIDs, envs))
    requires forall i | 0 <= i < |connected| ::
               |Elements(connected[i])| < numShardPeerToConnect ==> |connected[i]| <= numShardPeerToConnect
    modifies node`subs, node.pubsubService, node.shardPrefTable, node.shardPrefTable.ArrayOf(node.hostID)
    ensures node.Valid()
    ensures node.View() == Model.Run(old(node.View()), ListenCalls(shardIDs, envs))
    ensures NonNegatives(shardIDs) ==>
              ShardSet(Model.Own(node.View())) == ShardSet(Model.Own(old(node.View()))) + InRangePart(shardIDs)
    ensures |chosen| == |shardIDs|
    ensures BatchConnects(old(node.View()), shardIDs, envs, numShardPeerToConnect, connected, linked, chosen, dialled)
  {
    ghost var calls := ListenCalls(shardIDs, envs);
    ghost var start := node.View();
    chosen, dialled := [], [];
    for i := 0 to |shardIDs|
      invariant node.Valid()
      invariant fresh(node.shardPrefTable.ArrayOf(node.hostID) - old(node.shardPrefTable.ArrayOf(node.hostID)))
      invariant node.View() == Model.Run(start, calls[..i])
      invariant |chosen| == i
      invariant BatchConnects(start, shardIDs, envs, numShardPeerToConnect, connected, linked, chosen, dialled)
    {
      ListenCallAt(start, shardIDs, envs, i);
      var chosenHere, dialledHere :=
        SubscribeOne(node, shardIDs[i], numShardPeerToConnect, envs[i], connected[i], linked[i]);
      OneMoreConnects(start, shardIDs, envs, numShardPeerToConnect, connected, linked,
                      chosen, dialled, chosenHere, dialledHere);
      chosen, dialled := chosen + [chosenHere], dialled + [dialledHere];
    }
    assert calls[..|shardIDs|] == calls;
    BatchMeaning(start, shardIDs, envs);
  }

  /** Unsubscribing from a list of shards subtracts, whatever int64s the list holds. */
  method UnsubscribeShard(node: ShardManager, shardIDs: seq<int>, envs: seq<Model.Env>)
    requires node.Valid() && Int64s(shardIDs) && |envs| == |shardIDs|
    modifies node`subs, node.pubsubService, node.shardPrefTable, node.shardPrefTable.ArrayOf(node.hostID)
    ensures node.Valid()
    ensures node.View() == Model.Run(old(node.View()), UnlistenCalls(shardIDs, envs))
    ensures ShardSet(Model.Own(node.View())) == ShardSet(Model.Own(old(node.View()))) - InRangePart(shardIDs)
  {
    ghost var calls := UnlistenCalls(shardIDs, envs);
    ghost var start := node.View();
    for i := 0 to |shardIDs|
      invariant node.Valid()
      invariant fresh(node.shardPrefTable.ArrayOf(node.hostID) - old(node.shardPrefTable.ArrayOf(node.hostID)))
      invariant node.View() == Model.Run(start, calls[..i])
    {
      Runs.RunStep(start, calls, i);
      var _ := node.UnlistenShard(shardIDs[i], envs[i]);
    }
    assert calls[..|shardIDs|] == calls;
    BatchMeaning(start, shardIDs, envs);
  }

  // ---------------------------------------------------------------- discovershard

  /** Looking the topics up does not panic. */
  ghost predicate Queryable(table: Table, topics: seq<string>) {
    forall t | t in topics && ParseInt(ShardTopicToShardID(t)).Ok? ::
      AllTestable(table, ParseInt(ShardTopicToShardID(t)).value)
  }

  ghost predicate Parses(topic: string) {
    ParseInt(ShardTopicToShardID(topic)).Ok?
  }

  /** `peers` prints whom the table knows in the topic's shard, the node itself left out. */
  ghost predicate Answers(codec: Codec, table: Table, self: PeerID, topic: string, peers: seq<string>) {
    Parses(topic) && Prints(codec, peers, PeersInShard(table, ParseInt(ShardTopicToShardID(topic)).value) - {self})
  }

  method FindPrinted(node: ShardManager, topic: string, codec: Codec) returns (peers: Option<seq<string>>)
    requires node.Valid() && Queryable(node.View().table, [topic])
    ensures peers.Some? <==> Parses(topic)
    ensures peers.Some? ==> Answers(codec, node.View().table, node.hostID, topic, peers.value)
  {
    assert topic in [topic];
    var found := node.discovery.FindPeers(topic);
    node.shardPrefTable.ViewSame();
    if found.Err? {
      return None;
    }
    var printed := PeerIDsToPeersString(codec, found.value);
    node.shardPrefTable.ViewSame();
    assert Prints(codec, printed, Elements(found.value));
    peers := Some(printed);
  }

  /** The server's loop: topics that do not parse are left out of the answer. */
  method DiscoverTopics(node: ShardManager, topics: seq<string>, codec: Codec)
    returns (topicPeers: map<string, seq<string>>)
    requires node.Valid() && Queryable(node.View().table, topics)
    ensures forall t :: t in topicPeers <==> t in topics && Parses(t)
    ensures forall t | t in topicPeers :: Answers(codec, node.View().table, node.hostID, t, topicPeers[t])
  {
    topicPeers := map[];
    label start:
    ghost var table := node.View().table;
    for i := 0 to |topics|
      invariant forall t :: t in topicPeers <==> t in topics[..i] && Parses(t)
      invariant forall t | t in topicPeers :: Answers(codec, table, node.hostID, t, topicPeers[t])
    {
      node.shardPrefTable.ViewSame@start();
      assert topics[i] in topics;
      var peers := FindPrinted(node, topics[i], codec);
      node.shardPrefTable.ViewSame@start();
      if peers.Some? {
        topicPeers := topicPeers[topics[i] := peers.value];
      }
      assert topics[..i + 1] == topics[..i] + [topics[i]];
    }
    assert topics[..|topics|] == topics;
    node.shardPrefTable.ViewSame@start();
  }

  lemma InRangeTestable(table: Table, shardID: int)
    requires WellFormedTable(table) && 0 <= shardID
    ensures AllTestable(table, shardID)
  {
    forall p | p in table ensures Testable(table[p], shardID) {
      HasBitIsMembership(table[p], shardID);
    }
  }

  /** Without topics in the request, the shards listened to are looked up by their bare decimals. */
  method DiscoverShard(node: ShardManager, requested: seq<string>, codec: Codec)
    returns (topicPeers: map<string, seq<string>>)
    requires node.Valid() && Queryable(node.View().table, requested)
    ensures requested != [] ==> forall t :: t in topicPeers <==> t in requested && Parses(t)
    ensures requested == [] ==>
              forall t :: t in topicPeers <==> exists s :: s in ShardSet(Model.Own(node.View())) && t == FormatInt(s)
    ensures forall t | t in topicPeers :: Answers(codec, node.View().table, node.hostID, t, topicPeers[t])
  {
    if requested != [] {
      topicPeers := DiscoverTopics(node, requested, codec);
      return;
    }
    label start:
    var shards := node.GetListeningShards();
    node.shardPrefTable.ViewSame();
    var topics: seq<string> := [];
    for i := 0 to |shards|
      invariant |topics| == i && forall k | 0 <= k < i :: topics[k] == FormatInt(shards[k])
    {
      topics := topics + [FormatInt(shards[i])];
    }
    forall t | t in topics
      ensures Parses(t) && AllTestable(node.View().table, ParseInt(ShardTopicToShardID(t)).value)
      ensures exists s :: s in ShardSet(Model.Own(node.View())) && t == FormatInt(s)
    {
      var k :| 0 <= k < |topics| && topics[k] == t;
      assert shards[k] in Elements(shards);
      TopicRoundTrip(shards[k]);
      InRangeTestable(node.View().table, shards[k]);
    }
    forall s | s in ShardSet(Model.Own(node.View())) ensures FormatInt(s) in topics {
      assert s in Elements(shards);
      var k :| 0 <= k < |shards| && shards[k] == s;
      assert topics[k] == FormatInt(s);
    }
    topicPeers := DiscoverTopics(node, topics, codec);
    node.shardPrefTable.ViewSame@start();
  }

  ghost predicate Under(topicPeers: map<string, seq<string>>, topic: string, key: string) {
    topic in topicPeers && ShardTopicToShardID(topic) == key
  }

  ghost predicate CameFrom(topicPeers: map<string, seq<string>>, shardPeers: map<string, seq<string>>,
                           origin: map<string, string>)
  {
    forall k | k in shardPeers ::
      k in origin && Under(topicPeers, origin[k], k) && shardPeers[k] == topicPeers[origin[k]]
  }

  /** The client's loop: back from topics to decimal shard IDs, in whatever order Go visits them. */
  method StripTopics(topicPeers: map<string, seq<string>>)
    returns (shardPeers: map<string, seq<string>>, ghost origin: map<string, string>)
    ensures forall t | t in topicPeers :: ShardTopicToShardID(t) in shardPeers
    ensures CameFrom(topicPeers, shardPeers, origin)
  {
    shardPeers, origin := map[], map[];
    var rest := topicPeers.Keys;
    while rest != {}
      invariant rest <= topicPeers.Keys
      invariant forall t | t in topicPeers && t !in rest :: ShardTopicToShardID(t) in shardPeers
      invariant CameFrom(topicPeers, shardPeers, origin)
      decreases rest
    {
      var topic := Pick(rest);
      shardPeers := shardPeers[ShardTopicToShardID(topic) := topicPeers[topic]];
      origin := origin[ShardTopicToShardID(topic) := topic];
      rest := rest - {topic};
    }
  }

  /** The shards a `discovershard` command asks about: none named means the node's own. */
  ghost function Wanted(shards: seq<int>, n: Model.NodeState): set<int> {
    if shards == [] then ShardSet(Model.Own(n)) else Elements(shards)
  }

  /** The keys are exactly the decimals of the wanted shards, and under each of them stand, printed
      once each, exactly the other nodes that the table knows to listen to that shard. */
  ghost predicate AnswersExactly(codec: Codec, n: Model.NodeState, wanted: set<int>,
                                 shardPeers: map<string, seq<string>>)
  {
    && KeysAreDecimals(wanted, shardPeers)
    && (forall s | s in wanted :: AnswerUnder(codec, n, shardPeers, s))
  }

  ghost predicate KeysAreDecimals(wanted: set<int>, shardPeers: map<string, seq<string>>) {
    forall k | k in shardPeers :: exists s :: s in wanted && k == FormatInt(s)
  }

  ghost predicate AnswerUnder(codec: Codec, n: Model.NodeState, shardPeers: map<string, seq<string>>, shardID: int) {
    FormatInt(shardID) in shardPeers
    && Prints(codec, shardPeers[FormatInt(shardID)], PeersInShard(n.table, shardID) - {n.self})
  }

  /** `discovershard` through client and server: the answer's keys are exactly the decimals of the
      shards asked about, and each names exactly the other nodes known to listen there. */
  method CallRPCDiscover(node: ShardManager, shards: seq<int>, codec: Codec)
    returns (shardPeers: map<string, seq<string>>)
    requires node.Valid() && Int64s(shards)
    requires forall s | s in shards :: AllTestable(node.View().table, s)
    ensures AnswersExactly(codec, node.View(), Wanted(shards, node.View()), shardPeers)
  {
    var topics: seq<string> := [];
    for i := 0 to |shards|
      invariant |topics| == i && forall k | 0 <= k < i :: topics[k] == CollationsTopic(shards[k])
    {
      topics := topics + [CollationsTopic(shards[i])];
    }
    label start:
    ghost var n := node.View();
    CollationTopicsQueryable(n.table, shards, topics);
    var topicPeers := DiscoverShard(node, topics, codec);
    node.shardPrefTable.ViewSame@start();
    ghost var origin;
    shardPeers, origin := StripTopics(topicPeers);
    node.shardPrefTable.ViewSame@start();
    TopicsOfWanted(n, shards, topics, topicPeers);
    StrippedKeys(Wanted(shards, n), topicPeers, shardPeers, origin);
    StrippedAnswers(codec, n, Wanted(shards, n), topicPeers, shardPeers, origin);
  }

  lemma CollationTopicsQueryable(table: Table, shards: seq<int>, topics: seq<string>)
    requires Int64s(shards) && forall s | s in shards :: AllTestable(table, s)
    requires |topics| == |shards| && forall k | 0 <= k < |shards| :: topics[k] == CollationsTopic(shards[k])
    ensures Queryable(table, topics) && forall t | t in topics :: Parses(t)
  {
    forall t | t in topics ensures Parses(t) && AllTestable(table, ParseInt(ShardTopicToShardID(t)).value) {
      var k :| 0 <= k < |topics| && topics[k] == t;
      TopicRoundTrip(shards[k]);
      assert shards[k] in shards;
    }
  }

  lemma AnswerForShard(codec: Codec, table: Table, self: PeerID, topic: string, peers: seq<string>, shardID: int)
    requires IsInt64(shardID) && ShardTopicToShardID(topic) == FormatInt(shardID)
    requires Answers(codec, table, self, topic, peers)
    ensures Prints(codec, peers, PeersInShard(table, shardID) - {self})
  {
    ParseFormat(shardID);
  }

  /** Stripping loses nothing: whichever topic an answer came under, its key tells the shard. */
  lemma StrippedKeys(wanted: set<int>, topicPeers: map<string, seq<string>>,
                     shardPeers: map<string, seq<string>>, origin: map<string, string>)
    requires forall t | t in topicPeers :: exists s :: s in wanted && Under(topicPeers, t, FormatInt(s))
    requires CameFrom(topicPeers, shardPeers, origin)
    ensures KeysAreDecimals(wanted, shardPeers)
  {
    forall k | k in shardPeers ensures exists s :: s in wanted && k == FormatInt(s) {
      assert Under(topicPeers, origin[k], k);
    }
  }

  lemma StrippedAnswers(codec: Codec, n: Model.NodeState, wanted: set<int>, topicPeers: map<string, seq<string>>,
                        shardPeers: map<string, seq<string>>, origin: map<string, string>)
    requires forall s | s in wanted :: IsInt64(s) && exists t :: Under(topicPeers, t, FormatInt(s))
    requires forall t | t in topicPeers :: Answers(codec, n.table, n.self, t, topicPeers[t])
    requires forall t | t in topicPeers :: ShardTopicToShardID(t) in shardPeers
    requires CameFrom(topicPeers, shardPeers, origin)
    ensures forall s | s in wanted :: AnswerUnder(codec, n, shardPeers, s)
  {
    forall s | s in wanted ensures AnswerUnder(codec, n, shardPeers, s) {
      StrippedAnswer(codec, n, topicPeers, shardPeers, origin, s);
    }
  }

  lemma StrippedAnswer(codec: Codec, n: Model.NodeState, topicPeers: map<string, seq<string>>,
                       shardPeers: map<string, seq<string>>, origin: map<string, string>, shardID: int)
    requires IsInt64(shardID) && exists t :: Under(topicPeers, t, FormatInt(shardID))
    requires forall t | t in topicPeers :: Answers(codec, n.table, n.self, t, topicPeers[t])
    requires forall t | t in topicPeers :: ShardTopicToShardID(t) in shardPeers
    requires CameFrom(topicPeers, shardPeers, origin)
    ensures AnswerUnder(codec, n, shardPeers, shardID)
  {
    var key := FormatInt(shardID);
    var t :| Under(topicPeers, t, key);
    assert key in shardPeers && Under(topicPeers, origin[key], key);
    AnswerForShard(codec, n.table, n.self, origin[key], topicPeers[origin[key]], shardID);
  }

  /** The topics in the answer are those of the shards asked about. */
  lemma TopicsOfWanted(n: Model.NodeState, shards: seq<int>, requested: seq<string>,
                       topicPeers: map<string, seq<string>>)
    requires Int64s(shards)
    requires |requested| == |shards| && forall k | 0 <= k < |shards| :: requested[k] == CollationsTopic(shards[k])
    requires requested != [] ==> forall t :: t in topicPeers <==> t in requested && Parses(t)
    requires requested == [] ==>
               forall t :: t in topicPeers <==> exists s :: s in ShardSet(Model.Own(n)) && t == FormatInt(s)
    ensures forall s | s in Wanted(shards, n) :: IsInt64(s) && exists t :: Under(topicPeers, t, FormatInt(s))
    ensures forall t | t in topicPeers :: exists s :: s in Wanted(shards, n) && Under(topicPeers, t, FormatInt(s))
  {
    forall s | s in Wanted(shards, n)
      ensures IsInt64(s) && exists t :: Under(topicPeers, t, FormatInt(s))
    {
      if shards == [] {
        TopicRoundTrip(s);
        assert Under(topicPeers, FormatInt(s), FormatInt(s));
      } else {
        var k :| 0 <= k < |shards| && shards[k] == s;
        TopicRoundTrip(s);
        assert requested[k] in requested && Under(topicPeers, requested[k], FormatInt(s));
      }
    }
    forall t | t in topicPeers ensures exists s :: s in Wanted(shards, n) && Under(topicPeers, t, FormatInt(s)) {
      if shards == [] {
        var s :| s in ShardSet(Model.Own(n)) && t == FormatInt(s);
        TopicRoundTrip(s);
      } else {
        var k :| 0 <= k < |requested| && requested[k] == t;
        TopicRoundTrip(shards[k]);
        assert shards[k] in Elements(shards);
      }
    }
  }
}
