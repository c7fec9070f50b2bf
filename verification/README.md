# Shard preferences: from bits to a network

A Dafny model of the shard-preference protocol of the sharding p2p node: what a node records about its
own shards and about its peers' shards, how it gossips this, and how its topic subscriptions follow.
`dafny verify dfyconfig.toml` checks everything.

The model has four layers, and each is proved to refine or to drive the one above.

1. **Bits** (`Bits.dfy`, `Bitset.dfy`). `ListeningShards` is a class over an `array<bv8>`, with the
   code's shifts, masks, truncating division and byte conversions. It refines a set of shards below 100.
   Negative IDs are not excluded: the model follows them through the conversions, here and at the node,
   and says exactly which of them lead to which shard.
2. **Table** (`ShardPrefTable.dfy`, `Interleavings.dfy`). `ShardPrefTable` is a class with a map from
   peer to record, each record holding a slice; its methods are proved against functions on the table
   with pointers followed, with frames that say which one slice may be written. The same operations
   are then split at their lock boundaries and run in every interleaving over an explicit heap. With
   nothing in between, the split steps are proved to be the unsplit call.
3. **Node** (`NodeModel.dfy`, `NodeRuns.dfy`, `Topics.dfy`, `PeerSelection.dfy`, `Discovery.dfy`,
   `ShardManager.dfy`, `RPCServer.dfy`, `PeerCodec.dfy`, `Requests.dfy`). The classes are proved against
   step functions on a node state; the theorems about all runs are about these functions.
4. **Network** (`Network.dfy`). Any number of nodes, lossy links, in or out of order. Each node's part in
   a network run is proved to be a run of one node, so the theorems of layer 3 carry over.

`Bootstrap.dfy` models the fork-join dialler separately.

## Results worth knowing

- **An update can be lost, exactly when the peer has no record yet and two different things are added at
  once.** Let any number of calls on a peer run at once, no shard being both added and removed. If the
  peer has a record, or all the Adds for it that go through add the same shard, every call takes effect in
  every interleaving; otherwise some interleaving leaves only what one of them adds
  (`NeverLostExactly`, `NoLostUpdate`, `FirstRecordRace`).
- **A failed ListenShard is not repaired by repeating it.** The announcement toggles first, so the
  repetition takes the early return, reports success and changes nothing
  (`RetryReportsSuccessUnsubscribed`). A shard's table bit and its subscription agree exactly when the
  errors on it since a call on it last completed, and the negative IDs listened to that lead to it,
  are even in number (`AgreementExact`).
- **A subscription leaks exactly when a ListenShard overwrites one**, which the results of the calls
  tell: a ListenShard completes on a shard that was flipped an odd number of times (by errors, or by
  negative IDs that lead to it) since a call on it last completed, or it completes again on the same
  negative ID, which needs no error at all (`LeaksAreOverwrites`, `ConservationExact`,
  `OverwritesIffLoses`, `ConservationByResults`, `PublishedRunsConserve`).
- **Gossip needs order.** In whatever state the nodes fall quiet, a link converges in every order of
  delivery exactly when every packet under way carries the sender's own preference or, with none under
  way, the entry is it already; if packets may also be lost, exactly when both hold
  (`ConvergesExactly`). So after an ordered, loss-free past, and if the sender's last change was published,
  one packet under way is harmless (`OneUnderWayConverges`); but of two publications the older may
  arrive last, and then it stays until the sender publishes again (`ReorderedStaysStale`,
  `StaleUntilPublished`). The network can always be drained by in-order deliveries (`CanDrain`). If
  delivery was ordered and loss-free, no service failed and nobody listened to a negative ID that leads to
  the shard, every node then finds exactly the other subscribers (`DrainedNetworkDiscovers`,
  `DiscoveryIsReached`); what failures do to that answer is exactly known, too (`DiscoveryExactly`).
- **Negative IDs toggle other shards.** Only the upper bound is checked. A negative ID leads to a shard
  exactly if it is a multiple of 8 that wraps at 2048 to a shard in range (`TargetIs`), and announcing it
  toggles that shard (`AdvertiseMovesTarget`). ListenShard(-2048) reports success; it starts listening to
  shard 0 without a subscription, or stops listening to it under one (`NegativeIDDisagrees`,
  `ShardZeroByAnotherName`). A completed call ends in agreement about its own ID exactly when that is not
  negative (`DoneEndsInAgreement`).
- **Some negative IDs cannot be looked up.** Testing a record checks no length. On a table with any record
  a lookup panics exactly if thirteen bytes do not cover the ID (`TestableExactly`), as for -8
  (`MinusEightPanics`), and so does the responder of a shard-peer request for it. No ID that is not
  negative is affected.

## Assumptions about the environment

- Whether `Publish` and `Subscribe` succeed is a parameter of each call; so are the connected peers and
  the peers with any connection. The random draw of the drop loop is any draw. Whether a dial of
  ListenShard succeeds is not read by anybody, so a call hands out whom it dials.
- A published preference reaches other nodes as a copy made at publishing. The publisher's own
  handler gets the very slice that was published, because `toBytes` returns the live slice and
  `fromBytes` keeps the slice it is given.
- Updating one byte is one step. Calls of `ListenShard` and `UnlistenShard` on one node follow one another.
- Peer IDs are strings, as in libp2p; their Base58 form is taken as an invertible encoding.
- A call that panics in Go is outside its method's precondition, and runs consist of calls that do not:
  testing a slice that is too short for the ID, drawing from an empty list. Shard IDs are otherwise any
  int64s. In the interleavings a Remove whose test would panic is taken to return.
- The design document counts one bit per shard in a preference message. The code sends thirteen
  whole bytes, and the model follows the code.

## Model

| member | source | states |
|---|---|---|
| Bitset.WithShardInserts | shardpreftable.go:47-61 | setShard inserts its shard, moves no other bit of any byte, and fails exactly on IDs past the range or the slice |
| Bitset.WithoutShardDeletes | shardpreftable.go:31-45 | unsetShard deletes its shard, moves no other bit of any byte, and fails exactly on IDs past the range or the slice |
| Bitset.HasBitIsMembership | shardpreftable.go:63-70 | isShardSet is membership in the set; it is safe exactly when the slice is long enough for the ID or the ID is past the range |
| Bitset.NegativeIDAccepted | shardpreftable.go:22-29 | setShard inserts in range and fails elsewhere, for every well-formed bitset, if and only if the ID is not negative or its wrapped byte index misses the slice |
| Bitset.TargetIs | shardpreftable.go:22-29 | which shard's bit any integer leads to: its own in range, none past it, and for a negative ID the residue modulo 2048 if that is in range and the ID a multiple of 8 |
| Bitset.ActsOnTarget | shardpreftable.go:31-70 | for any integer, setShard inserts, unsetShard deletes and isShardSet tests that shard; the first two fail exactly when the ID is past the range or its byte index misses the slice, the last panics exactly when the byte index misses it |
| Bitset.NegativeIDAliasesShardZero | shardpreftable.go:22-29 | -2048 sets shard 0 |
| Bitset.ReachableWellFormed | shardpreftable.go:16-61 | whatever integers are set and unset, thirteen bytes with clear padding stay so |
| Bitset.RunBitsRefinesRunSet | shardpreftable.go:31-61 | any sequence of set and unset calls on any integers inserts and deletes, on a set, the shards that the IDs lead to |
| Bitset.CanonicalEncoding | shardpreftable.go:31-97 | two histories from empty, on any integers, mean the same set of shards if and only if they leave the same bytes |
| Bitset.WithShardsAddsTargets | shardpreftable.go:82-87 | fromSlice on any list adds exactly the shards that its IDs lead to |
| Bitset.TargetsInRange | shardpreftable.go:82-87 | without negative IDs these are exactly the part of the list in range |
| Bitset.RebuildIsIdentity | shardpreftable.go:72-97 | building a fresh bitset from the listing of one gives back the same bytes |
| Bitset.AscendingUnique | shardpreftable.go:72-80 | a set of shards has only one ascending listing, so GetShards determines its result |
| Bitset.ListeningShards.constructor | shardpreftable.go:16-20 | a fresh slice of thirteen zero bytes |
| Bitset.ListeningShards.SetShard | shardpreftable.go:47-61 | the slice afterwards and the error, by the function that WithShardInserts is about |
| Bitset.ListeningShards.UnsetShard | shardpreftable.go:31-45 | the slice afterwards and the error, by the function that WithoutShardDeletes is about |
| Bitset.ListeningShards.IsShardSet | shardpreftable.go:63-70 | answers membership in the set of shards |
| Bitset.ListeningShards.GetShards | shardpreftable.go:72-80 | the ascending list of exactly the member shards |
| Bitset.ListeningShards.FromSlice | shardpreftable.go:82-87 | adds the shards that a list's IDs lead to, ignoring errors |
| Bitset.ListeningShards.FromBytes | shardpreftable.go:90-93 | the record takes over the given slice itself |
| Bitset.ListeningShards.ToBytes | shardpreftable.go:95-97 | hands out the live slice itself |
| PrefTable.ReverseIndex | shardpreftable.go:166-192 | for every ID that is not negative, a peer is among a shard's peers if and only if the shard is among the peer's shards |
| PrefTable.TestableExactly | shardpreftable.go:63-70 | a query about an ID panics on no record if and only if nobody is recorded or thirteen bytes cover the ID |
| PrefTable.MinusEightPanics | requests.go:66-69 | a query for -8 panics if and only if anybody is recorded |
| PrefTable.AddRefines | shardpreftable.go:129-143 | an Add fails and changes nothing exactly on IDs that setShard rejects, else the peer's entry gains the shard that the ID leads to |
| PrefTable.RemoveRefines | shardpreftable.go:145-155 | a Remove that does not panic returns nil; a recorded peer's entry loses the shard that the ID leads to, an unrecorded peer stays so |
| PrefTable.ApplyRefines | shardpreftable.go:112-180 | one table call, on any ID that does not panic it, is on byte strings what it is on a table of shard sets, and keeps every entry well formed |
| PrefTable.RunRefines | shardpreftable.go:112-180 | any sequence of table calls that do not panic refines the sequence on a table of shard sets |
| PrefTable.ShardPrefTable.Play | shardpreftable.go:112-180 | playing any such sequence on the records and slices themselves gives the table of shard sets that the sequence gives on sets |
| PrefTable.RunFrame | shardpreftable.go:112-180 | any sequence of calls about other peers leaves a peer's bytes, or its absence, unchanged |
| PrefTable.ShardPrefTable.IsPeerListeningShard | shardpreftable.go:119-127 | true exactly for recorded peers with the shard in their set |
| PrefTable.ShardPrefTable.AddPeerListeningShard | shardpreftable.go:129-143 | the new table and the error; a recorded peer keeps its record and slice, an unrecorded one gets fresh ones on success only; writes no other peer's slice |
| PrefTable.ShardPrefTable.RemovePeerListeningShard | shardpreftable.go:145-155 | the new table and the error; moves no pointer and writes at most the peer's own slice |
| PrefTable.ShardPrefTable.GetPeerListeningShard | shardpreftable.go:157-164 | the live record, or a fresh empty one that the table does not keep |
| PrefTable.ShardPrefTable.GetPeerListeningShardSlice | shardpreftable.go:166-173 | the ascending list of the peer's shards, empty for an unknown peer |
| PrefTable.ShardPrefTable.SetPeerListeningShard | shardpreftable.go:175-180 | stores the pointer; distinct peers stay unshared if the record shares nothing with the others |
| PrefTable.ShardPrefTable.GetPeersInShard | shardpreftable.go:182-192 | for any ID that panics on no record, exactly the peers whose record tests true for it, each once, in any order |
| Interleavings.UninterruptedAdd | shardpreftable.go:129-143 | the lock-split steps of an Add, run without interruption, are the whole call |
| Interleavings.UninterruptedRemove | shardpreftable.go:145-155 | the lock-split steps of a Remove, run without interruption, are the whole call |
| Interleavings.NoLostUpdate | shardpreftable.go:129-155 | if no shard is both added and removed, at every moment of every interleaving a recorded peer's set is the initial one with exactly the calls that took effect applied; at the end, all of them |
| Interleavings.OwnDeliveryHarmless | shardmanager.go:310-316 | at any moment of such a run, delivering any own message in flight makes the node's entry a new record on the slice it had and changes no byte |
| Interleavings.PublishedComesBack | discovery.go:49-52 | whatever happens after a publication, the publisher's own message on the published slice can still be delivered |
| Interleavings.ReceivedReplaces | shardmanager.go:310-316 | another peer's preference replaces that peer's entry and no other, on a slice of its own |
| Interleavings.FirstRecordRace | shardpreftable.go:129-143 | on an unrecorded peer, for any Add that goes through among any calls, some interleaving of all of them ends with what that Add alone adds |
| Interleavings.NeverLostExactly | shardpreftable.go:129-155 | for any list of calls on any IDs without such conflicts, every interleaving keeps every update if and only if the peer had a record or all the Adds for it that go through add the same |
| Interleavings.AddTheSameInRange | shardpreftable.go:129-143 | without negative IDs the latter means that at most one shard in range is added |
| Topics.FormatIsDecimal | shardmanager.go:59-61 | printing an integer writes its decimal: a minus sign only if negative, digits, no leading zero, and the digits' positional value is the number |
| Topics.ParseIntExactly | discovery.go:32-36 | a string parses to a number if and only if it is an optional sign and one or more digits whose signed positional value is that number and fits 64 bits; every other string is an error |
| Topics.ParseFormat | discovery.go:32-36 | printing and parsing any int64 gives it back |
| Topics.RemoveAllExactly | utils.go:66-69 | stripping keeps a string up to the first occurrence of the prefix, drops the occurrence and goes on after it; without an occurrence the string stays |
| Topics.TopicIsDecimal | shardmanager.go:35-61 | a collation topic is "shardCollations_" and the decimal of its shard |
| Topics.TopicRoundTrip | utils.go:66-69 | stripping a collation topic, or a bare decimal, and parsing gives back the shard ID, for every int64 |
| Topics.TopicsDistinct | shardmanager.go:35-61 | distinct shards have distinct topics, none of them the preference topic |
| NodeModel.AdvertiseToggles | discovery.go:32-57 | Advertise adds an absent shard and removes a present one; a range error changes nothing, a publishing error comes after the toggle; only the own entry changes and what is published is that entry |
| NodeModel.AdvertiseActsOnTarget | discovery.go:32-57 | the same for every int64: an ID that setShard rejects changes nothing and is an error, any other toggles the shard it leads to even if publishing fails |
| NodeModel.AdvertiseMovesTarget | discovery.go:39-47 | announcing an int64 flips the bit of the shard it leads to, and no other shard's |
| NodeModel.AnnouncesOnce | shardmanager.go:169-224 | a call publishes the preference it ends with, once, exactly when it passes the early return and the announcement succeeds; otherwise nothing |
| Discovery.GlobalTable.Advertise | discovery.go:32-57 | new table, published copies and error; on success, and only then, the live slice itself is queued for local delivery |
| Discovery.GlobalTable.FindPeers | discovery.go:59-76 | an error exactly when the topic does not parse, else the shard's peers without the node itself, each once; for any ID that panics on no record |
| NodeRuns.ListenOutcome | shardmanager.go:169-199 | ListenShard does nothing exactly if the shard is listened to, goes through exactly if the ID is accepted and both services succeed, and otherwise fails and leaves every subscription as it was |
| NodeRuns.UnlistenOutcome | shardmanager.go:201-224 | UnlistenShard does nothing exactly if the shard is not listened to, goes through exactly if publishing succeeds, cancelling and forgetting the topic's subscription, and otherwise fails and leaves every subscription as it was |
| NodeRuns.AnnouncesExactly | shardmanager.go:169-224 | when a call publishes: past its early return, with an accepted ID and the pubsub service taking the message |
| NodeRuns.StepOnShard | shardmanager.go:169-224 | by outcome, what a call does to its shard's table bit and subscription |
| NodeRuns.StepOnOthers | shardmanager.go:169-224 | a call leaves another shard's table bit and subscription alone, unless it listens to a negative ID that leads to that shard |
| NodeRuns.StepOnAlias | shardmanager.go:169-199 | such a call flips that shard's bit whatever fails, and leaves its subscription alone |
| NodeRuns.AgreementExact | shardmanager.go:169-224 | after any run on any int64s, table bit and subscription of a shard agree if and only if the calls on it that failed since one last completed, and the negative IDs listened to since then that lead to it, are even in number |
| NodeRuns.OutOfRangeNeverSubscribed | shardmanager.go:169-224 | an ID past the range is never listened to and never subscribed |
| NodeRuns.DoneEndsInAgreement | shardmanager.go:169-224 | a call that passes the early return and returns nil ends in agreement about its ID, from any state, if and only if the ID is not negative |
| NodeRuns.RetryReportsSuccessUnsubscribed | shardmanager.go:169-199 | from any state not listening to the shard, a ListenShard in which a service fails returns an error, and the repetition then returns nil, changes nothing and leaves the shard as unsubscribed as it was |
| NodeRuns.NegativeIDDisagrees | shardmanager.go:169-199 | from any state that agrees about a shard, listening to any negative ID that leads to it completes, switches it and ends the agreement |
| NodeRuns.ShardZeroByAnotherName | shardmanager.go:169-199 | listening to -2048 starts shard 0 unsubscribed, or stops it and leaves it subscribed |
| NodeRuns.LeaksAreOverwrites | shardmanager.go:249-306 | exactly as many subscriptions are neither cancelled nor reachable as calls overwrote one |
| NodeRuns.ConservationExact | shardmanager.go:249-306 | every subscription is live in subs and uncancelled, or cancelled exactly once, if and only if no call of the run overwrote one |
| NodeRuns.OverwritesIffLoses | shardmanager.go:169-285 | a completed ListenShard overwrites a subscription if and only if its shard was flipped an odd number of times since a call on it last completed or, for a negative ID, a ListenShard on that ID completed before |
| NodeRuns.ConservationByResults | shardmanager.go:169-306 | from any node with nothing leaked, shards in agreement and no negative ID subscribed, subscriptions are conserved by a run on any int64s if and only if none of its ListenShard calls completed in that situation |
| NodeRuns.FreshIsOrderly | shardmanager.go:63-85 | a just started node is in such a state |
| NodeRuns.PublishedRunsConserve | shardmanager.go:169-306 | if Publish never fails and no ID is negative, subscriptions are conserved and only listened shards are subscribed; if Subscribe never fails either, exactly the listened ones are |
| NodeRuns.BatchIsUnionOrDifference | rpcserver.go:184-220 | a batch of ListenShard calls without negative IDs unites with, any batch of UnlistenShard calls subtracts from, the shards listened to, under any failures |
| NodeRuns.BatchOrderIrrelevant | rpcserver.go:184-220 | two batches naming the same shards in range leave the same bytes |
| PeerSelection.NotConnectedElements | shardmanager.go:116-123 | the first filter leaves exactly the found peers that are not connected |
| PeerSelection.NotConnectedInOrder | shardmanager.go:116-123 | and leaves them in order |
| PeerSelection.DropAtRandom | shardmanager.go:125-131 | the drop loop never draws from an empty list and keeps an order-preserving part of the right size |
| PeerSelection.SelectPeers | shardmanager.go:99-131 | the chosen peers are an order-preserving part of those found that are not connected, as many as are missing or available; none if enough are connected |
| PeerSelection.TargetMet | shardmanager.go:99-131 | connected plus chosen is the smaller of the target and the number of peers connected or found, and nobody is chosen twice |
| ShardManager.InShards | shardmanager.go:234-241 | list membership |
| ShardManager.ShardManager.constructor | shardmanager.go:63-85 | an empty node, subscribed to the preference topic only |
| ShardManager.ShardManager.SubscribeTopic | shardmanager.go:249-285 | the new subscription replaces whatever subs had for the topic; nothing changes on error |
| ShardManager.ShardManager.UnsubscribeTopic | shardmanager.go:287-306 | cancels the topic's subscription once and forgets it; nothing if there is none |
| ShardManager.ShardManager.IsCollationSubscribed | shardmanager.go:425-431 | whether subs has the shard's topic |
| ShardManager.ShardManager.GetListeningShards | shardmanager.go:226-228 | the ascending list of the node's own shards |
| ShardManager.ShardManager.IsShardListened | shardmanager.go:230-232 | whether the node's own set has the shard |
| ShardManager.ShardManager.HandlePreference | shardmanager.go:310-316 | the sender's entry becomes a fresh record on the message's own slice |
| ShardManager.ShardManager.ReceivePreference | shardmanager.go:310-316 | another node's preference replaces its entry and nothing else |
| ShardManager.ShardManager.ReceiveOwn | shardmanager.go:310-316 | any own message in flight, delivered in any order, leaves the whole node state as it was, on the same slice |
| ShardManager.ShardManager.ConnectShardNodes | shardmanager.go:93-167 | chosen and dialled peers: other listeners, not connected, not linked, as many as the target asks for and there are; nobody is looked up if enough are connected |
| ShardManager.ShardManager.ListenShard | shardmanager.go:169-199 | for every int64 that does not panic, the node state and error that NodeRuns reasons about; queues the live slice for local delivery exactly when it published, and then connects as ConnectShardNodes does, on the table after the announcement; otherwise chooses and dials nobody |
| ShardManager.ShardManager.UnlistenShard | shardmanager.go:201-224 | for every int64, the node state and error that NodeRuns reasons about; queues the live slice for local delivery exactly when it published |
| RPCServer.BatchMeaning | rpcserver.go:184-220 | the shards listened to after a batch are the old ones united with the in-range IDs of a request without negative IDs, or without the in-range IDs of any request |
| RPCServer.SubscribeShard | rpcserver.go:170-197 | runs the batch for any int64s that do not panic, connecting for every ID that is announced with the request's target; without negative IDs the shards listened to become the union with the in-range ones, whatever fails |
| RPCServer.UnsubscribeShard | rpcserver.go:199-225 | runs the batch for any int64s; the shards listened to become the difference with the IDs, whatever fails |
| RPCServer.DiscoverTopics | rpcserver.go:151-163 | exactly the topics that parse are answered, each with the other listeners of its shard; for any IDs that panic on no record |
| RPCServer.DiscoverShard | rpcserver.go:141-168 | an empty request asks about the node's own shards by their decimals |
| RPCServer.StripTopics | cli.go:225-233 | every topic's answer reappears under the topic without its prefix, and nothing else does |
| RPCServer.CallRPCDiscover | cli.go:204-236 | the answer's keys are exactly the decimals of the shards asked about, each with exactly the other listeners, printed once |
| PeerCodec.DecodeExactly | utils.go:38-48 | a list is read if and only if every ID in it can be, and then position by position |
| PeerCodec.DecodeEncode | utils.go:38-64 | printing and reading a list of peer IDs gives it back |
| PeerCodec.PeersStringToPeerIDs | utils.go:38-48 | succeeds if and only if every ID in the list can be read, and then gives each in its place |
| PeerCodec.PeerIDsToPeersString | utils.go:50-56 | prints every ID in its place |
| Requests.OnShardPeerRequest | requests.go:60-80 | the response has exactly the requested shards, each with the peers known there; for any IDs that panic on no record |
| Requests.DecodeResponse | requests.go:108-120 | succeeds if and only if every ID of every shard can be read, whatever the visiting order, and then reads each in its place |
| Requests.RequestShardPeer | requests.go:82-120 | the answer maps exactly the requested shards to exactly the peers that the responder knows there, each once |
| Network.LocalEvent | discovery.go:49-57 | a node's own call takes that node where the call does; if it publishes, one copy of its preference sets out on every link from it, and nothing else moves |
| Network.EntriesAreSnapshots | shardmanager.go:310-316 | in every run, in or out of order, an entry for another node is one of that node's publications, and absent before any delivery |
| Network.EntriesNeverGoBack | shardmanager.go:310-316 | with in-order delivery the entries at two moments are two of the sender's publications, the earlier one no later in its history |
| Network.ReceivedIsTestable | shardpreftable.go:63-97 | in every run of honest nodes all entries and messages are thirteen bytes with clear padding, so testing them never runs off the end |
| Network.CurrentMeansEqual | discovery.go:49-57 | once the latest publication has arrived and the latest change was published, the entry equals the node's own preference byte for byte |
| Network.QuietNetworkDiscovers | discovery.go:59-76 | with everything announced, and delivered to a node, its table names for every ID exactly the other nodes whose own preference tests true for it, which for an ID that is not negative are those listening to it |
| Network.DiscoveryExactly | shardmanager.go:169-224 | under any failures, a node to which everything is announced and delivered finds for a shard exactly the other subscribers if and only if on every other node the flips of that shard since a call on it last completed are even in number |
| Network.NodeIsARun | node.go:27-44 | every node of a network run is a run of one node on honest calls |
| Network.DiscoveryFindsTheSubscribers | shardmanager.go:169-224 | if nothing failed, everything is delivered to a node and nobody listened to a negative ID that leads to the shard, the node finds exactly the other nodes subscribed to its collations |
| Network.InOrderAndLossless | shardmanager.go:310-316 | if deliveries are in order and none is lost, what is under way on a link is exactly what its sender published after the publication that the receiver goes by |
| Network.NothingUnannounced | discovery.go:49-57 | if no service fails, every change of preference is published |
| Network.DrainedIsCurrent | discovery.go:32-57 | in order, nothing lost, nothing failed: once no message is under way every entry is its sender's latest publication, and no change is unpublished |
| Network.DrainedNetworkDiscovers | shardmanager.go:169-224 | in such a network, if nobody listened to a negative ID that leads to the shard, discovery names exactly the other nodes subscribed to its collations |
| Network.CanDrain | shardmanager.go:310-316 | from every reachable state, delivering what is under way in order leaves nothing under way |
| Network.DiscoveryIsReached | shardmanager.go:169-224 | from every state that a healthy, ordered, loss-free run without such IDs reaches, further deliveries lead to one where discovery names exactly the other subscribers |
| Network.LinkConvergesExactly | shardmanager.go:310-316 | in any network, every delivery order, and every loss if losses are possible, that empties a link leaves the receiver with given bytes if and only if all packets under way carry them and, if no delivery is certain, the entry is them already |
| Network.ConvergesExactly | shardmanager.go:310-316 | the same in every reachable state for the sender's own preference, which traffic does not move |
| Network.OneUnderWayIsDetermined | shardmanager.go:310-316 | in any network, with at most one packet under way on a link every delivery order ends at the same entry |
| Network.OneUnderWayConverges | shardmanager.go:310-316 | after an ordered, loss-free past, with the last change published, a link with at most one packet under way converges in every order |
| Network.EntryStaysUntilPublished | shardmanager.go:310-316 | with nothing under way on a link an entry does not change until its sender publishes, whatever else happens |
| Network.ReorderedStaysStale | shardmanager.go:310-316 | in any network just started, on any link, reordering alone, with no failure and no loss, leaves a drained link with the first of two publications |
| Network.StaleUntilPublished | shardmanager.go:310-316 | and it stays there through every continuation in which the sender does not publish |
| Bootstrap.SendNeverBlocks | bootstrap.go:33-56 | in every interleaving a failed worker can send at once, and none sends twice |
| Bootstrap.WaitEnds | bootstrap.go:34-62 | at most four steps per peer and one more; until it returns the program can move unless a dial is still out, the next worker can start whatever the others do, and a dial can come back either way |
| Bootstrap.FailsIffAllDialsFailed | bootstrap.go:28-74 | it returns only after every dial has come back once and every worker is done, and fails if and only if there were no peers or every dial came back with an error |

## Left out

- gRPC, protobuf encoding, streams, gossipsub, the DHT, tracing, logging and sleeps: outside libraries; only their success or failure enters.
- Error texts: a Go error is a failed result.
- `broadcastCollation`, `SendCollation` and the collation payload: one guard on the subscription, then the network.
- `makeGeneralValidator`, the event notifier and the general request: they forward to a service that cannot be seen.
- The bootstrapping flag of `node.go`, argument parsing and the other command-line calls: one-branch facts.
- Two goroutines racing on the same byte: updating a byte is one step here.
- `ListenShard` and `UnlistenShard` running concurrently on one node: their check and toggle are separate steps and the model runs them in sequence.
- Threads: in the dialler goroutines, channel and wait group are steps of a transition system, because Dafny has no threads.
- Threads: the lock-split table runs over an explicit heap instead of the classes, for the same reason; UninterruptedAdd and UninterruptedRemove tie the two together.
- Own messages in the network: a node's own message coming back is not an event there; ReceiveOwn and OwnDeliveryHarmless show that it changes nothing.
