/** Whole runs of one node: the table bit and the subscription of a shard stay in step exactly as the
    errors allow, and no subscription is lost unless a call overwrites one. */
module NodeRuns {
  import opened Common
  import opened Bitset
  import opened Topics
  import opened NodeModel

  ghost predicate On(call: Call, shardID: int) {
    (call.Listen? || call.Unlisten?) && call.shardID == shardID
  }

  /** Listening to a negative ID that the conversions lead to the shard. (Unlistening to one always
      takes the early return.) */
  ghost predicate Aliases(call: Call, shardID: int) {
    call.Listen? && call.shardID < 0 && Target(call.shardID) == Some(shardID)
  }

  // ---------------------------------------------------------------- one call

  ghost predicate SameSubscriptions(n: NodeState, after: NodeState) {
    after.subs == n.subs && after.topics == n.topics && after.cancels == n.cancels
  }

  /** What ListenShard returns, and what becomes of the subscriptions, told from what a caller can see
      before: nothing to do if the shard is listened to; a failing announcement or subscription is
      an error and leaves every subscription as it was. */
  lemma ListenOutcome(n: NodeState, shardID: int, env: Env)
    requires ValidNode(n) && IsInt64(shardID)
    ensures var (after, outcome) := Step(n, Listen(shardID, env));
            && (outcome.Skipped? <==> IsShardListened(n, shardID))
            && (outcome.Done? <==>
                  !IsShardListened(n, shardID) && Accepted(shardID) && env.publishOk && env.subscribeOk)
            && (outcome.Skipped? ==> after == n)
            && (outcome.Failed? ==> SameSubscriptions(n, after))
            && (outcome.Done? ==>
                  && after.subs == n.subs[CollationsTopic(shardID) := |n.topics|]
                  && after.topics == n.topics + [CollationsTopic(shardID)] && after.cancels == n.cancels + [0])
  {
    AdvertiseActsOnTarget(n, shardID, env.publishOk);
  }

  /** The same of UnlistenShard: its topic's subscription, if there is one, is cancelled and forgotten
      exactly when the announcement succeeded. */
  lemma UnlistenOutcome(n: NodeState, shardID: int, env: Env)
    requires ValidNode(n) && IsInt64(shardID)
    ensures var (after, outcome) := Step(n, Unlisten(shardID, env));
            && (outcome.Skipped? <==> !IsShardListened(n, shardID))
            && (outcome.Done? <==> IsShardListened(n, shardID) && env.publishOk)
            && (outcome.Skipped? ==> after == n)
            && (outcome.Failed? ==> SameSubscriptions(n, after))
            && (outcome.Done? ==>
                  && after.subs == n.subs - {CollationsTopic(shardID)} && after.topics == n.topics
                  && after.cancels == if CollationsTopic(shardID) in n.subs
                                      then n.cancels[n.subs[CollationsTopic(shardID)] := 1] else n.cancels)
  {
    AdvertiseActsOnTarget(n, shardID, env.publishOk);
    TargetIs(shardID);
  }

  /** And of the announcements: a call publishes exactly when it gets past its early return with an ID
      that is accepted and the pubsub service takes the message. */
  lemma AnnouncesExactly(n: NodeState, shardID: int, env: Env)
    requires ValidNode(n) && IsInt64(shardID)
    ensures Announces(n, Listen(shardID, env)) <==>
              !IsShardListened(n, shardID) && Accepted(shardID) && env.publishOk
    ensures Announces(n, Unlisten(shardID, env)) <==> IsShardListened(n, shardID) && env.publishOk
  {
    AdvertiseActsOnTarget(n, shardID, env.publishOk);
    TargetIs(shardID);
  }

  /** Past the early return a call moves its target's bit, whatever fails in it. */
  lemma StepMovesTarget(n: NodeState, call: Call, shardID: int)
    requires ValidNode(n) && HonestCall(n, call) && (call.Listen? || call.Unlisten?)
    ensures var after := Step(n, call).0;
            if Step(n, call).1.Skipped? then after == n
            else
              IsShardListened(after, shardID)
              <==> (IsShardListened(n, shardID) != (Target(call.shardID) == Some(shardID)))
  {
    AdvertiseMovesTarget(n, call.shardID, call.env.publishOk, shardID);
  }

  lemma StepSubscriptions(n: NodeState, call: Call, shardID: int)
    requires ValidNode(n) && HonestCall(n, call) && IsInt64(shardID)
    ensures var (after, outcome) := Step(n, call);
            IsCollationSubscribed(after, shardID) <==>
              if On(call, shardID) && outcome.Done? then call.Listen? else IsCollationSubscribed(n, shardID)
  {
    if call.Listen? || call.Unlisten? {
      TopicsDistinct(call.shardID, shardID);
      AdvertiseActsOnTarget(n, call.shardID, call.env.publishOk);
    }
  }

  /** A call on a shard moves no other shard's bit and subscription, unless the call listens to a
      negative ID that leads to that other shard. */
  lemma StepOnOthers(n: NodeState, call: Call, shardID: int)
    requires ValidNode(n) && HonestCall(n, call) && IsInt64(shardID)
    requires !On(call, shardID) && !Aliases(call, shardID)
    ensures IsShardListened(Step(n, call).0, shardID) <==> IsShardListened(n, shardID)
    ensures IsCollationSubscribed(Step(n, call).0, shardID) <==> IsCollationSubscribed(n, shardID)
  {
    StepSubscriptions(n, call, shardID);
    if call.Listen? || call.Unlisten? {
      TargetIs(call.shardID);
      StepMovesTarget(n, call, shardID);
    }
  }

  /** Listening to a negative ID flips the bit of the shard it leads to, on or off, whatever fails,
      and never that shard's subscription. */
  lemma StepOnAlias(n: NodeState, call: Call, shardID: int)
    requires ValidNode(n) && HonestCall(n, call) && Aliases(call, shardID)
    ensures IsShardListened(Step(n, call).0, shardID) <==> !IsShardListened(n, shardID)
    ensures IsCollationSubscribed(Step(n, call).0, shardID) <==> IsCollationSubscribed(n, shardID)
  {
    TargetIs(call.shardID);
    StepSubscriptions(n, call, shardID);
    StepMovesTarget(n, call, shardID);
  }

  /** What a call does to its own shard, by outcome. */
  lemma StepOnShard(n: NodeState, call: Call, shardID: int)
    requires ValidNode(n) && HonestCall(n, call) && On(call, shardID) && 0 <= shardID
    ensures var (after, outcome) := Step(n, call);
            match outcome
            case Skipped => after == n && (IsShardListened(n, shardID) <==> call.Listen?)
            case Done =>
              && InRange(shardID)
              && (IsShardListened(after, shardID) <==> call.Listen?)
              && (IsCollationSubscribed(after, shardID) <==> call.Listen?)
            case Failed =>
              && (InRange(shardID) ==> (IsShardListened(after, shardID) <==> !IsShardListened(n, shardID)))
              && (!InRange(shardID) ==> after == n)
              && after.subs == n.subs
    ensures InRange(shardID) ==> (IsShardListened(Step(n, call).0, shardID) <==> call.Listen?)
  {
    AdvertiseToggles(n, shardID, call.env.publishOk);
    var after := Advertise(n, shardID, call.env.publishOk).0;
    if InRange(shardID) {
      assert shardID in ShardSet(Own(after)) <==> shardID !in ShardSet(Own(n));
      assert IsShardListened(after, shardID) <==> !IsShardListened(n, shardID);
    }
  }

  lemma SubscribeKeepsValid(n: NodeState, topic: string, subscribeOk: bool)
    requires ValidNode(n)
    ensures ValidNode(SubscribeTopic(n, topic, subscribeOk).0)
  {
  }

  lemma UnsubscribeKeepsValid(n: NodeState, topic: string)
    requires ValidNode(n)
    ensures ValidNode(UnsubscribeTopic(n, topic))
  {
    var after := UnsubscribeTopic(n, topic);
    assert forall t | t in after.subs :: t in n.subs && after.subs[t] == n.subs[t];
  }

  lemma AdvertiseKeepsValid(n: NodeState, shardID: int, publishOk: bool)
    requires ValidNode(n) && IsInt64(shardID)
    ensures var after := Advertise(n, shardID, publishOk).0;
            ValidNode(after) && after.self == n.self
            && after.subs == n.subs && after.topics == n.topics && after.cancels == n.cancels
  {
    AdvertiseActsOnTarget(n, shardID, publishOk);
  }

  lemma StepKeepsValid(n: NodeState, call: Call)
    requires ValidNode(n) && HonestCall(n, call)
    ensures ValidNode(Step(n, call).0) && Step(n, call).0.self == n.self
  {
    if call.Listen? || call.Unlisten? {
      AdvertiseKeepsValid(n, call.shardID, call.env.publishOk);
      var after := Advertise(n, call.shardID, call.env.publishOk).0;
      SubscribeKeepsValid(after, CollationsTopic(call.shardID), call.env.subscribeOk);
      UnsubscribeKeepsValid(after, CollationsTopic(call.shardID));
    }
  }

  /** A run ends with the step of its last call. */
  lemma RunLast(n: NodeState, calls: seq<Call>) returns (before: NodeState, call: Call)
    requires calls != [] && ValidNode(n) && HonestCalls(n, calls)
    ensures before == Run(n, calls[..|calls| - 1]) && call == calls[|calls| - 1]
    ensures Run(n, calls) == Step(before, call).0
    ensures ValidNode(before) && HonestCall(before, call) && before.self == n.self
  {
    before, call := Run(n, calls[..|calls| - 1]), calls[|calls| - 1];
    RunKeepsValid(n, calls[..|calls| - 1]);
  }

  lemma {:induction false} RunKeepsValid(n: NodeState, calls: seq<Call>)
    requires ValidNode(n) && HonestCalls(n, calls)
    ensures ValidNode(Run(n, calls)) && Run(n, calls).self == n.self
  {
    if calls == [] {
    } else {
      RunKeepsValid(n, calls[..|calls| - 1]);
      StepKeepsValid(Run(n, calls[..|calls| - 1]), calls[|calls| - 1]);
    }
  }

  lemma RunStep(n: NodeState, calls: seq<Call>, i: nat)
    requires i < |calls|
    ensures Run(n, calls[..i + 1]) == Step(Run(n, calls[..i]), calls[i]).0
  {
    assert calls[..i + 1][..i] == calls[..i];
  }

  /** Every prefix of a run that does not panic does not panic, nor does the call after it. */
  lemma {:induction false} HonestPrefix(n: NodeState, calls: seq<Call>, i: nat)
    requires HonestCalls(n, calls) && i < |calls|
    ensures HonestCalls(n, calls[..i]) && HonestCall(Run(n, calls[..i]), calls[i])
  {
    var pre := calls[..|calls| - 1];
    if i == |calls| - 1 {
    } else {
      HonestPrefix(n, pre, i);
      assert pre[..i] == calls[..i];
    }
  }

  lemma FreshIsValid(n: NodeState)
    requires Fresh(n)
    ensures ValidNode(n)
    ensures forall s | IsInt64(s) :: !IsShardListened(n, s) && !IsCollationSubscribed(n, s)
  {
    EmptyHasNoShards();
    forall s | IsInt64(s) ensures !IsShardListened(n, s) && !IsCollationSubscribed(n, s) {
      TopicsDistinct(s, s);
      assert InRange(s) ==> s !in ShardSet(EMPTY);
    }
  }

  // ---------------------------------------------------------------- agreement under failures

  /** `flips` after one more call: an error on the shard adds one, a completed call starts afresh, and
      listening to a negative ID that leads to the shard adds one whatever comes of it. */
  ghost function Flip(flips: nat, call: Call, outcome: Outcome, shardID: int): nat {
    if On(call, shardID) then
      match outcome
      case Skipped => flips
      case Done => 0
      case Failed => flips + 1
    else if Aliases(call, shardID) then flips + 1
    else flips
  }

  ghost function FlipsSinceDone(n: NodeState, calls: seq<Call>, shardID: int): nat {
    if calls == [] then 0
    else
      var pre, call := calls[..|calls| - 1], calls[|calls| - 1];
      Flip(FlipsSinceDone(n, pre, shardID), call, Step(Run(n, pre), call).1, shardID)
  }

  ghost predicate AgreesAfter(before: bool, call: Call, outcome: Outcome, shardID: int) {
    if On(call, shardID) then outcome.Done? || (before <==> outcome.Skipped?)
    else before != Aliases(call, shardID)
  }

  lemma FlipParity(flips: nat, call: Call, outcome: Outcome, shardID: int)
    ensures Flip(flips, call, outcome, shardID) % 2 == 0 <==> AgreesAfter(flips % 2 == 0, call, outcome, shardID)
  {
  }

  lemma StepAgreement(n: NodeState, call: Call, shardID: int)
    requires ValidNode(n) && HonestCall(n, call) && InRange(shardID)
    ensures Agrees(Step(n, call).0, shardID) <==> AgreesAfter(Agrees(n, shardID), call, Step(n, call).1, shardID)
  {
    if On(call, shardID) {
      StepOnShard(n, call, shardID);
    } else if Aliases(call, shardID) {
      StepOnAlias(n, call, shardID);
    } else {
      StepOnOthers(n, call, shardID);
    }
  }

  /** A shard's table bit and its subscription agree exactly when an even number of flips lies between
      them and the last completed call: every failing call, whatever fails in it, flips one of the two,
      and so does listening to a negative ID that leads to the shard. */
  lemma {:induction false} AgreementExact(n: NodeState, calls: seq<Call>, shardID: int)
    requires ValidNode(n) && HonestCalls(n, calls)
    requires InRange(shardID) && Agrees(n, shardID)
    ensures Agrees(Run(n, calls), shardID) <==> FlipsSinceDone(n, calls, shardID) % 2 == 0
  {
    if calls == [] {
    } else {
      var before, call := RunLast(n, calls);
      AgreementExact(n, calls[..|calls| - 1], shardID);
      StepAgreement(before, call, shardID);
      FlipParity(FlipsSinceDone(n, calls[..|calls| - 1], shardID), call, Step(before, call).1, shardID);
    }
  }

  /** An ID past the range is never listened to and never subscribed. */
  lemma {:induction false} OutOfRangeNeverSubscribed(n: NodeState, calls: seq<Call>, shardID: int)
    requires ValidNode(n) && HonestCalls(n, calls)
    requires NUM_SHARDS <= shardID && IsInt64(shardID) && !IsCollationSubscribed(n, shardID)
    ensures !IsShardListened(Run(n, calls), shardID) && !IsCollationSubscribed(Run(n, calls), shardID)
  {
    if calls == [] {
    } else {
      OutOfRangeNeverSubscribed(n, calls[..|calls| - 1], shardID);
      var before, call := RunLast(n, calls);
      if On(call, shardID) {
        StepOnShard(before, call, shardID);
      } else {
        StepSubscriptions(before, call, shardID);
      }
    }
  }

  /** A call that passes the early return and returns nil ends in agreement, whatever came before,
      exactly when its ID is not negative. */
  lemma DoneEndsInAgreement(n: NodeState, call: Call)
    requires ValidNode(n) && HonestCall(n, call) && Step(n, call).1.Done?
    ensures Agrees(Step(n, call).0, call.shardID) <==> 0 <= call.shardID
  {
    if 0 <= call.shardID {
      StepOnShard(n, call, call.shardID);
    } else {
      StepSubscriptions(n, call, call.shardID);
    }
  }

  /** The early return hides a past failure: asking again for a shard whose announcement or
      subscription failed reports success, changes nothing and leaves the subscription as it was. */
  lemma RetryReportsSuccessUnsubscribed(n: NodeState, shardID: int, failing: Env, retry: Env)
    requires ValidNode(n) && InRange(shardID) && !IsShardListened(n, shardID)
    requires !(failing.publishOk && failing.subscribeOk)
    ensures var (failed, outcome) := Step(n, Listen(shardID, failing));
            && outcome == Failed
            && Step(failed, Listen(shardID, retry)) == (failed, Skipped)
            && (IsCollationSubscribed(failed, shardID) <==> IsCollationSubscribed(n, shardID))
  {
    var call := Listen(shardID, failing);
    TargetIs(shardID);
    StepOnShard(n, call, shardID);
    AdvertiseToggles(n, shardID, failing.publishOk);
  }

  /** Why IDs matter: on a node that agrees about the shard, listening to a negative ID that leads to it
      reports success if the services accept, and switches the shard on without a subscription or
      off under one. */
  lemma NegativeIDDisagrees(n: NodeState, negative: int, shardID: int)
    requires ValidNode(n) && IsInt64(negative) && negative < 0 && Target(negative) == Some(shardID)
    requires Agrees(n, shardID)
    ensures var (after, outcome) := Step(n, Listen(negative, Env(true, true)));
            && outcome == Done && !Agrees(after, shardID)
            && (IsShardListened(after, shardID) <==> !IsShardListened(n, shardID))
            && IsCollationSubscribed(after, negative)
  {
    TargetIs(negative);
    var call := Listen(negative, Env(true, true));
    StepOnAlias(n, call, shardID);
    AdvertiseActsOnTarget(n, negative, true);
    StepSubscriptions(n, call, negative);
  }

  /** For one: -2048 leads to shard 0. A node that listened to nothing now listens to shard 0
      unsubscribed; one that listened to shard 0 no longer does, and keeps the subscription. */
  lemma ShardZeroByAnotherName(n: NodeState)
    requires ValidNode(n) && Agrees(n, 0)
    ensures var (after, outcome) := Step(n, Listen(-2048, Env(true, true)));
            && outcome == Done
            && (IsShardListened(after, 0) <==> !IsShardListened(n, 0))
            && (IsCollationSubscribed(after, 0) <==> IsShardListened(n, 0))
  {
    TargetIs(-2048);
    NegativeIDDisagrees(n, -2048, 0);
  }

  // ---------------------------------------------------------------- conservation of subscriptions

  ghost predicate Live(n: NodeState, id: nat) {
    id < |n.topics| && n.topics[id] in n.subs && n.subs[n.topics[id]] == id
  }

  /** Subscriptions that are neither cancelled nor reachable through `subs`. */
  ghost function Leaked(n: NodeState): set<nat> {
    set id | 0 <= id < |n.cancels| && n.cancels[id] == 0 && !Live(n, id)
  }

  /** Uncancelled means live, and everything else was cancelled exactly once. */
  ghost predicate Conserved(n: NodeState) {
    |n.cancels| == |n.topics| && forall id | 0 <= id < |n.cancels| :: n.cancels[id] == if Live(n, id) then 0 else 1
  }

  lemma ConservedIffNothingLeaked(n: NodeState)
    requires ValidNode(n)
    ensures Conserved(n) <==> Leaked(n) == {}
  {
    if Leaked(n) == {} {
      forall id | 0 <= id < |n.cancels| ensures n.cancels[id] == if Live(n, id) then 0 else 1 {
        assert id !in Leaked(n);
      }
    }
  }

  /** A completed ListenShard that finds its topic already subscribed loses the old subscription. */
  ghost predicate Overwrites(n: NodeState, call: Call) {
    call.Listen? && Step(n, call).1.Done? && IsCollationSubscribed(n, call.shardID)
  }

  ghost function Overwritten(n: NodeState, calls: seq<Call>): nat {
    if calls == [] then 0
    else
      var pre := calls[..|calls| - 1];
      Overwritten(n, pre) + if Overwrites(Run(n, pre), calls[|calls| - 1]) then 1 else 0
  }

  lemma SubscribeLeaks(n: NodeState, topic: string)
    requires ValidNode(n)
    ensures Leaked(SubscribeTopic(n, topic, true).0) ==
            if topic in n.subs then Leaked(n) + {n.subs[topic]} else Leaked(n)
  {
    var after := SubscribeTopic(n, topic, true).0;
    forall id: nat | id < |n.topics|
      ensures Live(after, id) <==> Live(n, id) && n.topics[id] != topic
    {
    }
    assert Live(after, |n.topics|);
  }

  lemma UnsubscribeLeaks(n: NodeState, topic: string)
    requires ValidNode(n)
    ensures Leaked(UnsubscribeTopic(n, topic)) == Leaked(n)
  {
    var after := UnsubscribeTopic(n, topic);
    if topic in n.subs {
      forall id: nat | id < |n.topics|
        ensures Live(after, id) <==> Live(n, id) && id != n.subs[topic]
      {
      }
    }
  }

  lemma SameSubscriptionsSameLeaks(n: NodeState, after: NodeState)
    requires after.subs == n.subs && after.topics == n.topics && after.cancels == n.cancels
    ensures Leaked(after) == Leaked(n)
  {
    assert forall id: nat :: Live(after, id) == Live(n, id);
  }

  lemma StepLeaks(n: NodeState, call: Call)
    requires ValidNode(n) && HonestCall(n, call)
    ensures Leaked(Step(n, call).0) ==
            if Overwrites(n, call) then Leaked(n) + {n.subs[CollationsTopic(call.shardID)]} else Leaked(n)
  {
    if call.Listen? || call.Unlisten? {
      var after := Advertise(n, call.shardID, call.env.publishOk).0;
      AdvertiseKeepsValid(n, call.shardID, call.env.publishOk);
      SameSubscriptionsSameLeaks(n, after);
      SubscribeLeaks(after, CollationsTopic(call.shardID));
      UnsubscribeLeaks(after, CollationsTopic(call.shardID));
    } else {
      SameSubscriptionsSameLeaks(n, Step(n, call).0);
    }
  }

  /** Exactly as many subscriptions leak as calls overwrote one. */
  lemma {:induction false} LeaksAreOverwrites(n: NodeState, calls: seq<Call>)
    requires ValidNode(n) && HonestCalls(n, calls) && Conserved(n)
    ensures |Leaked(Run(n, calls))| == Overwritten(n, calls)
  {
    if calls == [] {
      ConservedIffNothingLeaked(n);
    } else {
      LeaksAreOverwrites(n, calls[..|calls| - 1]);
      var before, call := RunLast(n, calls);
      StepLeaks(before, call);
      if Overwrites(before, call) {
        assert before.subs[CollationsTopic(call.shardID)] !in Leaked(before);
      }
    }
  }

  /** Subscriptions are conserved by a run exactly when none of its calls overwrites one. */
  lemma ConservationExact(n: NodeState, calls: seq<Call>)
    requires ValidNode(n) && HonestCalls(n, calls) && Conserved(n)
    ensures Conserved(Run(n, calls)) <==> Overwritten(n, calls) == 0
  {
    RunKeepsValid(n, calls);
    LeaksAreOverwrites(n, calls);
    ConservedIffNothingLeaked(Run(n, calls));
  }

  /** Some earlier ListenShard on this very ID completed. */
  ghost predicate EverDone(n: NodeState, calls: seq<Call>, shardID: int) {
    calls != []
    && (EverDone(n, calls[..|calls| - 1], shardID)
        || (var call := calls[|calls| - 1];
            call.Listen? && call.shardID == shardID && Step(Run(n, calls[..|calls| - 1]), call).1.Done?))
  }

  /** Nothing ever unsubscribes a negative ID: UnlistenShard takes the early return. */
  lemma {:induction false} NegativeStaysSubscribed(n: NodeState, calls: seq<Call>, shardID: int)
    requires ValidNode(n) && HonestCalls(n, calls) && IsInt64(shardID) && shardID < 0
    ensures IsCollationSubscribed(Run(n, calls), shardID)
            <==> IsCollationSubscribed(n, shardID) || EverDone(n, calls, shardID)
  {
    if calls == [] {
    } else {
      NegativeStaysSubscribed(n, calls[..|calls| - 1], shardID);
      var before, call := RunLast(n, calls);
      StepSubscriptions(before, call, shardID);
    }
  }

  /** After `calls`, `call` completes a ListenShard although, for an ID that is not negative, an odd number
      of flips came before it, or, for a negative one, a ListenShard on that ID had completed before. */
  ghost predicate Loses(n: NodeState, calls: seq<Call>, call: Call) {
    call.Listen? && Step(Run(n, calls), call).1.Done?
    && if 0 <= call.shardID then FlipsSinceDone(n, calls, call.shardID) % 2 == 1 else EverDone(n, calls, call.shardID)
  }

  /** No call of the run does. */
  ghost predicate LosesNowhere(n: NodeState, calls: seq<Call>) {
    calls == [] || (LosesNowhere(n, calls[..|calls| - 1]) && !Loses(n, calls[..|calls| - 1], calls[|calls| - 1]))
  }

  /** Shards in range agree, and no negative ID is subscribed: so it is right after the start. */
  ghost predicate Orderly(n: NodeState) {
    && (forall s | InRange(s) :: Agrees(n, s))
    && (forall s | IsInt64(s) && s < 0 :: !IsCollationSubscribed(n, s))
  }

  /** What callers saw tells whether a completed ListenShard loses a subscription. */
  lemma OverwritesIffLoses(n: NodeState, calls: seq<Call>, call: Call)
    requires ValidNode(n) && HonestCalls(n, calls) && HonestCall(Run(n, calls), call) && Orderly(n)
    ensures Overwrites(Run(n, calls), call) <==> Loses(n, calls, call)
  {
    if call.Listen? && Step(Run(n, calls), call).1.Done? {
      RunKeepsValid(n, calls);
      if 0 <= call.shardID {
        StepOnShard(Run(n, calls), call, call.shardID);
        AgreementExact(n, calls, call.shardID);
      } else {
        NegativeStaysSubscribed(n, calls, call.shardID);
      }
    }
  }

  lemma {:induction false} OverwrittenIffLoses(n: NodeState, calls: seq<Call>)
    requires ValidNode(n) && HonestCalls(n, calls) && Orderly(n)
    ensures Overwritten(n, calls) == 0 <==> LosesNowhere(n, calls)
  {
    if calls == [] {
    } else {
      OverwrittenIffLoses(n, calls[..|calls| - 1]);
      OverwritesIffLoses(n, calls[..|calls| - 1], calls[|calls| - 1]);
    }
  }

  /** Conservation told by the results that callers saw: subscriptions are conserved by a run exactly when
      no ListenShard completed on a shard after an odd number of flips, or again on a negative ID. */
  lemma ConservationByResults(n: NodeState, calls: seq<Call>)
    requires ValidNode(n) && HonestCalls(n, calls) && Conserved(n) && Orderly(n)
    ensures Conserved(Run(n, calls)) <==> LosesNowhere(n, calls)
  {
    ConservationExact(n, calls);
    OverwrittenIffLoses(n, calls);
  }

  /** A just started node is in the state that these results start from. */
  lemma FreshIsOrderly(n: NodeState)
    requires Fresh(n)
    ensures ValidNode(n) && Conserved(n) && Orderly(n)
  {
    FreshIsValid(n);
  }

  // ---------------------------------------------------------------- runs whose announcements succeed

  ghost predicate PublishNeverFails(calls: seq<Call>) {
    forall i | 0 <= i < |calls| && (calls[i].Listen? || calls[i].Unlisten?) :: calls[i].env.publishOk
  }

  ghost predicate SubscribeNeverFails(calls: seq<Call>) {
    forall i | 0 <= i < |calls| && calls[i].Listen? :: calls[i].env.subscribeOk
  }

  lemma PublishedStep(n: NodeState, call: Call, shardID: int)
    requires ValidNode(n) && HonestCall(n, call) && NonNegative(call) && IsInt64(shardID)
    requires call.Listen? || call.Unlisten? ==> call.env.publishOk
    requires IsCollationSubscribed(n, shardID) ==> IsShardListened(n, shardID)
    ensures IsCollationSubscribed(Step(n, call).0, shardID) ==> IsShardListened(Step(n, call).0, shardID)
    ensures (call.Listen? ==> call.env.subscribeOk) && Agrees(n, shardID) ==> Agrees(Step(n, call).0, shardID)
    ensures !Overwrites(n, call) || call.shardID != shardID
  {
    if On(call, shardID) {
      StepOnShard(n, call, shardID);
      AdvertiseToggles(n, shardID, true);
    } else {
      StepOnOthers(n, call, shardID);
    }
  }

  /** If publishing never fails and no ID is negative, nothing leaks and only listened shards are
      subscribed; if subscribing never fails either, exactly the listened shards are. */
  lemma {:induction false} PublishedRunsConserve(n: NodeState, calls: seq<Call>)
    requires Fresh(n) && HonestCalls(n, calls) && PublishNeverFails(calls) && AllNonNegative(calls)
    ensures Conserved(Run(n, calls)) && Overwritten(n, calls) == 0
    ensures forall s | IsInt64(s) && IsCollationSubscribed(Run(n, calls), s) :: IsShardListened(Run(n, calls), s)
    ensures SubscribeNeverFails(calls) ==> forall s | IsInt64(s) :: Agrees(Run(n, calls), s)
  {
    FreshIsValid(n);
    if calls == [] {
    } else {
      PublishedRunsConserve(n, calls[..|calls| - 1]);
      var before, call := RunLast(n, calls);
      forall s | IsInt64(s)
        ensures IsCollationSubscribed(Step(before, call).0, s) ==> IsShardListened(Step(before, call).0, s)
        ensures SubscribeNeverFails(calls) ==> Agrees(Step(before, call).0, s)
        ensures !Overwrites(before, call) || call.shardID != s
      {
        PublishedStep(before, call, s);
      }
      assert !Overwrites(before, call);
    }
    ConservationExact(n, calls);
  }

  // ---------------------------------------------------------------- batches

  ghost function CalledShards(calls: seq<Call>): set<int> {
    set i | 0 <= i < |calls| && (calls[i].Listen? || calls[i].Unlisten?) && InRange(calls[i].shardID) ::
      calls[i].shardID
  }

  ghost predicate AllListen(calls: seq<Call>) {
    forall i | 0 <= i < |calls| :: calls[i].Listen?
  }

  ghost predicate AllUnlisten(calls: seq<Call>) {
    forall i | 0 <= i < |calls| :: calls[i].Unlisten?
  }

  lemma CalledShardsStep(calls: seq<Call>)
    requires calls != [] && (calls[|calls| - 1].Listen? || calls[|calls| - 1].Unlisten?)
    ensures CalledShards(calls) == CalledShards(calls[..|calls| - 1])
              + if InRange(calls[|calls| - 1].shardID) then {calls[|calls| - 1].shardID} else {}
  {
    var pre := calls[..|calls| - 1];
    forall x | x in CalledShards(pre) ensures x in CalledShards(calls) {
      var i :| 0 <= i < |pre| && (pre[i].Listen? || pre[i].Unlisten?) && InRange(pre[i].shardID) && pre[i].shardID == x;
      assert calls[i] == pre[i];
    }
    forall x | x in CalledShards(calls) ensures x in CalledShards(pre) || x == calls[|calls| - 1].shardID {
      var i :| 0 <= i < |calls| && (calls[i].Listen? || calls[i].Unlisten?) && InRange(calls[i].shardID)
               && calls[i].shardID == x;
      if i < |pre| { assert calls[i] == pre[i]; }
    }
  }

  lemma StepOwn(n: NodeState, call: Call)
    requires ValidNode(n) && HonestCall(n, call)
    requires (call.Listen? && 0 <= call.shardID) || call.Unlisten?
    ensures ShardSet(Own(Step(n, call).0)) ==
            if !InRange(call.shardID) then ShardSet(Own(n))
            else if call.Listen? then ShardSet(Own(n)) + {call.shardID}
            else ShardSet(Own(n)) - {call.shardID}
  {
    if 0 <= call.shardID {
      AdvertiseToggles(n, call.shardID, call.env.publishOk);
    }
    assert InRange(call.shardID) ==> (IsShardListened(n, call.shardID) <==> call.shardID in ShardSet(Own(n)));
  }

  /** Although each step toggles, a batch of ListenShard calls unites and a batch of UnlistenShard
      calls subtracts, whatever repetitions, out-of-range IDs and failures it contains. Negative IDs
      matter to ListenShard only. */
  lemma {:induction false} BatchIsUnionOrDifference(n: NodeState, calls: seq<Call>)
    requires ValidNode(n) && HonestCalls(n, calls)
    requires (AllListen(calls) && AllNonNegative(calls)) || AllUnlisten(calls)
    ensures AllListen(calls) ==> ShardSet(Own(Run(n, calls))) == ShardSet(Own(n)) + CalledShards(calls)
    ensures AllUnlisten(calls) ==> ShardSet(Own(Run(n, calls))) == ShardSet(Own(n)) - CalledShards(calls)
  {
    if calls == [] {
    } else {
      BatchIsUnionOrDifference(n, calls[..|calls| - 1]);
      CalledShardsStep(calls);
      var before, call := RunLast(n, calls);
      assert AllListen(calls) ==> NonNegative(call);
      StepOwn(before, call);
    }
  }

  /** Two batches that name the same shards in range leave the same bytes, in whatever order and
      however often they name them. */
  lemma BatchOrderIrrelevant(n: NodeState, calls1: seq<Call>, calls2: seq<Call>)
    requires ValidNode(n) && HonestCalls(n, calls1) && HonestCalls(n, calls2)
    requires (AllListen(calls1) && AllListen(calls2) && AllNonNegative(calls1) && AllNonNegative(calls2))
             || (AllUnlisten(calls1) && AllUnlisten(calls2))
    requires CalledShards(calls1) == CalledShards(calls2)
    ensures Own(Run(n, calls1)) == Own(Run(n, calls2))
  {
    BatchIsUnionOrDifference(n, calls1);
    BatchIsUnionOrDifference(n, calls2);
    RunKeepsValid(n, calls1);
    RunKeepsValid(n, calls2);
    EmptyHasNoShards();
    WellFormedExtensionality(Own(Run(n, calls1)), Own(Run(n, calls2)));
  }
}
