/** Which peers `connectShardNodes` of `shardmanager.go` dials. */
module PeerSelection {
  import opened Common

  function Min(a: int, b: int): int {
    if a < b then a else b
  }

  /** The peers of `found`, in order, that are not in `connected`. */
  function NotConnected(found: seq<PeerID>, connected: set<PeerID>): seq<PeerID> {
    if found == [] then []
    else
      var rest := NotConnected(found[..|found| - 1], connected);
      if found[|found| - 1] in connected then rest else rest + [found[|found| - 1]]
  }

  /** `part` picks the positions `at` of `whole`, in order. */
  ghost predicate PicksAt(part: seq<PeerID>, whole: seq<PeerID>, at: seq<int>) {
    && |at| == |part| && Ascending(at)
    && forall k | 0 <= k < |part| :: 0 <= at[k] < |whole| && part[k] == whole[at[k]]
  }

  ghost predicate OrderedPart(part: seq<PeerID>, whole: seq<PeerID>) {
    exists at :: PicksAt(part, whole, at)
  }

  lemma OrderedPartIsPart(part: seq<PeerID>, whole: seq<PeerID>)
    requires OrderedPart(part, whole)
    ensures Elements(part) <= Elements(whole)
    ensures Distinct(whole) ==> Distinct(part)
  {
    var at :| PicksAt(part, whole, at);
    assert forall k | 0 <= k < |part| :: part[k] == whole[at[k]];
  }

  lemma {:induction false} NotConnectedElements(found: seq<PeerID>, connected: set<PeerID>)
    ensures Elements(NotConnected(found, connected)) == Elements(found) - connected
    ensures Distinct(found) ==> Distinct(NotConnected(found, connected))
  {
    if found == [] {
    } else {
      var init, last := found[..|found| - 1], found[|found| - 1];
      assert found == init + [last];
      NotConnectedElements(init, connected);
      ElementsAppend(init, last);
      var rest := NotConnected(init, connected);
      ElementsAppend(rest, last);
      if Distinct(found) {
        assert forall i | 0 <= i < |rest| :: rest[i] in Elements(rest);
        assert last !in Elements(init);
      }
    }
  }

  /** Filtering keeps the order. */
  lemma {:induction false} NotConnectedInOrder(found: seq<PeerID>, connected: set<PeerID>) returns (at: seq<int>)
    ensures PicksAt(NotConnected(found, connected), found, at)
  {
    if found == [] {
      at := [];
    } else {
      at := NotConnectedInOrder(found[..|found| - 1], connected);
      if found[|found| - 1] !in connected {
        at := at + [|found| - 1];
      }
    }
  }

  /** A part of a part is a part. */
  lemma PartOfPart(part: seq<PeerID>, middle: seq<PeerID>, whole: seq<PeerID>)
    requires OrderedPart(part, middle) && OrderedPart(middle, whole)
    ensures OrderedPart(part, whole)
  {
    var at :| PicksAt(part, middle, at);
    var of :| PicksAt(middle, whole, of);
    var through := seq(|at|, k requires 0 <= k < |at| => of[at[k]]);
    assert PicksAt(part, whole, through);
  }

  lemma PicksAtDrop(part: seq<PeerID>, whole: seq<PeerID>, at: seq<int>, index: nat)
    requires PicksAt(part, whole, at) && index < |part|
    ensures PicksAt(part[..index] + part[index + 1..], whole, at[..index] + at[index + 1..])
  {
  }

  /** The drop loop. `rand.Intn` panics on an empty list, so there must be enough to drop; the random
      choice is any choice. */
  method DropAtRandom(peers: seq<PeerID>, count: int) returns (rest: seq<PeerID>)
    requires count <= |peers|
    ensures OrderedPart(rest, peers)
    ensures |rest| == Min(|peers|, |peers| - count)
  {
    rest := peers;
    ghost var at := seq(|peers|, k => k);
    var i := 0;
    while i < count
      invariant i == 0 || i <= count
      invariant |rest| == |peers| - i
      invariant PicksAt(rest, peers, at)
    {
      var index :| 0 <= index < |rest|;
      PicksAtDrop(rest, peers, at, index);
      rest := rest[..index] + rest[index + 1..];
      at := at[..index] + at[index + 1..];
      i := i + 1;
    }
  }

  method MapConnected(connected: seq<PeerID>) returns (mapConnected: set<PeerID>)
    ensures mapConnected == Elements(connected)
  {
    mapConnected := {};
    for i := 0 to |connected|
      invariant mapConnected == Elements(connected[..i])
    {
      assert connected[..i + 1] == connected[..i] + [connected[i]];
      ElementsAppend(connected[..i], connected[i]);
      mapConnected := mapConnected + {connected[i]};
    }
    assert connected[..|connected|] == connected;
  }

  /** `connected` comes from the pubsub service. Its list must not be longer than the target while
      naming fewer peers than the target: such a list, with repetitions, would make the drop loop
      draw from an empty list. */
  method SelectPeers(connected: seq<PeerID>, found: seq<PeerID>, target: int) returns (chosen: seq<PeerID>)
    requires |Elements(connected)| < target ==> |connected| <= target
    ensures OrderedPart(chosen, NotConnected(found, Elements(connected))) && OrderedPart(chosen, found)
    ensures |Elements(connected)| >= target ==> chosen == []
    ensures |Elements(connected)| < target ==>
              |chosen| == Min(target - |connected|, |NotConnected(found, Elements(connected))|)
  {
    ghost var at := NotConnectedInOrder(found, Elements(connected));
    var mapConnected := MapConnected(connected);
    if |mapConnected| >= target {
      assert PicksAt([], NotConnected(found, mapConnected), []) && PicksAt([], found, []);
      return [];
    }

    var pinfos: seq<PeerID> := [];
    for i := 0 to |found|
      invariant pinfos == NotConnected(found[..i], mapConnected)
    {
      assert found[..i + 1][..i] == found[..i];
      if found[i] !in mapConnected {
        pinfos := pinfos + [found[i]];
      }
    }
    assert found[..|found|] == found;
    chosen := DropAtRandom(pinfos, |pinfos| - (target - |connected|));
    PartOfPart(chosen, pinfos, found);
  }

  /** With the lists that the pubsub service and the table give, only unconnected peers are chosen,
      each once, and the target is met if it can be. */
  lemma TargetMet(connected: seq<PeerID>, found: seq<PeerID>, target: int, chosen: seq<PeerID>)
    requires Distinct(found)
    requires OrderedPart(chosen, NotConnected(found, Elements(connected)))
    requires |Elements(connected)| < target ==>
               |chosen| == Min(target - |connected|, |NotConnected(found, Elements(connected))|)
    ensures Distinct(chosen) && Elements(chosen) <= Elements(found) - Elements(connected)
    ensures Distinct(connected) && |connected| < target ==>
              |connected| + |chosen| == Min(target, |Elements(connected) + Elements(found)|)
  {
    var candidates := NotConnected(found, Elements(connected));
    NotConnectedElements(found, Elements(connected));
    OrderedPartIsPart(chosen, candidates);
    DistinctSize(connected);
    DistinctSize(candidates);
    assert Elements(connected) + Elements(found) == Elements(connected) + Elements(candidates);
    assert Elements(connected) !! Elements(candidates);
  }

  /** What connecting to a shard's peers does: chosen are other listeners that are not connected, each
      once, none if enough are connected, else as many as are missing or there; dialled are, in order,
      the chosen ones without a link. */
  ghost predicate Connects(target: int, others: set<PeerID>, connected: seq<PeerID>, linked: set<PeerID>,
                           chosen: seq<PeerID>, dialled: seq<PeerID>)
  {
    && Distinct(chosen) && Elements(chosen) <= others - Elements(connected)
    && |chosen| == (if |Elements(connected)| >= target then 0
                    else Min(target - |connected|, |others - Elements(connected)|))
    && OrderedPart(dialled, chosen) && Elements(dialled) == Elements(chosen) - linked
  }

  /** Everyone chosen that there is no connection to yet. */
  method DropLinked(chosen: seq<PeerID>, linked: set<PeerID>) returns (dialled: seq<PeerID>)
    ensures OrderedPart(dialled, chosen) && Elements(dialled) == Elements(chosen) - linked
  {
    dialled := [];
    ghost var at: seq<int> := [];
    for i := 0 to |chosen|
      invariant PicksAt(dialled, chosen, at) && (at == [] || at[|at| - 1] < i)
      invariant Elements(dialled) == Elements(chosen[..i]) - linked
    {
      assert chosen[..i + 1] == chosen[..i] + [chosen[i]];
      ElementsAppend(chosen[..i], chosen[i]);
      ElementsAppend(dialled, chosen[i]);
      if chosen[i] !in linked {
        dialled := dialled + [chosen[i]];
        at := at + [i];
      }
    }
    assert chosen[..|chosen|] == chosen;
  }

  method ChooseAndDial(connected: seq<PeerID>, found: seq<PeerID>, target: int, linked: set<PeerID>)
    returns (chosen: seq<PeerID>, dialled: seq<PeerID>)
    requires |Elements(connected)| < target ==> |connected| <= target
    requires Distinct(found)
    ensures Connects(target, Elements(found), connected, linked, chosen, dialled)
    ensures OrderedPart(chosen, NotConnected(found, Elements(connected)))
    ensures Distinct(connected) && |connected| < target ==>
              |connected| + |chosen| == Min(target, |Elements(connected) + Elements(found)|)
  {
    chosen := SelectPeers(connected, found, target);
    TargetMet(connected, found, target, chosen);
    dialled := DropLinked(chosen, linked);
    NotConnectedElements(found, Elements(connected));
    DistinctSize(NotConnected(found, Elements(connected)));
  }
}
