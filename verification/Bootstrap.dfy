/** `bootstrapConnect` of `bootstrap.go`: one goroutine per peer, a wait group, and a channel with room
    for as many errors as there are peers. Each statement that another goroutine can observe is a step. */
module Bootstrap {
  import opened Common

  datatype Worker =
    | NotSpawned
    | Dialling
    | Reporting     // the dial failed; the error is still to be sent
    | Finishing     // the deferred wg.Done is still to come
    | Exited

  datatype Main = Spawning | Waiting | Returned(failed: bool)

  /** `failures` records whose dial failed; the program itself sees only the channel. */
  datatype State = State(workers: seq<Worker>, spawned: nat, wg: int, errs: seq<nat>, main: Main, failures: set<nat>)

  datatype Event = Spawn | DialReturns(worker: nat, ok: bool) | Send(worker: nat) | Exit(worker: nat) | Join

  function Start(peers: nat): State {
    State(seq(peers, _ => NotSpawned), 0, 0, [], if peers < 1 then Returned(true) else Spawning, {})
  }

  /** A send needs room in the channel, the wait a wait group at zero. */
  predicate Enabled(s: State, e: Event) {
    match e
    case Spawn => s.main.Spawning? && s.spawned < |s.workers|
    case DialReturns(i, _) => i < |s.workers| && s.workers[i].Dialling?
    case Send(i) => i < |s.workers| && s.workers[i].Reporting? && |s.errs| < |s.workers|
    case Exit(i) => i < |s.workers| && s.workers[i].Finishing?
    case Join => s.main.Waiting? && s.wg == 0
  }

  function Next(s: State, e: Event): State
    requires Enabled(s, e)
  {
    match e
    case Spawn =>
      s.(workers := s.workers[s.spawned := Dialling], spawned := s.spawned + 1, wg := s.wg + 1,
         main := if s.spawned + 1 == |s.workers| then Waiting else Spawning)
    case DialReturns(i, ok) =>
      if ok then s.(workers := s.workers[i := Finishing])
      else s.(workers := s.workers[i := Reporting], failures := s.failures + {i})
    case Send(i) => s.(workers := s.workers[i := Finishing], errs := s.errs + [i])
    case Exit(i) => s.(workers := s.workers[i := Exited], wg := s.wg - 1)
    case Join => s.(main := Returned(|s.errs| == |s.workers|))
  }

  /** Every prefix of the events is enabled. */
  ghost predicate Possible(s: State, events: seq<Event>) {
    events == [] ||
    (Possible(s, events[..|events| - 1]) && Enabled(Run(s, events[..|events| - 1]), events[|events| - 1]))
  }

  ghost function Run(s: State, events: seq<Event>): State {
    if events == [] then s
    else
      var before := Run(s, events[..|events| - 1]);
      if Enabled(before, events[|events| - 1]) then Next(before, events[|events| - 1]) else before
  }

  // ---------------------------------------------------------------- counting workers

  function Sum(workers: seq<Worker>, weight: Worker -> nat): nat {
    if workers == [] then 0 else Sum(workers[..|workers| - 1], weight) + weight(workers[|workers| - 1])
  }

  lemma {:induction false} SumUpdate(workers: seq<Worker>, weight: Worker -> nat, i: nat, w: Worker)
    requires i < |workers|
    ensures Sum(workers[i := w], weight) + weight(workers[i]) == Sum(workers, weight) + weight(w)
  {
    var n := |workers| - 1;
    if i == n {
      assert workers[i := w][..n] == workers[..n];
    } else {
      assert workers[i := w][..n] == workers[..n][i := w];
      SumUpdate(workers[..n], weight, i, w);
    }
  }

  lemma {:induction false} SumBound(workers: seq<Worker>, weight: Worker -> nat, i: nat)
    requires i < |workers|
    ensures weight(workers[i]) <= Sum(workers, weight)
  {
    if i < |workers| - 1 {
      SumBound(workers[..|workers| - 1], weight, i);
    }
  }

  lemma {:induction false} SumConstant(workers: seq<Worker>, weight: Worker -> nat, c: nat)
    requires forall i | 0 <= i < |workers| :: weight(workers[i]) == c
    ensures Sum(workers, weight) == c * |workers|
  {
    if workers != [] {
      SumConstant(workers[..|workers| - 1], weight, c);
    }
  }

  lemma {:induction false} SumWitness(workers: seq<Worker>, weight: Worker -> nat) returns (i: nat)
    requires Sum(workers, weight) > 0
    ensures i < |workers| && weight(workers[i]) > 0
  {
    i := |workers| - 1;
    if weight(workers[i]) == 0 {
      i := SumWitness(workers[..|workers| - 1], weight);
    }
  }

  function Live(w: Worker): nat {
    if w.NotSpawned? || w.Exited? then 0 else 1
  }

  /** Steps that a worker still has to take. */
  function StepsLeft(w: Worker): nat {
    match w
    case NotSpawned => 4
    case Dialling => 3
    case Reporting => 2
    case Finishing => 1
    case Exited => 0
  }

  ghost function Remaining(s: State): nat {
    Sum(s.workers, StepsLeft) + if s.main.Returned? then 0 else 1
  }

  // ---------------------------------------------------------------- invariant

  ghost predicate WorkerInv(s: State, i: nat)
    requires i < |s.workers|
  {
    && (s.workers[i].NotSpawned? <==> i >= s.spawned)
    && (s.workers[i].NotSpawned? || s.workers[i].Dialling? ==> i !in s.failures && i !in s.errs)
    && (s.workers[i].Reporting? ==> i in s.failures && i !in s.errs)
    && (s.workers[i].Finishing? || s.workers[i].Exited? ==> (i in s.errs <==> i in s.failures))
  }

  ghost predicate Inv(s: State) {
    && s.spawned <= |s.workers|
    && (forall i | 0 <= i < |s.workers| :: WorkerInv(s, i))
    && (forall i | i in s.failures :: i < |s.workers|)
    && (forall i | i in s.errs :: i < |s.workers|)
    && Distinct(s.errs)
    && s.wg == Sum(s.workers, Live)
    && (s.main.Spawning? ==> s.spawned < |s.workers|)
    && (!s.main.Spawning? ==> s.spawned == |s.workers|)
    && (s.main.Waiting? ==> s.workers != [])
    && (s.main.Returned? ==>
          && (forall i | 0 <= i < |s.workers| :: s.workers[i].Exited?)
          && (s.main.failed <==> s.workers == [] || |s.errs| == |s.workers|))
  }

  lemma StartInv(peers: nat)
    ensures Inv(Start(peers))
    ensures Remaining(Start(peers)) <= 4 * peers + 1
  {
    SumConstant(Start(peers).workers, Live, 0);
    SumConstant(Start(peers).workers, StepsLeft, 4);
  }

  lemma WaitGroupZero(s: State)
    requires Inv(s) && s.wg == 0
    ensures forall i | 0 <= i < s.spawned :: s.workers[i].Exited?
  {
    forall i | 0 <= i < s.spawned ensures s.workers[i].Exited? {
      SumBound(s.workers, Live, i);
      assert WorkerInv(s, i);
    }
  }

  lemma JoinInv(s: State)
    requires Inv(s) && Enabled(s, Join)
    ensures Inv(Next(s, Join)) && Remaining(Next(s, Join)) < Remaining(s)
  {
    WaitGroupZero(s);
    forall j | 0 <= j < |s.workers| ensures WorkerInv(Next(s, Join), j) {
      assert WorkerInv(s, j);
    }
  }

  lemma WorkersAfter(s: State, e: Event, i: nat)
    requires Inv(s) && Enabled(s, e) && !e.Join? && i < |s.workers|
    ensures WorkerInv(Next(s, e), i)
  {
    assert WorkerInv(s, i);
    if e.Spawn? { assert WorkerInv(s, s.spawned); } else { assert WorkerInv(s, e.worker); }
  }

  lemma NextInv(s: State, e: Event)
    requires Inv(s) && Enabled(s, e)
    ensures Inv(Next(s, e)) && Remaining(Next(s, e)) < Remaining(s)
  {
    if e.Join? {
      JoinInv(s);
    } else {
      var after := Next(s, e);
      var i := if e.Spawn? then s.spawned else e.worker;
      assert WorkerInv(s, i);
      SumUpdate(s.workers, Live, i, after.workers[i]);
      SumUpdate(s.workers, StepsLeft, i, after.workers[i]);
      assert after.workers == s.workers[i := after.workers[i]];
      forall j | 0 <= j < |s.workers| { WorkersAfter(s, e, j); }
    }
  }

  lemma {:induction false} RunInv(peers: nat, events: seq<Event>)
    requires Possible(Start(peers), events)
    ensures Inv(Run(Start(peers), events))
    ensures |Run(Start(peers), events).workers| == peers
    ensures |events| + Remaining(Run(Start(peers), events)) <= 4 * peers + 1
  {
    StartInv(peers);
    if events == [] {
    } else {
      RunInv(peers, events[..|events| - 1]);
      NextInv(Run(Start(peers), events[..|events| - 1]), events[|events| - 1]);
    }
  }

  // ---------------------------------------------------------------- what the caller gets

  ghost function Range(n: nat): (r: set<nat>)
    ensures |r| == n
    ensures forall i: nat :: i in r <==> i < n
  {
    if n == 0 then {} else Range(n - 1) + {n - 1}
  }

  lemma SubsetSize(a: set<nat>, b: set<nat>)
    requires a <= b
    ensures |a| <= |b| && (|a| == |b| ==> a == b)
  {
    var rest := b - a;
    assert b == a + rest && a !! rest;
  }

  /** No worker ever blocks on the channel, and none sends twice. */
  lemma SendNeverBlocks(peers: nat, events: seq<Event>)
    requires Possible(Start(peers), events)
    ensures var s := Run(Start(peers), events);
            && Distinct(s.errs)
            && forall i | 0 <= i < |s.workers| && s.workers[i].Reporting? :: i !in s.errs && Enabled(s, Send(i))
  {
    RunInv(peers, events);
    var s := Run(Start(peers), events);
    forall i | 0 <= i < |s.workers| && s.workers[i].Reporting? ensures i !in s.errs && Enabled(s, Send(i)) {
      assert WorkerInv(s, i);
      DistinctSize(s.errs);
      SubsetSize(Elements(s.errs), Range(|s.workers|));
      assert i in Range(|s.workers|) && i !in Elements(s.errs);
    }
  }

  /** It takes at most four steps per peer and one more, and as long as `bootstrapConnect` has not
      returned, something can happen: the next worker can be started, whatever the others are doing;
      or a step of the program; or a dial is out, and may come back either way. */
  lemma WaitEnds(peers: nat, events: seq<Event>)
    requires Possible(Start(peers), events)
    ensures |events| <= 4 * peers + 1
    ensures var s := Run(Start(peers), events);
            && (s.main.Spawning? ==> Enabled(s, Spawn))
            && (forall i, ok | 0 <= i < |s.workers| && s.workers[i].Dialling? :: Enabled(s, DialReturns(i, ok)))
            && (|| s.main.Returned?
                || (exists i :: 0 <= i < |s.workers| && s.workers[i].Dialling?)
                || (exists e :: Enabled(s, e) && !e.DialReturns?))
  {
    RunInv(peers, events);
    var s := Run(Start(peers), events);
    if s.main.Spawning? {
      assert Enabled(s, Spawn);
    } else if s.main.Waiting? {
      if s.wg == 0 {
        assert Enabled(s, Join);
      } else {
        var i := SumWitness(s.workers, Live);
        if s.workers[i].Reporting? {
          SendNeverBlocks(peers, events);
          assert Enabled(s, Send(i));
        } else if s.workers[i].Finishing? {
          assert Enabled(s, Exit(i));
        }
      }
    }
  }

  /** Whose dial came back, and how, as the events tell. */
  ghost predicate Dialled(events: seq<Event>, i: nat, ok: bool) {
    DialReturns(i, ok) in events
  }

  /** The state knows of dial i what the events say: it comes back once at most, and the failures are
      those that came back with an error. */
  ghost predicate RecordsDial(s: State, events: seq<Event>, i: nat)
    requires i < |s.workers|
  {
    && (i in s.failures <==> Dialled(events, i, false))
    && (s.workers[i].NotSpawned? || s.workers[i].Dialling?
        <==> !Dialled(events, i, true) && !Dialled(events, i, false))
    && !(Dialled(events, i, true) && Dialled(events, i, false))
  }

  lemma DialledStep(s: State, pre: seq<Event>, e: Event, i: nat)
    requires Inv(s) && Enabled(s, e) && i < |s.workers| && RecordsDial(s, pre, i)
    ensures |Next(s, e).workers| == |s.workers| && RecordsDial(Next(s, e), pre + [e], i)
  {
    assert WorkerInv(s, i);
    forall ok ensures Dialled(pre + [e], i, ok) <==> Dialled(pre, i, ok) || e == DialReturns(i, ok) {}
  }

  lemma {:induction false} DialledOnce(peers: nat, events: seq<Event>, i: nat)
    requires Possible(Start(peers), events) && i < peers
    ensures |Run(Start(peers), events).workers| == peers && RecordsDial(Run(Start(peers), events), events, i)
  {
    if events == [] {
    } else {
      var pre, e := events[..|events| - 1], events[|events| - 1];
      DialledOnce(peers, pre, i);
      RunInv(peers, pre);
      assert events == pre + [e];
      DialledStep(Run(Start(peers), pre), pre, e, i);
    }
  }

  /** `bootstrapConnect` returns only when every dial has come back, and fails exactly when there were no
      peers or every dial came back with an error. */
  lemma FailsIffAllDialsFailed(peers: nat, events: seq<Event>)
    requires Possible(Start(peers), events) && Run(Start(peers), events).main.Returned?
    ensures var s := Run(Start(peers), events);
            && (forall i | 0 <= i < |s.workers| :: s.workers[i].Exited?)
            && (forall i: nat | i < peers :: Dialled(events, i, true) != Dialled(events, i, false))
            && (s.main.failed <==> peers == 0 || forall i: nat | i < peers :: Dialled(events, i, false))
  {
    RunInv(peers, events);
    var s := Run(Start(peers), events);
    forall i: nat | i < peers
      ensures (i in s.errs <==> i in s.failures) && (i in s.failures <==> Dialled(events, i, false))
      ensures Dialled(events, i, true) != Dialled(events, i, false)
    {
      assert WorkerInv(s, i);
      DialledOnce(peers, events, i);
    }
    assert Elements(s.errs) == s.failures;
    DistinctSize(s.errs);
    SubsetSize(s.failures, Range(peers));
    assert s.failures == Range(peers) <==> forall i: nat | i < peers :: i in s.failures;
  }
}
