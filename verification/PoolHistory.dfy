/**
 The thread pool's fields in terms of what has happened: every count, flag and list is what the
 actions of the run so far make it, and what came into a queue went out of it, item by item.
 */
module PoolHistory {
  import opened Counting
  import opened ThreadPool
  import opened QueueRemoval

  // ---- Pauses and drains ----

  function IsPause(a: Action): bool { a.PauseCall? || a.PauseNew? }
  function IsUnpause(a: Action): bool { a.Unpause? }
  function IsDrainCall(a: Action): bool { a.DrainCall? }
  function IsDrainReturn(a: Action): bool { a.DrainReturn? }

  /** How many of the first i actions are of a kind. */
  ghost function CountOf(acts: seq<Action>, i: nat, p: Action -> bool): nat
    requires i <= |acts|
  {
    Count(acts[..i], p)
  }

  lemma CountNext(acts: seq<Action>, i: nat, p: Action -> bool)
    requires i < |acts|
    ensures CountOf(acts, i + 1, p) == CountOf(acts, i, p) + if p(acts[i]) then 1 else 0
  {
    assert acts[..i + 1] == acts[..i] + [acts[i]];
    CountAppend(acts[..i], acts[i], p);
  }

  lemma PauseStep(s: Pool, a: Action)
    requires Safe(s) && Enabled(s, a)
    ensures Step(s, a).pause + (if IsUnpause(a) then 1 else 0) == s.pause + if IsPause(a) then 1 else 0
    ensures Step(s, a).draining + (if IsDrainReturn(a) then 1 else 0) == s.draining + if IsDrainCall(a) then 1 else 0
  {
    if a.Start? || a.Resize? {
      StartedCounts(if a.Resize? then s.(crew := s.crew.(numThreads := a.count)) else s);
    }
  }

  lemma {:induction false} StartThreadsCounts(s: Pool, missing: nat)
    ensures var s' := StartThreads(s, missing); s'.pause == s.pause && s'.draining == s.draining
    decreases missing
  {
    if missing > 0 {
      StartThreadsCounts(OneMore(s), missing - 1);
    }
  }

  lemma StartedCounts(s: Pool)
    ensures Started(s).pause == s.pause && Started(s).draining == s.draining
  {
    StartThreadsCounts(s.(crew := s.crew.(started := false)), Missing(s));
  }

  /** The drain count is the number of drain calls so far less the number of their returns. */
  lemma {:induction false} DrainIsCounted(n: nat, acts: seq<Action>, states: seq<Pool>, i: nat)
    requires IsRun(n, acts, states) && i < |states|
    ensures states[i].draining + CountOf(acts, i, IsDrainReturn) == CountOf(acts, i, IsDrainCall)
  {
    if i == 0 {
      assert acts[..0] == [];
    } else {
      DrainIsCounted(n, acts, states, i - 1);
      RunStep(n, acts, states, i - 1);
      PauseStep(states[i - 1], acts[i - 1]);
      CountNext(acts, i - 1, IsDrainCall);
      CountNext(acts, i - 1, IsDrainReturn);
    }
  }

  /** The pause count is the number of pauses so far less the number of unpauses so far. */
  lemma {:induction false} PauseIsCounted(n: nat, acts: seq<Action>, states: seq<Pool>, i: nat)
    requires IsRun(n, acts, states) && i < |states|
    ensures states[i].pause + CountOf(acts, i, IsUnpause) == CountOf(acts, i, IsPause)
  {
    if i == 0 {
      assert acts[..0] == [];
    } else {
      PauseIsCounted(n, acts, states, i - 1);
      RunStep(n, acts, states, i - 1);
      PauseStep(states[i - 1], acts[i - 1]);
      CountNext(acts, i - 1, IsPause);
      CountNext(acts, i - 1, IsUnpause);
    }
  }

  // ---- What a worker's turn does ----

  /** The turn in a pool that is not being stopped and has no more threads than it wants. */
  predicate Working(s: Pool) {
    !s.crew.stop && |s.crew.threads| <= s.crew.numThreads
  }

  lemma TurnTakes(s: Pool, w: nat, x: nat)
    requires Safe(s) && w < |s.workers| && !s.workers[w].Exited? && Working(s) && s.pause == 0
    requires x < |s.list| && s.queues[s.list[x]].items != []
    ensures Turn(s, w).workers[w].Busy?
  {
    var s1 := JoinOld(Finish(s, w));
    assert s1.list == s.list && s1.queues[s.list[x]].items == s.queues[s.list[x]].items;
    assert Turn(s, w) == Dispatch(s1, w);
    if !Dispatch(s1, w).workers[w].Busy? {
      DispatchChanges(s1, w);
      WaitsOnlyWhenEmpty(s1, w, x);
    }
  }

  /** When every pause has been matched by an unpause, a worker that gets a turn takes work if there is any. */
  lemma MatchedPausesLetWork(n: nat, acts: seq<Action>, states: seq<Pool>, i: nat, x: nat)
    requires IsRun(n, acts, states) && i < |acts| && acts[i].WorkerTurn? && Working(states[i])
    requires CountOf(acts, i, IsPause) == CountOf(acts, i, IsUnpause)
    requires x < |states[i].list| && states[i].list[x] < |states[i].queues|
    requires states[i].queues[states[i].list[x]].items != []
    ensures Dequeued(acts[i], states[i + 1])
  {
    RunStep(n, acts, states, i);
    PauseIsCounted(n, acts, states, i);
    TurnTakes(states[i], acts[i].w, x);
  }

  /** While a pause is unmatched no turn takes anything. */
  lemma UnmatchedPauseHoldsWork(n: nat, acts: seq<Action>, states: seq<Pool>, i: nat)
    requires IsRun(n, acts, states) && i < |acts|
    requires CountOf(acts, i, IsPause) > CountOf(acts, i, IsUnpause)
    ensures !Dequeued(acts[i], states[i + 1])
  {
    RunStep(n, acts, states, i);
    PauseIsCounted(n, acts, states, i);
    if acts[i].WorkerTurn? {
      PausedTurn(states[i], acts[i].w);
    }
  }

  lemma PausedTurn(s: Pool, w: nat)
    requires Safe(s) && w < |s.workers| && s.pause > 0
    ensures !Turn(s, w).workers[w].Busy?
  {
  }

  /** A turn with too many threads retires the worker; one during a stop ends it. */
  lemma TurnEndsWorker(n: nat, acts: seq<Action>, states: seq<Pool>, i: nat)
    requires IsRun(n, acts, states) && i < |acts| && acts[i].WorkerTurn? && !Working(states[i])
    ensures var s, s', w := states[i], states[i + 1], acts[i].w;
            && w < |s'.workers| && s'.workers[w].Exited?
            && if s.crew.stop then s'.crew == s.crew
               else w in s'.crew.retired && w in s.crew.threads && s'.crew.threads == s.crew.threads - {w}
  {
    RunStep(n, acts, states, i);
    RunsAreSafe(n, acts, states, i);
    assert Places(states[i].crew, acts[i].w) == 1;
    OverfullTurn(states[i], acts[i].w);
  }

  lemma OverfullTurn(s: Pool, w: nat)
    requires Inv(s) && Safe(s) && w < |s.workers| && !s.workers[w].Exited? && !Working(s)
    ensures var s' := Turn(s, w);
            && w < |s'.workers| && s'.workers[w].Exited?
            && if s.crew.stop then s'.crew == s.crew
               else w in s'.crew.retired && w in s.crew.threads && s'.crew.threads == s.crew.threads - {w}
  {
    assert Finish(s, w).crew == s.crew;
  }

  // ---- When calls can return ----

  lemma NoneBusyIsZero(n: nat, acts: seq<Action>, states: seq<Pool>, i: nat)
    requires IsRun(n, acts, states) && i < |states|
    ensures states[i].processing == 0 <==> forall w :: 0 <= w < |states[i].workers| ==> !states[i].workers[w].Busy?
  {
    RunsAreSafe(n, acts, states, i);
    var s := states[i];
    if s.processing == 0 {
      CountZero(s.workers, IsBusy);
      forall w | 0 <= w < |s.workers| ensures !s.workers[w].Busy? {
        assert !IsBusy(s.workers[w]);
      }
    } else if forall w :: 0 <= w < |s.workers| ==> !s.workers[w].Busy? {
      CountNone(s.workers);
    }
  }

  lemma {:induction false} CountNone(workers: seq<Worker>)
    requires forall w :: 0 <= w < |workers| ==> !workers[w].Busy?
    ensures Count(workers, IsBusy) == 0
  {
    if workers != [] {
      CountNone(workers[..|workers| - 1]);
    }
  }

  /** A pause call can return exactly when no worker is at an item. */
  lemma PauseReturnsWhenIdle(n: nat, acts: seq<Action>, states: seq<Pool>, i: nat, t: nat)
    requires IsRun(n, acts, states) && i < |states| && t < |states[i].tokens| && states[i].tokens[t].Pausing?
    ensures Enabled(states[i], PauseReturn(t)) <==>
            forall w :: 0 <= w < |states[i].workers| ==> !states[i].workers[w].Busy?
  {
    NoneBusyIsZero(n, acts, states, i);
  }

  /** A drain can return exactly when no worker is at an item and the queue it waits for, if any, is empty. */
  lemma DrainReturnsWhenIdle(n: nat, acts: seq<Action>, states: seq<Pool>, i: nat, d: nat)
    requires IsRun(n, acts, states) && i < |states| && d < |states[i].drains| && states[i].drains[d].Draining?
    requires var target := states[i].drains[d].target; target.Only? ==> target.queue < |states[i].queues|
    ensures var s := states[i]; var target := s.drains[d].target;
            Enabled(s, DrainReturn(d)) <==>
            && (forall w :: 0 <= w < |s.workers| ==> !s.workers[w].Busy?)
            && (target.Only? ==> s.queues[target.queue].items == [])
  {
    NoneBusyIsZero(n, acts, states, i);
  }

  /** A pause that is in force can be undone, whatever else goes on. */
  lemma UnpauseIsPossible(n: nat, acts: seq<Action>, states: seq<Pool>, i: nat, j: nat)
    requires IsRun(n, acts, states) && i < j < |states|
    requires acts[i].PauseNew? && forall k :: i < k < j ==> acts[k] != Unpause(|states[i].tokens|)
    ensures Enabled(states[j], Unpause(|states[i].tokens|))
  {
    HeldNewStays(n, acts, states, i, j);
  }

  lemma {:induction false} HeldNewStays(n: nat, acts: seq<Action>, states: seq<Pool>, i: nat, j: nat)
    requires IsRun(n, acts, states) && i < j < |states|
    requires acts[i].PauseNew? && forall k :: i < k < j ==> acts[k] != Unpause(|states[i].tokens|)
    ensures var t := |states[i].tokens|; t < |states[j].tokens| && states[j].tokens[t].HeldNew?
    decreases j
  {
    RunStep(n, acts, states, j - 1);
    if j - 1 > i {
      HeldNewStays(n, acts, states, i, j - 1);
      HeldNewStep(states[j - 1], acts[j - 1], |states[i].tokens|);
    }
  }

  lemma HeldNewStep(s: Pool, a: Action, t: nat)
    requires Safe(s) && Enabled(s, a) && t < |s.tokens| && s.tokens[t].HeldNew? && a != Unpause(t)
    ensures t < |Step(s, a).tokens| && Step(s, a).tokens[t].HeldNew?
  {
    if a.Start? || a.Resize? {
      StartedFrame(if a.Resize? then s.(crew := s.crew.(numThreads := a.count)) else s);
    }
  }

  /** Until a stop ends it waits for exactly the threads that are not joined yet, and joins each when it has ended. */
  lemma StopWaitsForThreads(n: nat, acts: seq<Action>, states: seq<Pool>, i: nat)
    requires IsRun(n, acts, states) && i < |states| && Stopping(acts[..i])
    ensures var s := states[i];
            && s.crew.stopper.Joining?
            && (Enabled(s, StopEnd) <==> forall w: nat :: w < |s.workers| ==> w in s.crew.joined)
            && (forall w: nat :: Enabled(s, StopJoin(w)) <==>
                                 w < |s.workers| && w !in s.crew.joined && s.workers[w].Exited?)
  {
    CrewIs(n, acts, states, i);
    RunsAreSafe(n, acts, states, i);
    var s := states[i];
    forall w: nat
      ensures w in s.crew.stopper.remaining <==> w < |s.workers| && w !in s.crew.joined
    {
      assert Places(s.crew, w) == if w < |s.workers| then 1 else 0;
    }
    if forall w: nat :: w < |s.workers| ==> w in s.crew.joined {
      assert s.crew.stopper.remaining == {};
    }
  }

  // ---- The queues ----

  /** The items given to queue q by the actions, in their order. */
  function Submitted(acts: seq<Action>, q: nat): seq<Item> {
    if acts == [] then []
    else
      var a := acts[|acts| - 1];
      Submitted(acts[..|acts| - 1], q) + if a.Enqueue? && a.q == q then [a.item] else []
  }

  lemma SubmittedNext(acts: seq<Action>, i: nat, q: nat)
    requires i < |acts|
    ensures Submitted(acts[..i + 1], q) ==
            Submitted(acts[..i], q) + if acts[i].Enqueue? && acts[i].q == q then [acts[i].item] else []
  {
    assert acts[..i + 1][..i] == acts[..i];
  }

  lemma EnqueuedStep(s: Pool, a: Action, q: nat)
    requires Safe(s) && Enabled(s, a) && q < |Step(s, a).queues|
    ensures Step(s, a).queues[q].enqueued ==
            (if q < |s.queues| then s.queues[q].enqueued else []) + if a.Enqueue? && a.q == q then [a.item] else []
  {
    if a.WorkerTurn? {
      TurnQueues(s, a.w);
      if q < |s.queues| {
        TurnKeepsHistory(s, a.w, q);
      }
    } else if a.Start? || a.Resize? {
      StartedFrame(if a.Resize? then s.(crew := s.crew.(numThreads := a.count)) else s);
    } else if a.StopEnd? {
      ClearKeepsHistory(s.queues, s.list);
    }
  }

  lemma TurnQueues(s: Pool, w: nat)
    requires Safe(s) && w < |s.workers|
    ensures |Turn(s, w).queues| == |s.queues| && Turn(s, w).list == s.list
  {
  }

  /** A queue that does not exist yet has been given nothing. */
  lemma {:induction false} NothingSubmitted(n: nat, acts: seq<Action>, states: seq<Pool>, i: nat, q: nat)
    requires IsRun(n, acts, states) && i < |states| && q >= |states[i].queues|
    ensures Submitted(acts[..i], q) == []
  {
    if i > 0 {
      RunStep(n, acts, states, i - 1);
      QueuesGrow(states[i - 1], acts[i - 1]);
      NothingSubmitted(n, acts, states, i - 1, q);
      SubmittedNext(acts, i - 1, q);
    }
  }

  lemma QueuesGrow(s: Pool, a: Action)
    requires Safe(s) && Enabled(s, a)
    ensures |Step(s, a).queues| == |s.queues| + if a.AddQueue? then 1 else 0
  {
    if a.WorkerTurn? {
      TurnQueues(s, a.w);
    } else if a.Start? || a.Resize? {
      StartedFrame(if a.Resize? then s.(crew := s.crew.(numThreads := a.count)) else s);
    } else if a.StopEnd? {
      ClearKeepsHistory(s.queues, s.list);
    }
  }

  /** A queue's record of what it was given is what the actions gave it, in order. */
  lemma {:induction false} EnqueuedIsSubmitted(n: nat, acts: seq<Action>, states: seq<Pool>, i: nat, q: nat)
    requires IsRun(n, acts, states) && i < |states| && q < |states[i].queues|
    ensures states[i].queues[q].enqueued == Submitted(acts[..i], q)
  {
    if i > 0 {
      RunStep(n, acts, states, i - 1);
      EnqueuedStep(states[i - 1], acts[i - 1], q);
      SubmittedNext(acts, i - 1, q);
      if q < |states[i - 1].queues| {
        EnqueuedIsSubmitted(n, acts, states, i - 1, q);
      } else {
        NothingSubmitted(n, acts, states, i - 1, q);
      }
    }
  }

  // ---- What becomes of the items ----

  /** The item of queue q that a step finishes: the one its worker was at. */
  function FinishedAt(s: Pool, a: Action, q: nat): multiset<Item> {
    if a.WorkerTurn? && a.w < |s.workers| then ItemOf(s.workers[a.w], q) else multiset{}
  }

  /** The items of queue q that a step throws away: all of a listed queue when the pool has stopped. */
  function ClearedAt(s: Pool, a: Action, q: nat): multiset<Item> {
    if a.StopEnd? && q in s.list && q < |s.queues| then multiset(s.queues[q].items) else multiset{}
  }

  ghost function FinishedBy(acts: seq<Action>, states: seq<Pool>, i: nat, q: nat): multiset<Item>
    requires i <= |acts| && i <= |states|
  {
    if i == 0 then multiset{}
    else FinishedBy(acts, states, i - 1, q) + FinishedAt(states[i - 1], acts[i - 1], q)
  }

  ghost function ClearedBy(acts: seq<Action>, states: seq<Pool>, i: nat, q: nat): multiset<Item>
    requires i <= |acts| && i <= |states|
  {
    if i == 0 then multiset{}
    else ClearedBy(acts, states, i - 1, q) + ClearedAt(states[i - 1], acts[i - 1], q)
  }

  lemma {:induction false} ClearListedIs(queues: seq<Queue>, list: seq<nat>, q: nat)
    requires Registered(list, queues) && q < |queues|
    ensures |ClearListed(queues, list)| == |queues|
    ensures ClearListed(queues, list)[q] == if q in list then ClearQueue(queues[q]) else queues[q]
    decreases |list|
  {
    if list != [] {
      var queues' := queues[list[0] := ClearQueue(queues[list[0]])];
      assert forall i :: 0 <= i < |list| - 1 ==> list[1..][i] == list[i + 1];
      ClearListedIs(queues', list[1..], q);
      assert q in list <==> q == list[0] || q in list[1..];
      assert list[0] !in list[1..];
    }
  }

  lemma OutcomeTurn(s: Pool, w: nat, q: nat)
    requires Safe(s) && w < |s.workers| && q < |s.queues|
    ensures |Turn(s, w).queues| == |s.queues|
    ensures Turn(s, w).queues[q].finished == s.queues[q].finished + ItemOf(s.workers[w], q)
    ensures Turn(s, w).queues[q].cleared == s.queues[q].cleared
  {
    var s1 := Finish(s, w);
    FinishOutcome(s, w, q);
    if Working(s) {
      assert Turn(s, w) == Dispatch(JoinOld(s1), w);
      DispatchOutcome(JoinOld(s1), w, q);
    }
  }

  lemma FinishOutcome(s: Pool, w: nat, q: nat)
    requires Safe(s) && w < |s.workers| && q < |s.queues|
    ensures var s1 := Finish(s, w);
            && s1.list == s.list && s1.crew == s.crew && |s1.queues| == |s.queues| && |s1.workers| == |s.workers|
            && s1.queues[q].finished == s.queues[q].finished + ItemOf(s.workers[w], q)
            && s1.queues[q].cleared == s.queues[q].cleared
  {
    if s.workers[w].Busy? {
      assert BusyIsCounted(s, w);
    }
  }

  lemma DispatchOutcome(s: Pool, w: nat, q: nat)
    requires w < |s.workers| && q < |s.queues| && Registered(s.list, s.queues)
    ensures var s1 := Dispatch(s, w);
            && |s1.queues| == |s.queues| && s1.queues[q].finished == s.queues[q].finished
            && s1.queues[q].cleared == s.queues[q].cleared
  {
  }

  lemma OutcomeStep(s: Pool, a: Action, q: nat)
    requires Safe(s) && Enabled(s, a) && q < |s.queues|
    ensures q < |Step(s, a).queues|
    ensures Step(s, a).queues[q].finished == s.queues[q].finished + FinishedAt(s, a, q)
    ensures Step(s, a).queues[q].cleared == s.queues[q].cleared + ClearedAt(s, a, q)
  {
    QueuesGrow(s, a);
    if a.WorkerTurn? {
      OutcomeTurn(s, a.w, q);
    } else if a.Start? || a.Resize? {
      StartedFrame(if a.Resize? then s.(crew := s.crew.(numThreads := a.count)) else s);
    } else if a.StopEnd? {
      ClearListedIs(s.queues, s.list, q);
    }
  }

  lemma NewQueueIsBlank(s: Pool, a: Action, q: nat)
    requires Safe(s) && Enabled(s, a) && |s.queues| <= q < |Step(s, a).queues|
    ensures Step(s, a).queues[q].finished == multiset{} && Step(s, a).queues[q].cleared == multiset{}
  {
    QueuesGrow(s, a);
  }

  /** Before a queue exists nothing of it is finished or cleared. */
  lemma {:induction false} NothingDoneBefore(n: nat, acts: seq<Action>, states: seq<Pool>, i: nat, q: nat)
    requires IsRun(n, acts, states) && i < |states| && q >= |states[i].queues|
    ensures FinishedBy(acts, states, i, q) == multiset{} && ClearedBy(acts, states, i, q) == multiset{}
  {
    if i > 0 {
      RunStep(n, acts, states, i - 1);
      RunsAreSafe(n, acts, states, i - 1);
      QueuesGrow(states[i - 1], acts[i - 1]);
      NothingDoneBefore(n, acts, states, i - 1, q);
      assert FinishedAt(states[i - 1], acts[i - 1], q) == multiset{};
    }
  }

  /** A queue's record of what is finished and cleared is what the workers were at and what the stops threw away. */
  lemma {:induction false} OutcomesAreTrue(n: nat, acts: seq<Action>, states: seq<Pool>, i: nat, q: nat)
    requires IsRun(n, acts, states) && i < |states| && q < |states[i].queues|
    ensures states[i].queues[q].finished == FinishedBy(acts, states, i, q)
    ensures states[i].queues[q].cleared == ClearedBy(acts, states, i, q)
  {
    if i > 0 {
      var s, a := states[i - 1], acts[i - 1];
      RunStep(n, acts, states, i - 1);
      RunsAreSafe(n, acts, states, i - 1);
      if q < |s.queues| {
        OutcomesAreTrue(n, acts, states, i - 1, q);
        OutcomeStep(s, a, q);
      } else {
        NothingDoneBefore(n, acts, states, i - 1, q);
        NewQueueIsBlank(s, a, q);
        assert FinishedAt(s, a, q) == multiset{} && ClearedAt(s, a, q) == multiset{};
      }
    }
  }

  /**
   Conservation, in terms of actions: what was given to a queue so far is what it still has, what
   workers are at, what they have finished and what stops threw away, each item as often.
   */
  lemma ItemsAreConserved(n: nat, acts: seq<Action>, states: seq<Pool>, i: nat, q: nat)
    requires IsRun(n, acts, states) && i < |states| && q < |states[i].queues|
    ensures multiset(Submitted(acts[..i], q))
            == FinishedBy(acts, states, i, q) + ClearedBy(acts, states, i, q)
               + InProcess(states[i].workers, q) + multiset(states[i].queues[q].items)
  {
    RunsAreSafe(n, acts, states, i);
    EnqueuedIsSubmitted(n, acts, states, i, q);
    OutcomesAreTrue(n, acts, states, i, q);
    var queue := states[i].queues[q];
    assert QueueInv(queue, InProcess(states[i].workers, q));
    QueueBalance(queue, InProcess(states[i].workers, q));
  }

  lemma QueueBalance(q: Queue, held: multiset<Item>)
    requires QueueInv(q, held)
    ensures multiset(q.enqueued) == q.finished + q.cleared + held + multiset(q.items)
  {
    assert q.enqueued == q.enqueued[..q.head] + q.items;
  }

  /** When drain(queue) returns, all that was given to the queue before it began is finished or was thrown away. */
  lemma DrainFinishesSubmitted(n: nat, acts: seq<Action>, states: seq<Pool>, i: nat, j: nat, d: nat, q: nat)
    requires IsRun(n, acts, states) && i < j < |acts|
    requires acts[i] == DrainCall(Only(q)) && d == |states[i].drains| && acts[j] == DrainReturn(d)
    ensures multiset(Submitted(acts[..i], q)) <= FinishedBy(acts, states, j, q) + ClearedBy(acts, states, j, q)
  {
    DrainIsComplete(n, acts, states, i, j, d, q);
    EnqueuedIsSubmitted(n, acts, states, i, q);
    OutcomesAreTrue(n, acts, states, j, q);
  }

  /** Whatever a drain waits for, no worker is at an item when it returns. */
  lemma DrainReturnsAtRest(n: nat, acts: seq<Action>, states: seq<Pool>, i: nat, w: nat)
    requires IsRun(n, acts, states) && i < |acts| && acts[i].DrainReturn? && w < |states[i].workers|
    ensures !states[i].workers[w].Busy?
  {
    RunStep(n, acts, states, i);
    RunsAreSafe(n, acts, states, i);
    CountZero(states[i].workers, IsBusy);
    assert !IsBusy(states[i].workers[w]);
  }

  /** A stop leaves every listed queue empty. */
  lemma StopEmptiesQueues(n: nat, acts: seq<Action>, states: seq<Pool>, i: nat, x: nat)
    requires IsRun(n, acts, states) && i < |acts| && acts[i] == StopEnd && x < |states[i].list|
    ensures var s' := states[i + 1]; var q := states[i].list[x];
            s'.list == states[i].list && q < |s'.queues| && s'.queues[q].items == []
  {
    RunStep(n, acts, states, i);
    ClearListedIs(states[i].queues, states[i].list, states[i].list[x]);
  }

  // ---- The list of queues ----

  function IsAdd(a: Action): bool { a.AddQueue? }

  /** One of the first i steps took queue q off the list. */
  ghost predicate RemovedBefore(acts: seq<Action>, states: seq<Pool>, i: nat, q: nat)
    requires i <= |acts| && i <= |states|
  {
    exists k :: 0 <= k < i && Removes(states[k], acts[k], q)
  }

  ghost predicate Increasing(list: seq<nat>) {
    forall i, j :: 0 <= i < j < |list| ==> list[i] < list[j]
  }

  lemma ListAfterRemoval(list: seq<nat>, p: nat)
    requires Increasing(list) && p < |list|
    ensures var list' := list[..p] + list[p + 1..];
            Increasing(list') && forall q :: q in list' <==> q in list && q != list[p]
  {
    var list' := list[..p] + list[p + 1..];
    assert forall i :: 0 <= i < |list'| ==> list'[i] == list[if i < p then i else i + 1];
    forall q | q in list && q != list[p] ensures q in list' {
      var i :| 0 <= i < |list| && list[i] == q;
      assert list'[if i < p then i else i - 1] == q;
    }
  }

  lemma ListStep(s: Pool, a: Action)
    requires Safe(s) && Enabled(s, a) && Increasing(s.list)
    ensures Increasing(Step(s, a).list)
    ensures forall q :: q in Step(s, a).list <==> (q in s.list && !Removes(s, a, q)) || (a.AddQueue? && q == |s.queues|)
  {
    if a.WorkerTurn? {
      TurnQueues(s, a.w);
    } else if a.RemoveQueue? {
      ListAfterRemoval(s.list, a.position);
    } else if a.Start? || a.Resize? {
      StartedFrame(if a.Resize? then s.(crew := s.crew.(numThreads := a.count)) else s);
    }
  }

  lemma {:induction false} ListIsOrdered(n: nat, acts: seq<Action>, states: seq<Pool>, i: nat)
    requires IsRun(n, acts, states) && i < |states|
    ensures |states[i].queues| == CountOf(acts, i, IsAdd) && Increasing(states[i].list)
  {
    if i == 0 {
      assert acts[..0] == [];
    } else {
      ListIsOrdered(n, acts, states, i - 1);
      RunStep(n, acts, states, i - 1);
      ListStep(states[i - 1], acts[i - 1]);
      QueuesGrow(states[i - 1], acts[i - 1]);
      CountNext(acts, i - 1, IsAdd);
    }
  }

  lemma {:induction false} ListHolds(n: nat, acts: seq<Action>, states: seq<Pool>, i: nat, q: nat)
    requires IsRun(n, acts, states) && i < |states|
    ensures q in states[i].list <==> q < |states[i].queues| && !RemovedBefore(acts, states, i, q)
  {
    if i > 0 {
      var s, a := states[i - 1], acts[i - 1];
      ListHolds(n, acts, states, i - 1, q);
      ListIsOrdered(n, acts, states, i - 1);
      RunStep(n, acts, states, i - 1);
      ListStep(s, a);
      QueuesGrow(s, a);
      RemovedNext(acts, states, i - 1, q);
      if q >= |s.queues| {
        NotRemovedYet(n, acts, states, i, q);
      }
    }
  }

  /**
   The list holds exactly the queues that were added and not removed since, in the order in which
   they were added.
   */
  lemma ListIs(n: nat, acts: seq<Action>, states: seq<Pool>, i: nat, q: nat)
    requires IsRun(n, acts, states) && i < |states|
    ensures Increasing(states[i].list)
    ensures q in states[i].list <==> q < CountOf(acts, i, IsAdd) && !RemovedBefore(acts, states, i, q)
  {
    ListIsOrdered(n, acts, states, i);
    ListHolds(n, acts, states, i, q);
  }

  lemma RemovedNext(acts: seq<Action>, states: seq<Pool>, i: nat, q: nat)
    requires i < |acts| && i < |states|
    ensures RemovedBefore(acts, states, i + 1, q) <==>
            RemovedBefore(acts, states, i, q) || Removes(states[i], acts[i], q)
  {
  }

  /** A queue that did not exist before the last step has not been removed. */
  lemma NotRemovedYet(n: nat, acts: seq<Action>, states: seq<Pool>, i: nat, q: nat)
    requires IsRun(n, acts, states) && 1 <= i < |states| && q >= |states[i - 1].queues|
    ensures !RemovedBefore(acts, states, i, q)
  {
    forall k | 0 <= k < i ensures !Removes(states[k], acts[k], q) {
      RunStep(n, acts, states, k);
      QueuesOnlyGrow(n, acts, states, k, i - 1);
    }
  }

  lemma {:induction false} QueuesOnlyGrow(n: nat, acts: seq<Action>, states: seq<Pool>, i: nat, j: nat)
    requires IsRun(n, acts, states) && i <= j < |states|
    ensures |states[i].queues| <= |states[j].queues|
    decreases j
  {
    if i < j {
      QueuesOnlyGrow(n, acts, states, i, j - 1);
      RunStep(n, acts, states, j - 1);
      QueuesGrow(states[j - 1], acts[j - 1]);
    }
  }

  // ---- The crew ----

  /** The number of threads last asked for. */
  function Wanted(n: nat, acts: seq<Action>): nat {
    if acts == [] then n
    else if acts[|acts| - 1].Resize? then acts[|acts| - 1].count
    else Wanted(n, acts[..|acts| - 1])
  }

  /** A stop has been called and has not ended. */
  predicate Stopping(acts: seq<Action>) {
    acts != [] && (acts[|acts| - 1].StopCall? || (!acts[|acts| - 1].StopEnd? && Stopping(acts[..|acts| - 1])))
  }

  lemma {:induction false} StartThreadsCrew(s: Pool, missing: nat)
    requires forall w :: w in s.crew.threads ==> w < |s.workers|
    ensures var s' := StartThreads(s, missing);
            && s'.crew.numThreads == s.crew.numThreads && s'.crew.stop == s.crew.stop
            && |s'.crew.threads| == |s.crew.threads| + missing && s.crew.threads <= s'.crew.threads
    decreases missing
  {
    if missing > 0 {
      StartThreadsCrew(OneMore(s), missing - 1);
    }
  }

  lemma StartedCrew(s: Pool)
    requires forall w :: w in s.crew.threads ==> w < |s.workers|
    ensures var c, c' := s.crew, Started(s).crew;
            && c'.numThreads == c.numThreads && c'.stop == c.stop && c.threads <= c'.threads
            && |c'.threads| == if |c.threads| < c.numThreads then c.numThreads else |c.threads|
  {
    StartThreadsCrew(s.(crew := s.crew.(started := false)), Missing(s));
  }

  lemma ThreadsExist(s: Pool)
    requires Inv(s) && s.crew.stopper.Running?
    ensures forall w :: w in s.crew.threads ==> w < |s.workers|
  {
    forall w | w in s.crew.threads ensures w < |s.workers| {
      assert Places(s.crew, w) >= 1;
    }
  }

  lemma CrewStep(s: Pool, a: Action)
    requires Inv(s) && Safe(s) && Enabled(s, a)
    ensures Step(s, a).crew.numThreads == if a.Resize? then a.count else s.crew.numThreads
    ensures Step(s, a).crew.stop == (a.StopCall? || (!a.StopEnd? && s.crew.stop))
  {
    if a.Start? || a.Resize? {
      ThreadsExist(s);
      StartedCrew(if a.Resize? then s.(crew := s.crew.(numThreads := a.count)) else s);
    } else if a.WorkerTurn? {
      TurnCrew(s, a.w);
    }
  }

  lemma TurnCrew(s: Pool, w: nat)
    requires Safe(s) && w < |s.workers|
    ensures Turn(s, w).crew.numThreads == s.crew.numThreads && Turn(s, w).crew.stop == s.crew.stop
  {
  }

  /** The wanted number of threads is the one last asked for, and the stop flag is set from a stop's call to its end. */
  lemma {:induction false} CrewIs(n: nat, acts: seq<Action>, states: seq<Pool>, i: nat)
    requires IsRun(n, acts, states) && i < |states|
    ensures states[i].crew.numThreads == Wanted(n, acts[..i])
    ensures states[i].crew.stop <==> Stopping(acts[..i])
  {
    if i > 0 {
      CrewIs(n, acts, states, i - 1);
      RunStep(n, acts, states, i - 1);
      RunsAreSafe(n, acts, states, i - 1);
      CrewStep(states[i - 1], acts[i - 1]);
      CrewNext(n, acts, i - 1);
    }
  }

  lemma CrewNext(n: nat, acts: seq<Action>, i: nat)
    requires i < |acts|
    ensures Wanted(n, acts[..i + 1]) == if acts[i].Resize? then acts[i].count else Wanted(n, acts[..i])
    ensures Stopping(acts[..i + 1]) == (acts[i].StopCall? || (!acts[i].StopEnd? && Stopping(acts[..i])))
  {
    assert acts[..i + 1][..i] == acts[..i];
  }

  /** A pool that was made for some threads always wants some. */
  lemma {:induction false} WantsSome(n: nat, acts: seq<Action>, states: seq<Pool>, i: nat)
    requires IsRun(n, acts, states) && i < |states| && n > 0
    ensures states[i].crew.numThreads > 0
  {
    if i > 0 {
      WantsSome(n, acts, states, i - 1);
      CrewIs(n, acts, states, i - 1);
      CrewIs(n, acts, states, i);
      CrewNext(n, acts, i - 1);
      assert Enabled(states[i - 1], acts[i - 1]);
    }
  }

  /** Starting and resizing create the missing threads, no more, and end none. */
  lemma StartCreatesMissing(n: nat, acts: seq<Action>, states: seq<Pool>, i: nat)
    requires IsRun(n, acts, states) && i < |acts| && (acts[i].Start? || acts[i].Resize?)
    ensures var c, c', wanted := states[i].crew, states[i + 1].crew, Wanted(n, acts[..i + 1]);
            c.threads <= c'.threads && |c'.threads| == if |c.threads| < wanted then wanted else |c.threads|
  {
    CrewIs(n, acts, states, i + 1);
    RunStep(n, acts, states, i);
    RunsAreSafe(n, acts, states, i);
    var s, a := states[i], acts[i];
    CrewStep(s, a);
    ThreadsExist(s);
    StartedCrew(if a.Resize? then s.(crew := s.crew.(numThreads := a.count)) else s);
  }
}
