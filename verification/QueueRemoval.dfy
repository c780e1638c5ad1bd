/**
 Destroying a work queue of a thread pool. The destructor takes the queue off the pool's list
 and then asserts, without the lock, that none of its items is in process.
 */
module QueueRemoval {
  import opened Counting
  import opened ThreadPool

  // ---- What is in process, queue by queue ----

  ghost function Sum(queues: seq<Queue>): nat {
    if queues == [] then 0 else Sum(queues[..|queues| - 1]) + queues[|queues| - 1].processing
  }

  /** The items in process of the first k queues. */
  ghost function Total(workers: seq<Worker>, k: nat): nat {
    if k == 0 then 0 else Total(workers, k - 1) + |InProcess(workers, k - 1)|
  }

  lemma {:induction false} TotalOfOneMore(workers: seq<Worker>, w: Worker, k: nat)
    ensures Total(workers + [w], k) == Total(workers, k) + if w.Busy? && w.queue < k then 1 else 0
  {
    if k > 0 {
      TotalOfOneMore(workers, w, k - 1);
      HeldOfOneMore(workers, w, k - 1);
    }
  }

  lemma HeldOfOneMore(workers: seq<Worker>, w: Worker, q: nat)
    ensures |InProcess(workers + [w], q)| == |InProcess(workers, q)| + if w.Busy? && w.queue == q then 1 else 0
  {
    InProcessAppend(workers, w, q);
    var held, more := InProcess(workers, q), ItemOf(w, q);
    assert |held + more| == |held| + |more|;
  }

  lemma {:induction false} TotalIsBusyCount(workers: seq<Worker>, k: nat)
    requires forall w :: 0 <= w < |workers| && workers[w].Busy? ==> workers[w].queue < k
    ensures Total(workers, k) == Count(workers, IsBusy)
  {
    if workers == [] {
      NothingTotal(k);
    } else {
      var n := |workers| - 1;
      TotalIsBusyCount(workers[..n], k);
      TotalOfOneMore(workers[..n], workers[n], k);
      assert workers[..n] + [workers[n]] == workers;
    }
  }

  lemma {:induction false} NothingTotal(k: nat)
    ensures Total([], k) == 0
  {
    if k > 0 {
      NothingTotal(k - 1);
    }
  }

  lemma SumUnfolds(queues: seq<Queue>, k: nat)
    requires k < |queues|
    ensures Sum(queues[..k + 1]) == Sum(queues[..k]) + queues[k].processing
  {
    assert queues[..k + 1][..k] == queues[..k];
  }

  lemma {:induction false} SumIsTotal(queues: seq<Queue>, workers: seq<Worker>, k: nat)
    requires k <= |queues|
    requires forall q :: 0 <= q < |queues| ==> queues[q].processing == |InProcess(workers, q)|
    ensures Sum(queues[..k]) == Total(workers, k)
  {
    if k > 0 {
      SumIsTotal(queues, workers, k - 1);
      SumUnfolds(queues, k - 1);
    }
  }

  /** The pool's count of items in process is the sum of its queues' counts, in every state of every run. */
  lemma ProcessingIsTheSum(n: nat, acts: seq<Action>, states: seq<Pool>, i: nat)
    requires IsRun(n, acts, states) && i < |states|
    ensures states[i].processing == Sum(states[i].queues)
  {
    RunsAreSafe(n, acts, states, i);
    var s := states[i];
    forall q | 0 <= q < |s.queues| ensures s.queues[q].processing == |InProcess(s.workers, q)| {
      assert QueueInv(s.queues[q], InProcess(s.workers, q));
    }
    SumIsTotal(s.queues, s.workers, |s.queues|);
    assert s.queues[..|s.queues|] == s.queues;
    TotalIsBusyCount(s.workers, |s.queues|);
  }

  // ---- The destructor's assertion ----

  /** The assertion at the end of ~PointerWQ. */
  predicate NothingInProcess(s: Pool, q: nat) {
    q < |s.queues| && s.queues[q].processing == 0
  }

  predicate BusyOn(s: Pool, q: nat) {
    exists w :: 0 <= w < |s.workers| && s.workers[w].Busy? && s.workers[w].queue == q
  }

  /** The assertion holds in a state of a run exactly when no worker is at an item of the queue. */
  lemma HoldsWhenNoneBusy(n: nat, acts: seq<Action>, states: seq<Pool>, i: nat, q: nat)
    requires IsRun(n, acts, states) && i < |states| && q < |states[i].queues|
    ensures NothingInProcess(states[i], q) <==> !BusyOn(states[i], q)
  {
    RunsAreSafe(n, acts, states, i);
    var s := states[i];
    assert QueueInv(s.queues[q], InProcess(s.workers, q));
    if BusyOn(s, q) {
      var w :| 0 <= w < |s.workers| && s.workers[w].Busy? && s.workers[w].queue == q;
      InProcessHas(s.workers, w);
    } else {
      NoneHeld(s.workers, q);
    }
  }

  lemma {:induction false} ClearKeepsCounts(queues: seq<Queue>, list: seq<nat>)
    requires forall i :: 0 <= i < |list| ==> list[i] < |queues|
    ensures |ClearListed(queues, list)| == |queues|
    ensures forall q :: 0 <= q < |queues| ==> ClearListed(queues, list)[q].processing == queues[q].processing
    ensures forall q :: 0 <= q < |queues| && queues[q].items == [] ==> ClearListed(queues, list)[q].items == []
    decreases |list|
  {
    if list != [] {
      ClearKeepsCounts(queues[list[0] := ClearQueue(queues[list[0]])], list[1..]);
    }
  }

  lemma OffTheListTurn(s: Pool, w: nat, q: nat)
    requires Safe(s) && w < |s.workers| && q < |s.queues| && q !in s.list
    ensures var s' := Turn(s, w);
            |s'.queues| == |s.queues| && s'.list == s.list && s'.queues[q].processing <= s.queues[q].processing
  {
    var s1 := Finish(s, w);
    assert s1.list == s.list && |s1.queues| == |s.queues| && s1.queues[q].processing <= s.queues[q].processing;
  }

  /** A queue that is off the list is given no more work to do. */
  lemma OffTheListStep(s: Pool, a: Action, q: nat)
    requires Safe(s) && Enabled(s, a) && q < |s.queues| && q !in s.list
    ensures var s' := Step(s, a);
            q < |s'.queues| && q !in s'.list && s'.queues[q].processing <= s.queues[q].processing
  {
    if a.WorkerTurn? {
      OffTheListTurn(s, a.w, q);
    } else if a.Start? || a.Resize? {
      StartedFrame(if a.Resize? then s.(crew := s.crew.(numThreads := a.count)) else s);
    } else if a.StopEnd? {
      ClearKeepsCounts(s.queues, s.list);
    }
  }

  lemma {:induction false} OffTheList(n: nat, acts: seq<Action>, states: seq<Pool>, i: nat, j: nat, q: nat)
    requires IsRun(n, acts, states) && i < j < |states| && Removes(states[i], acts[i], q)
    ensures q < |states[i].queues| && q < |states[j].queues| && q !in states[j].list
    ensures states[j].queues[q].processing <= states[i].queues[q].processing
    decreases j
  {
    RunStep(n, acts, states, j - 1);
    if j - 1 > i {
      OffTheList(n, acts, states, i, j - 1, q);
      OffTheListStep(states[j - 1], acts[j - 1], q);
    }
  }

  /** The step takes queue q off the list. */
  predicate Removes(s: Pool, a: Action, q: nat) {
    a.RemoveQueue? && a.position < |s.list| && s.list[a.position] == q
  }

  /**
   When the destructor may be run: its assertion holds, at whatever time after the removal it is
   evaluated, if and only if no worker is at an item of the queue when it is removed.
   */
  lemma RemovalIsSafe(n: nat, acts: seq<Action>, states: seq<Pool>, i: nat, q: nat)
    requires IsRun(n, acts, states) && i < |acts| && Removes(states[i], acts[i], q)
    ensures (forall j :: i < j < |states| ==> NothingInProcess(states[j], q)) <==> !BusyOn(states[i], q)
  {
    RunStep(n, acts, states, i);
    HoldsWhenNoneBusy(n, acts, states, i, q);
    if BusyOn(states[i], q) {
      assert !NothingInProcess(states[i + 1], q);
    } else {
      forall j | i < j < |states| ensures NothingInProcess(states[j], q) {
        OffTheList(n, acts, states, i, j, q);
      }
    }
  }

  /** Nothing queued and nothing in process. */
  predicate Quiet(s: Pool, q: nat) {
    q < |s.queues| && s.queues[q].items == [] && s.queues[q].processing == 0
  }

  predicate Enqueues(a: Action, q: nat) {
    a.Enqueue? && a.q == q
  }

  lemma QuietTurn(s: Pool, w: nat, q: nat)
    requires Safe(s) && w < |s.workers| && Quiet(s, q)
    ensures Quiet(Turn(s, w), q)
  {
    var s1 := Finish(s, w);
    assert s.workers[w].Busy? ==> BusyIsCounted(s, w) && s.workers[w].queue != q;
    assert s1.list == s.list && Quiet(s1, q);
  }

  lemma QuietStep(s: Pool, a: Action, q: nat)
    requires Safe(s) && Enabled(s, a) && Quiet(s, q) && !Enqueues(a, q)
    ensures Quiet(Step(s, a), q)
  {
    if a.WorkerTurn? {
      QuietTurn(s, a.w, q);
    } else if a.Start? || a.Resize? {
      StartedFrame(if a.Resize? then s.(crew := s.crew.(numThreads := a.count)) else s);
    } else if a.StopEnd? {
      ClearKeepsCounts(s.queues, s.list);
    }
  }

  lemma {:induction false} StaysQuiet(n: nat, acts: seq<Action>, states: seq<Pool>, i: nat, j: nat, q: nat)
    requires IsRun(n, acts, states) && i <= j < |states| && Quiet(states[i], q)
    requires forall k :: i <= k < j ==> !Enqueues(acts[k], q)
    ensures Quiet(states[j], q)
    decreases j
  {
    if i < j {
      StaysQuiet(n, acts, states, i, j - 1, q);
      RunStep(n, acts, states, j - 1);
      QuietStep(states[j - 1], acts[j - 1], q);
    }
  }

  /** A queue that was quiet, as after a drain that returned at once, and was given nothing since. */
  lemma QuietThenRemove(n: nat, acts: seq<Action>, states: seq<Pool>, i: nat, j: nat, k: nat, q: nat)
    requires IsRun(n, acts, states) && i <= j < |acts| && j < k < |states| && Quiet(states[i], q)
    requires forall m :: i <= m < j ==> !Enqueues(acts[m], q)
    requires Removes(states[j], acts[j], q)
    ensures NothingInProcess(states[k], q)
  {
    StaysQuiet(n, acts, states, i, j, q);
    HoldsWhenNoneBusy(n, acts, states, j, q);
    RemovalIsSafe(n, acts, states, j, q);
  }

  /**
   What a caller can do about it: a queue that is removed after its own drain has returned, with
   nothing queued in between, is destroyed without the assertion firing.
   */
  lemma DrainThenRemove(n: nat, acts: seq<Action>, states: seq<Pool>, i: nat, j: nat, k: nat, d: nat, q: nat)
    requires IsRun(n, acts, states) && i < j < |acts| && j < k < |states|
    requires acts[i] == DrainReturn(d) && d < |states[i].drains| && states[i].drains[d].target == Only(q)
    requires forall m :: i < m < j ==> !Enqueues(acts[m], q)
    requires Removes(states[j], acts[j], q)
    ensures NothingInProcess(states[k], q)
  {
    RunStep(n, acts, states, i);
    RunsAreSafe(n, acts, states, i);
    var s := states[i];
    NoneInProcess(s.workers, q);
    assert QueueInv(s.queues[q], InProcess(s.workers, q));
    QuietThenRemove(n, acts, states, i, j, k, q);
  }

  // ---- A run in which it fires ----

  function EarlyRemoval(): seq<Action> {
    [AddQueue, Enqueue(0, 5), Start, WorkerTurn(0), RemoveQueue(0)]
  }

  /** A pool for one thread, with one queue that was given one item. */
  function Example(list: seq<nat>, queue: Queue, workers: seq<Worker>, threads: set<nat>, processing: nat): Pool {
    Pool(0, 0, list, 0, processing, [queue], workers, Crew(false, 1, threads, [], [], Running, threads != {}), [], [])
  }

  lemma ExampleStart()
    ensures var q := Queue([5], 0, [5], 0, multiset{}, multiset{});
            Started(Example([0], q, [], {}, 0)) == Example([0], q, [Idle], {0}, 0)
  {
    var s := Example([0], Queue([5], 0, [5], 0, multiset{}, multiset{}), [], {}, 0);
    var s1 := s.(workers := s.workers + [Idle], crew := s.crew.(threads := s.crew.threads + {|s.workers|}));
    assert s.(crew := s.crew.(started := false)) == s;
    assert Missing(s) == 1;
    assert StartThreads(s, 1) == StartThreads(s1, 0) == s1;
    assert s1.workers == [Idle] && s1.crew.threads == {0};
  }

  lemma ExampleTurn()
    ensures var q, q' := Queue([5], 0, [5], 0, multiset{}, multiset{}), Queue([], 1, [5], 1, multiset{}, multiset{});
            Turn(Example([0], q, [Idle], {0}, 0), 0) == Example([0], q', [Busy(0, 5)], {0}, 1)
  {
    var s := Example([0], Queue([5], 0, [5], 0, multiset{}, multiset{}), [Idle], {0}, 0);
    assert |s.crew.threads| == 1;
    assert JoinOld(Finish(s, 0)) == s;
    assert Scan([0], s.queues, 0, 1) == (0, true);
    assert Turn(s, 0) == Dispatch(s, 0);
    assert [5][1..] == [];
  }

  function EarlyState(i: nat): Pool {
    var before, queued := Queue([], 0, [], 0, multiset{}, multiset{}), Queue([5], 0, [5], 0, multiset{}, multiset{});
    var taken := Queue([], 1, [5], 1, multiset{}, multiset{});
    if i == 0 then Initial(1)
    else if i == 1 then Example([0], before, [], {}, 0)
    else if i == 2 then Example([0], queued, [], {}, 0)
    else if i == 3 then Example([0], queued, [Idle], {0}, 0)
    else if i == 4 then Example([0], taken, [Busy(0, 5)], {0}, 1)
    else Example([], taken, [Busy(0, 5)], {0}, 1)
  }

  lemma EarlyStep(i: nat)
    requires i < 5
    ensures Enabled(EarlyState(i), EarlyRemoval()[i]) && Safe(EarlyState(i))
    ensures Step(EarlyState(i), EarlyRemoval()[i]) == EarlyState(i + 1)
  {
    var s, s' := EarlyState(i), EarlyState(i + 1);
    match i {
      case 0 =>
        assert s.queues + [Queue([], 0, [], 0, multiset{}, multiset{})] == s'.queues;
        assert s.list + [|s.queues|] == s'.list;
      case 1 =>
        assert [] + [5] == [5];
        assert s.queues[0 := Push(s.queues[0], 5)] == s'.queues;
      case 2 =>
        ExampleStart();
      case 3 =>
        ExampleTurn();
      case 4 =>
        assert s.list[..0] + s.list[1..] == s'.list;
    }
  }

  /** A queue destroyed while a worker is at its item: the assertion fails in the next state. */
  lemma EarlyRemovalFails()
    ensures exists states: seq<Pool> :: IsRun(1, EarlyRemoval(), states) && Removes(states[4], EarlyRemoval()[4], 0)
              && !NothingInProcess(states[5], 0)
  {
    var states := seq(6, i requires 0 <= i < 6 => EarlyState(i));
    forall i | 0 <= i < 5
      ensures Enabled(states[i], EarlyRemoval()[i]) && Safe(states[i])
      ensures states[i + 1] == Step(states[i], EarlyRemoval()[i])
    {
      EarlyStep(i);
    }
    assert IsRun(1, EarlyRemoval(), states);
  }

  // ---- The removal itself ----

  /** Where a queue is listed first. */
  ghost function Position(list: seq<nat>, q: nat): (p: nat)
    requires q in list
    ensures p < |list| && list[p] == q && q !in list[..p]
  {
    if list[0] == q then 0
    else
      assert forall p: nat :: p < |list| - 1 ==> list[..p + 1] == [list[0]] + list[1..][..p];
      1 + Position(list[1..], q)
  }

  /** remove_work_queue: finds the queue, closes the gap behind it, and ends where its own assertion says. */
  method RemoveListed(list: seq<nat>, q: nat) returns (list': seq<nat>)
    requires q in list
    ensures list' == list[..Position(list, q)] + list[Position(list, q) + 1..]
  {
    ghost var position := Position(list, q);
    var i := 0;
    while list[i] != q
      invariant i <= position
      decreases position - i
    {
      i := i + 1;
    }
    assert i == position;
    list' := list;
    i := i + 1;
    while i < |list|
      invariant position < i <= |list| == |list'|
      invariant list'[..i - 1] == list[..position] + list[position + 1..i]
    {
      ghost var done := list'[..i - 1];
      list' := list'[i - 1 := list[i]];
      i := i + 1;
      assert list'[..i - 1] == done + [list[i - 1]];
      assert list[position + 1..i] == list[position + 1..i - 1] + [list[i - 1]];
    }
    assert i == |list|;
    list' := list'[..i - 1];
  }
}
