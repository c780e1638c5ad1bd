/**
 The by-value work queue with its own lock beside the pool's. A worker passes its item
 through two lists: it is handed no item by the dispatch, but pops one from to_process,
 and at the end finishes whatever is at the front of to_finish.

 One step is one region under either lock. The dispatch and the finish run under the pool
 lock; popping from to_process and pushing to to_finish run under the queue's lock only,
 so they interleave freely with everything.
 */
module WorkQueueVal {
  import opened Counting

  type Item = nat

  /** Where a worker of this queue is between dispatch and finish. */
  datatype Phase = Idle | Dispatched | Processing(item: Item) | Processed

  /** queued, processed and finished record every item submitted, started and finished so far. */
  datatype State = State(queue: seq<Item>, toProcess: seq<Item>, toFinish: seq<Item>, workers: seq<Phase>,
                         queued: multiset<Item>, processed: multiset<Item>, finished: multiset<Item>)

  datatype Action =
    | Submit(item: Item) | SubmitFront(item: Item)
    | Dispatch(w: nat) | Take(w: nat) | Put(w: nat) | Finish(w: nat)

  function Initial(workers: nat): State {
    State([], [], [], seq(workers, _ => Idle), multiset{}, multiset{}, multiset{})
  }

  predicate Enabled(s: State, a: Action) {
    match a
    case Submit(_) => true
    case SubmitFront(_) => true
    case Dispatch(w) => w < |s.workers| && s.workers[w].Idle? && s.queue != []
    case Take(w) => w < |s.workers| && s.workers[w].Dispatched?
    case Put(w) => w < |s.workers| && s.workers[w].Processing?
    case Finish(w) => w < |s.workers| && s.workers[w].Processed?
  }

  /** The assertions the code makes before popping from its two lists. */
  predicate AssertsHold(s: State, a: Action) {
    (a.Take? ==> s.toProcess != []) && (a.Finish? ==> s.toFinish != [])
  }

  function Step(s: State, a: Action): State
    requires Enabled(s, a) && AssertsHold(s, a)
  {
    match a
    case Submit(item) => s.(queue := s.queue + [item], queued := s.queued + multiset{item})
    case SubmitFront(item) => s.(queue := [item] + s.queue, queued := s.queued + multiset{item})
    case Dispatch(w) =>
      s.(queue := s.queue[1..], toProcess := s.toProcess + [s.queue[0]], workers := s.workers[w := Dispatched])
    case Take(w) =>
      s.(toProcess := s.toProcess[1..], workers := s.workers[w := Processing(s.toProcess[0])],
         processed := s.processed + multiset{s.toProcess[0]})
    case Put(w) =>
      s.(toFinish := s.toFinish + [s.workers[w].item], workers := s.workers[w := Processed])
    case Finish(w) =>
      s.(toFinish := s.toFinish[1..], workers := s.workers[w := Idle],
         finished := s.finished + multiset{s.toFinish[0]})
  }

  function IsDispatched(p: Phase): bool { p.Dispatched? }
  function IsProcessed(p: Phase): bool { p.Processed? }

  /** The items being processed right now. */
  ghost function InHand(ws: seq<Phase>): multiset<Item> {
    Gather(ws, HandOf)
  }

  function HandOf(p: Phase): multiset<Item> {
    if p.Processing? then multiset{p.item} else multiset{}
  }

  lemma InHandGains(ws: seq<Phase>, i: nat, x: Phase)
    requires i < |ws| && !ws[i].Processing?
    ensures InHand(ws[i := x]) == InHand(ws) + HandOf(x)
  {
    GatherUpdate(ws, i, x, HandOf);
    assert InHand(ws[i := x]) + multiset{} == InHand(ws[i := x]);
  }

  lemma InHandLoses(ws: seq<Phase>, i: nat, x: Phase)
    requires i < |ws| && ws[i].Processing? && !x.Processing?
    ensures InHand(ws) == InHand(ws[i := x]) + multiset{ws[i].item}
  {
    InHandGains(ws[i := x], i, ws[i]);
    assert ws[i := x][i := ws[i]] == ws;
  }

  /**
   Each list is as long as there are workers about to pop from it, and every item
   submitted is in exactly one place, as often as it was submitted.
   */
  ghost predicate Inv(s: State) {
    && |s.toProcess| == Count(s.workers, IsDispatched)
    && |s.toFinish| == Count(s.workers, IsProcessed)
    && s.processed == InHand(s.workers) + multiset(s.toFinish) + s.finished
    && s.queued == multiset(s.queue) + multiset(s.toProcess) + s.processed
  }

  lemma {:induction false} InitialInv(n: nat)
    ensures Inv(Initial(n))
  {
    if n > 0 {
      InitialInv(n - 1);
      assert Initial(n).workers == Initial(n - 1).workers + [Idle];
      CountAppend(Initial(n - 1).workers, Idle, IsDispatched);
      CountAppend(Initial(n - 1).workers, Idle, IsProcessed);
      assert Initial(n).workers[..n - 1] == Initial(n - 1).workers;
    }
  }

  /** Neither assertion of the queue can fire. */
  lemma InvMeansAssertsHold(s: State, a: Action)
    requires Inv(s) && Enabled(s, a)
    ensures AssertsHold(s, a)
  {
    match a {
      case Take(w) => CountPositive(s.workers, w, IsDispatched);
      case Finish(w) => CountPositive(s.workers, w, IsProcessed);
      case _ =>
    }
  }

  lemma HeadSplit(s: seq<Item>)
    requires s != []
    ensures multiset(s) == multiset{s[0]} + multiset(s[1..])
  {
    assert s == [s[0]] + s[1..];
  }

  lemma CountsKeep(s: State, w: nat, x: Phase)
    requires w < |s.workers|
    ensures Count(s.workers[w := x], IsDispatched) + (if s.workers[w].Dispatched? then 1 else 0)
            == Count(s.workers, IsDispatched) + (if x.Dispatched? then 1 else 0)
    ensures Count(s.workers[w := x], IsProcessed) + (if s.workers[w].Processed? then 1 else 0)
            == Count(s.workers, IsProcessed) + (if x.Processed? then 1 else 0)
  {
    CountUpdate(s.workers, w, x, IsDispatched);
    CountUpdate(s.workers, w, x, IsProcessed);
  }

  lemma DispatchKeeps(s: State, w: nat)
    requires Inv(s) && Enabled(s, Dispatch(w))
    ensures Inv(Step(s, Dispatch(w)))
  {
    CountsKeep(s, w, Dispatched);
    InHandGains(s.workers, w, Dispatched);
    assert InHand(s.workers) + multiset{} == InHand(s.workers);
    HeadSplit(s.queue);
    Shift(multiset(s.queue[1..]), s.queue[0], multiset(s.toProcess), s.processed);
    assert multiset(s.toProcess + [s.queue[0]]) == multiset(s.toProcess) + multiset{s.queue[0]};
  }

  lemma TakeKeeps(s: State, w: nat)
    requires Inv(s) && Enabled(s, Take(w))
    ensures s.toProcess != [] && Inv(Step(s, Take(w)))
  {
    InvMeansAssertsHold(s, Take(w));
    var x := s.toProcess[0];
    CountsKeep(s, w, Processing(x));
    InHandGains(s.workers, w, Processing(x));
    HeadSplit(s.toProcess);
    ShiftPast(multiset(s.queue), multiset(s.toProcess[1..]), x, s.processed);
    Widen(InHand(s.workers), x, multiset(s.toFinish), s.finished);
  }

  lemma PutKeeps(s: State, w: nat)
    requires Inv(s) && Enabled(s, Put(w))
    ensures Inv(Step(s, Put(w)))
  {
    var x := s.workers[w].item;
    CountsKeep(s, w, Processed);
    InHandLoses(s.workers, w, Processed);
    assert multiset(s.toFinish + [x]) == multiset(s.toFinish) + multiset{x};
    var hand := InHand(s.workers[w := Processed]);
    assert hand + multiset{x} == multiset{x} + hand;
    Shift(hand, x, multiset(s.toFinish), s.finished);
  }

  lemma FinishKeeps(s: State, w: nat)
    requires Inv(s) && Enabled(s, Finish(w))
    ensures s.toFinish != [] && Inv(Step(s, Finish(w)))
  {
    InvMeansAssertsHold(s, Finish(w));
    CountsKeep(s, w, Idle);
    InHandGains(s.workers, w, Idle);
    assert InHand(s.workers) + multiset{} == InHand(s.workers);
    HeadSplit(s.toFinish);
    ShiftPast(InHand(s.workers), multiset(s.toFinish[1..]), s.toFinish[0], s.finished);
  }

  lemma Shift(a: multiset<Item>, x: Item, b: multiset<Item>, c: multiset<Item>)
    ensures (multiset{x} + a) + b + c == a + (b + multiset{x}) + c
  {
  }

  lemma ShiftPast(a: multiset<Item>, b: multiset<Item>, x: Item, c: multiset<Item>)
    ensures a + (multiset{x} + b) + c == a + b + (c + multiset{x})
  {
  }

  lemma Widen(a: multiset<Item>, x: Item, b: multiset<Item>, c: multiset<Item>)
    ensures (a + b + c) + multiset{x} == (a + multiset{x}) + b + c
  {
  }

  lemma StepKeeps(s: State, a: Action)
    requires Inv(s) && Enabled(s, a)
    ensures AssertsHold(s, a) && Inv(Step(s, a))
  {
    match a {
      case Submit(item) => SubmitKeeps(s, item);
      case SubmitFront(item) => SubmitKeeps(s, item);
      case Dispatch(w) => DispatchKeeps(s, w);
      case Take(w) => TakeKeeps(s, w);
      case Put(w) => PutKeeps(s, w);
      case Finish(w) => FinishKeeps(s, w);
    }
  }

  lemma SubmitKeeps(s: State, item: Item)
    requires Inv(s)
    ensures Inv(Step(s, Submit(item))) && Inv(Step(s, SubmitFront(item)))
  {
    var q := multiset(s.queue);
    assert multiset(s.queue + [item]) == q + multiset{item};
    assert multiset([item] + s.queue) == q + multiset{item};
    Widen(q, item, multiset(s.toProcess), s.processed);
  }

  // ---- Whole runs ----

  /** After a failed assertion anything may follow. */
  ghost predicate IsRun(n: nat, acts: seq<Action>, states: seq<State>) {
    && |states| == |acts| + 1
    && states[0] == Initial(n)
    && forall i :: 0 <= i < |acts| ==>
         Enabled(states[i], acts[i]) && (AssertsHold(states[i], acts[i]) ==> states[i + 1] == Step(states[i], acts[i]))
  }

  lemma {:induction false} RunsKeepInv(n: nat, acts: seq<Action>, states: seq<State>, i: nat)
    requires IsRun(n, acts, states) && i < |states|
    ensures Inv(states[i])
    ensures i < |acts| ==> AssertsHold(states[i], acts[i])
  {
    if i == 0 {
      InitialInv(n);
    } else {
      RunsKeepInv(n, acts, states, i - 1);
      assert Enabled(states[i - 1], acts[i - 1]);
      StepKeeps(states[i - 1], acts[i - 1]);
    }
    if i < |acts| {
      assert Enabled(states[i], acts[i]);
      InvMeansAssertsHold(states[i], acts[i]);
    }
  }

  /**
   Exactly once: no item is finished more often than processed, or processed more often
   than submitted; and when no worker is active and the queue is empty, all three agree.
   */
  lemma ExactlyOnce(n: nat, acts: seq<Action>, states: seq<State>, i: nat)
    requires IsRun(n, acts, states) && i < |states|
    ensures states[i].finished <= states[i].processed <= states[i].queued
    ensures (forall w :: 0 <= w < |states[i].workers| ==> states[i].workers[w].Idle?) && states[i].queue == [] ==>
              states[i].finished == states[i].processed == states[i].queued
  {
    RunsKeepInv(n, acts, states, i);
    var s := states[i];
    if (forall w :: 0 <= w < |s.workers| ==> s.workers[w].Idle?) && s.queue == [] {
      AllIdle(s.workers);
    }
  }

  lemma {:induction false} AllIdle(ws: seq<Phase>)
    requires forall w :: 0 <= w < |ws| ==> ws[w].Idle?
    ensures Count(ws, IsDispatched) == 0 && Count(ws, IsProcessed) == 0 && InHand(ws) == multiset{}
  {
    if ws != [] {
      AllIdle(ws[..|ws| - 1]);
    }
  }

  /** Any enabled step extends a run. */
  lemma Extend(n: nat, acts: seq<Action>, states: seq<State>, a: Action)
    returns (acts': seq<Action>, states': seq<State>)
    requires IsRun(n, acts, states) && Enabled(states[|acts|], a)
    ensures acts' == acts + [a] && IsRun(n, acts', states')
    ensures AssertsHold(states[|acts|], a) && states' == states + [Step(states[|acts|], a)]
  {
    RunsKeepInv(n, acts, states, |acts|);
    InvMeansAssertsHold(states[|acts|], a);
    acts', states' := acts + [a], states + [Step(states[|acts|], a)];
    forall i | 0 <= i < |acts'|
      ensures Enabled(states'[i], acts'[i])
      ensures AssertsHold(states'[i], acts'[i]) ==> states'[i + 1] == Step(states'[i], acts'[i])
    {
      if i < |acts| {
        assert Enabled(states[i], acts[i]);
        assert states'[i] == states[i] && states'[i + 1] == states[i + 1] && acts'[i] == acts[i];
      } else {
        assert states'[i] == states[|acts|] && acts'[i] == a;
      }
    }
  }

  /** Two items dispatched to two workers. */
  lemma TwoDispatched() returns (acts: seq<Action>, states: seq<State>)
    ensures IsRun(2, acts, states) && |acts| == 4
    ensures states[4].workers == [Dispatched, Dispatched] && states[4].toProcess == [7, 8]
    ensures states[4].toFinish == [] && states[4].finished == multiset{}
  {
    acts, states := [], [Initial(2)];
    acts, states := Extend(2, acts, states, Submit(7));
    acts, states := Extend(2, acts, states, Submit(8));
    acts, states := Extend(2, acts, states, Dispatch(0));
    acts, states := Extend(2, acts, states, Dispatch(1));
    assert states[4].toProcess == [7, 8];
  }

  /** The second of them already processed. */
  lemma TwoInFlight() returns (acts: seq<Action>, states: seq<State>)
    ensures IsRun(2, acts, states) && |acts| == 7
    ensures states[7].workers == [Processing(7), Processed]
    ensures states[7].toFinish == [8] && states[7].finished == multiset{}
  {
    acts, states := TwoDispatched();
    acts, states := Extend(2, acts, states, Take(0));
    acts, states := Extend(2, acts, states, Take(1));
    acts, states := Extend(2, acts, states, Put(1));
  }

  /** An item may be finished by a worker that did not process it: worker 0 processes 7 and finishes 8. */
  lemma FinishedByAnother() returns (acts: seq<Action>, states: seq<State>)
    ensures IsRun(2, acts, states) && |acts| == 9
    ensures states[7].workers == [Processing(7), Processed] && acts[8] == Finish(0)
    ensures states[8].finished == multiset{} && states[9].finished == multiset{8}
  {
    acts, states := TwoInFlight();
    acts, states := Extend(2, acts, states, Put(0));
    acts, states := Extend(2, acts, states, Finish(0));
  }
}
