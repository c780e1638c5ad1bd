/**
 The by-value work queue in terms of what has happened: its records are the items of the actions
 so far, and items come out of the queue in the order its two ends promise.
 */
module WorkQueueHistory {
  import opened WorkQueueVal

  lemma RunStep(n: nat, acts: seq<Action>, states: seq<State>, i: nat)
    requires IsRun(n, acts, states) && i < |acts|
    ensures Enabled(states[i], acts[i]) && AssertsHold(states[i], acts[i])
    ensures states[i + 1] == Step(states[i], acts[i])
  {
    RunsKeepInv(n, acts, states, i);
  }

  // ---- The records ----

  function SubmittedItem(a: Action): multiset<Item> {
    if a.Submit? || a.SubmitFront? then multiset{a.item} else multiset{}
  }

  /** The item a worker is at after taking one. */
  function TakenAt(a: Action, s': State): multiset<Item> {
    if a.Take? && a.w < |s'.workers| then HandOf(s'.workers[a.w]) else multiset{}
  }

  /** The item at the front of to_finish when a worker finishes. */
  function FinishedAt(a: Action, s: State): multiset<Item> {
    if a.Finish? && s.toFinish != [] then multiset{s.toFinish[0]} else multiset{}
  }

  ghost function SubmittedBy(acts: seq<Action>, i: nat): multiset<Item>
    requires i <= |acts|
  {
    if i == 0 then multiset{} else SubmittedBy(acts, i - 1) + SubmittedItem(acts[i - 1])
  }

  ghost function TakenBy(acts: seq<Action>, states: seq<State>, i: nat): multiset<Item>
    requires i <= |acts| && i < |states|
  {
    if i == 0 then multiset{} else TakenBy(acts, states, i - 1) + TakenAt(acts[i - 1], states[i])
  }

  ghost function FinishedBy(acts: seq<Action>, states: seq<State>, i: nat): multiset<Item>
    requires i <= |acts| && i < |states|
  {
    if i == 0 then multiset{} else FinishedBy(acts, states, i - 1) + FinishedAt(acts[i - 1], states[i - 1])
  }

  lemma RecordStep(s: State, a: Action)
    requires Enabled(s, a) && AssertsHold(s, a)
    ensures var s' := Step(s, a);
            && s'.queued == s.queued + SubmittedItem(a)
            && s'.processed == s.processed + TakenAt(a, s')
            && s'.finished == s.finished + FinishedAt(a, s)
  {
  }

  /** What is queued, processed and finished is what was submitted, taken and finished by the actions of the run. */
  lemma {:induction false} RecordsAreTrue(n: nat, acts: seq<Action>, states: seq<State>, i: nat)
    requires IsRun(n, acts, states) && i < |states|
    ensures states[i].queued == SubmittedBy(acts, i)
    ensures states[i].processed == TakenBy(acts, states, i)
    ensures states[i].finished == FinishedBy(acts, states, i)
  {
    if i > 0 {
      RecordsAreTrue(n, acts, states, i - 1);
      RunStep(n, acts, states, i - 1);
      RecordStep(states[i - 1], acts[i - 1]);
    }
  }

  /** Exactly once, in terms of actions: at rest the items finished and the items taken are the items submitted. */
  lemma SubmittedIsFinished(n: nat, acts: seq<Action>, states: seq<State>, i: nat)
    requires IsRun(n, acts, states) && i < |states| && states[i].queue == []
    requires forall w :: 0 <= w < |states[i].workers| ==> states[i].workers[w].Idle?
    ensures FinishedBy(acts, states, i) == TakenBy(acts, states, i) == SubmittedBy(acts, i)
  {
    RecordsAreTrue(n, acts, states, i);
    ExactlyOnce(n, acts, states, i);
  }

  // ---- The order ----

  /** The item that a dispatch handed over. */
  ghost predicate HandsOver(a: Action, s': State, item: Item) {
    a.Dispatch? && s'.toProcess != [] && s'.toProcess[|s'.toProcess| - 1] == item
  }

  /** How many items were dispatched by the actions from i up to j. */
  function Dispatches(acts: seq<Action>, i: nat, j: nat): nat
    requires i <= j <= |acts|
  {
    if i == j then 0 else Dispatches(acts, i, j - 1) + if acts[j - 1].Dispatch? then 1 else 0
  }

  /** The item stands at this place of the queue. */
  predicate Stands(s: State, place: int, item: Item) {
    0 <= place < |s.queue| && s.queue[place] == item
  }

  lemma PlaceStep(s: State, a: Action, place: int, item: Item)
    requires Enabled(s, a) && AssertsHold(s, a) && !a.SubmitFront? && Stands(s, place, item)
    requires a.Dispatch? ==> place >= 1
    ensures Stands(Step(s, a), if a.Dispatch? then place - 1 else place, item)
  {
  }

  /**
   An item queued at the back is handed over after those before it: while nothing is put in front,
   it stands as many places down as it had items before it, less those dispatched since.
   */
  lemma {:induction false} KeepsItsPlace(n: nat, acts: seq<Action>, states: seq<State>, i: nat, j: nat)
    requires IsRun(n, acts, states) && i < j < |states| && acts[i].Submit?
    requires forall k :: i < k < j ==> !acts[k].SubmitFront?
    requires Dispatches(acts, i + 1, j) <= |states[i].queue|
    ensures Stands(states[j], |states[i].queue| - Dispatches(acts, i + 1, j), acts[i].item)
    decreases j
  {
    RunStep(n, acts, states, j - 1);
    if j - 1 > i {
      KeepsItsPlace(n, acts, states, i, j - 1);
      PlaceStep(states[j - 1], acts[j - 1], |states[i].queue| - Dispatches(acts, i + 1, j - 1), acts[i].item);
    }
  }

  /** First in, first out: the dispatch after as many as there were items before it hands the item over. */
  lemma FirstInFirstOut(n: nat, acts: seq<Action>, states: seq<State>, i: nat, j: nat)
    requires IsRun(n, acts, states) && i < j < |acts| && acts[i].Submit? && acts[j].Dispatch?
    requires forall k :: i < k < j ==> !acts[k].SubmitFront?
    requires Dispatches(acts, i + 1, j) == |states[i].queue|
    ensures HandsOver(acts[j], states[j + 1], acts[i].item)
  {
    KeepsItsPlace(n, acts, states, i, j);
    RunStep(n, acts, states, j);
  }

  /** An item queued in front is the next to be handed over, unless another is put in front of it. */
  lemma {:induction false} StaysInFront(n: nat, acts: seq<Action>, states: seq<State>, i: nat, j: nat)
    requires IsRun(n, acts, states) && i < j < |states| && acts[i].SubmitFront?
    requires forall k :: i < k < j ==> !acts[k].SubmitFront? && !acts[k].Dispatch?
    ensures states[j].queue != [] && states[j].queue[0] == acts[i].item
    decreases j
  {
    RunStep(n, acts, states, j - 1);
    if j - 1 > i {
      StaysInFront(n, acts, states, i, j - 1);
    }
  }

  lemma FrontIsNext(n: nat, acts: seq<Action>, states: seq<State>, i: nat, j: nat)
    requires IsRun(n, acts, states) && i < j < |acts| && acts[i].SubmitFront? && acts[j].Dispatch?
    requires forall k :: i < k < j ==> !acts[k].SubmitFront? && !acts[k].Dispatch?
    ensures HandsOver(acts[j], states[j + 1], acts[i].item)
  {
    StaysInFront(n, acts, states, i, j);
    RunStep(n, acts, states, j);
  }

  // ---- The order between dispatch and finish ----

  /** The items dispatched so far, in order. */
  function DispatchedItems(acts: seq<Action>, states: seq<State>, i: nat): seq<Item>
    requires i <= |acts| && i < |states|
  {
    if i == 0 then []
    else DispatchedItems(acts, states, i - 1)
         + if acts[i - 1].Dispatch? && states[i - 1].queue != [] then [states[i - 1].queue[0]] else []
  }

  /** The items that workers were at after taking one, in order. */
  function TakenItems(acts: seq<Action>, states: seq<State>, i: nat): seq<Item>
    requires i <= |acts| && i < |states|
  {
    if i == 0 then []
    else TakenItems(acts, states, i - 1)
         + if acts[i - 1].Take? then ItemAt(states[i], acts[i - 1].w) else []
  }

  /** The items that workers were at when they were done processing, in order. */
  function PutItems(acts: seq<Action>, states: seq<State>, i: nat): seq<Item>
    requires i <= |acts| && i < |states|
  {
    if i == 0 then []
    else PutItems(acts, states, i - 1)
         + if acts[i - 1].Put? then ItemAt(states[i - 1], acts[i - 1].w) else []
  }

  function ItemAt(s: State, w: nat): seq<Item> {
    if w < |s.workers| && s.workers[w].Processing? then [s.workers[w].item] else []
  }

  function Finishes(acts: seq<Action>, i: nat): nat
    requires i <= |acts|
  {
    if i == 0 then 0 else Finishes(acts, i - 1) + if acts[i - 1].Finish? then 1 else 0
  }

  lemma TakeStep(s: State, a: Action, taken: seq<Item>, dispatched: seq<Item>)
    requires Enabled(s, a) && AssertsHold(s, a) && taken + s.toProcess == dispatched
    ensures var s' := Step(s, a);
            taken + (if a.Take? then ItemAt(s', a.w) else []) + s'.toProcess
            == dispatched + if a.Dispatch? && s.queue != [] then [s.queue[0]] else []
  {
    if a.Take? {
      assert s.toProcess == [s.toProcess[0]] + s.toProcess[1..];
    }
  }

  /** Items are processed in the order in which they were dispatched. */
  lemma {:induction false} TakenInOrder(n: nat, acts: seq<Action>, states: seq<State>, i: nat)
    requires IsRun(n, acts, states) && i < |states|
    ensures TakenItems(acts, states, i) + states[i].toProcess == DispatchedItems(acts, states, i)
  {
    if i > 0 {
      TakenInOrder(n, acts, states, i - 1);
      RunStep(n, acts, states, i - 1);
      TakeStep(states[i - 1], acts[i - 1], TakenItems(acts, states, i - 1), DispatchedItems(acts, states, i - 1));
    }
  }

  lemma PutStep(s: State, a: Action, finished: nat, put: seq<Item>)
    requires Enabled(s, a) && AssertsHold(s, a) && finished <= |put| && s.toFinish == put[finished..]
    requires s.finished == multiset(put[..finished])
    ensures var s' := Step(s, a); var put' := put + (if a.Put? then ItemAt(s, a.w) else []);
            var finished' := finished + if a.Finish? then 1 else 0;
            finished' <= |put'| && s'.toFinish == put'[finished'..] && s'.finished == multiset(put'[..finished'])
  {
    if a.Finish? {
      assert put[..finished + 1] == put[..finished] + [put[finished]];
      assert put + [] == put;
    } else if a.Put? {
      var put' := put + ItemAt(s, a.w);
      assert put'[..finished] == put[..finished] && put'[finished..] == put[finished..] + ItemAt(s, a.w);
    } else {
      assert put + [] == put;
    }
  }

  /** And finished in the order in which they were done: the first ones, as many as were finished. */
  lemma {:induction false} FinishedInOrder(n: nat, acts: seq<Action>, states: seq<State>, i: nat)
    requires IsRun(n, acts, states) && i < |states|
    ensures var put, k := PutItems(acts, states, i), Finishes(acts, i);
            k <= |put| && states[i].toFinish == put[k..] && states[i].finished == multiset(put[..k])
  {
    if i > 0 {
      FinishedInOrder(n, acts, states, i - 1);
      RunStep(n, acts, states, i - 1);
      PutStep(states[i - 1], acts[i - 1], Finishes(acts, i - 1), PutItems(acts, states, i - 1));
    }
  }
}
