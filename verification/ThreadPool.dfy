/**
 The thread pool as interleaved steps. One step is one region in which the pool lock
 is held; a condition wait is a release followed, at any later time, by another step.
 Work queues are the by-pointer queues that count their items in process.

 Fields named enqueued, head, finished and cleared record history; the pool never reads them.
 */
module ThreadPool {
  import opened Arithmetic
  import opened Counting

  type Item = nat

  datatype Queue = Queue(items: seq<Item>, processing: nat,
                         enqueued: seq<Item>, head: nat, finished: multiset<Item>, cleared: multiset<Item>)

  /** Idle covers a worker that waits for the lock or on the condition. */
  datatype Worker = Idle | Busy(queue: nat, item: Item) | Exited

  /** One pause or pause_new call and what has become of it. */
  datatype Token = Pausing | Held | HeldNew | Released

  datatype Drain = Draining(target: Target) | Drained(target: Target)
  datatype Target = Everything | Only(queue: nat)

  datatype Stopper = Running | Joining(remaining: set<nat>)

  /**
   Who the threads are: _threads, _old_threads, those joined so far, the wanted number,
   the stop flag and how far a stop call has come.
   */
  datatype Crew = Crew(stop: bool, numThreads: nat, threads: set<nat>, retired: seq<nat>, joined: seq<nat>,
                       stopper: Stopper, started: bool)

  datatype Pool = Pool(
    pause: nat, draining: nat, list: seq<nat>, last: nat, processing: nat,
    queues: seq<Queue>, workers: seq<Worker>, crew: Crew,
    tokens: seq<Token>, drains: seq<Drain>)

  datatype Action =
    | WorkerTurn(w: nat)
    | Enqueue(q: nat, item: Item)
    | AddQueue
    | RemoveQueue(position: nat)
    | PauseCall | PauseReturn(t: nat) | PauseNew | Unpause(t: nat)
    | DrainCall(target: Target) | DrainReturn(d: nat)
    | Start | Resize(count: nat)
    | StopCall | StopJoin(w: nat) | StopEnd

  function Initial(n: nat): Pool {
    Pool(0, 0, [], 0, 0, [], [], Crew(false, n, {}, [], [], Running, false), [], [])
  }

  // ---- The worker's lock-held region ----

  /** The dispatch loop: round robin from the queue after the last one tried, at most tries queues. */
  function Scan(list: seq<nat>, queues: seq<Queue>, last: nat, tries: nat): (r: (nat, bool))
    requires list != [] && Registered(list, queues)
    ensures r.1 ==> r.0 < |list| && queues[list[r.0]].items != []
    decreases tries
  {
    if tries == 0 then (last, false) else
    var next := (last + 1) % |list|;
    if queues[list[next]].items != [] then (next, true) else Scan(list, queues, next, tries - 1)
  }

  /** The loop itself, with its countdown and its wrapping index. */
  method TryQueues(list: seq<nat>, queues: seq<Queue>, last: nat) returns (last': nat, found: bool)
    requires list != [] && Registered(list, queues)
    ensures (last', found) == Scan(list, queues, last, |list|)
  {
    var tries: nat := |list|;
    last', found := last, false;
    while tries > 0
      invariant Scan(list, queues, last', tries) == Scan(list, queues, last, |list|)
    {
      tries := tries - 1;
      last' := (last' + 1) % |list|;
      if queues[list[last']].items != [] {
        found := true;
        return;
      }
    }
  }

  /** Every listed queue exists and is listed once. */
  predicate Registered(list: seq<nat>, queues: seq<Queue>) {
    && (forall i :: 0 <= i < |list| ==> list[i] < |queues|)
    && (forall i, j :: 0 <= i < j < |list| ==> list[i] != list[j])
  }

  function Push(q: Queue, item: Item): Queue {
    q.(items := q.items + [item], enqueued := q.enqueued + [item])
  }

  function Dequeue(q: Queue): Queue
    requires q.items != []
  {
    q.(items := q.items[1..], processing := q.processing + 1, head := q.head + 1)
  }

  function FinishItem(q: Queue, item: Item): Queue
    requires q.processing > 0
  {
    q.(processing := q.processing - 1, finished := q.finished + multiset{item})
  }

  function ClearQueue(q: Queue): Queue {
    q.(items := [], head := q.head + |q.items|, cleared := q.cleared + multiset(q.items))
  }

  /** The end of processing an item, with the lock taken again. */
  function Finish(s: Pool, w: nat): Pool
    requires w < |s.workers|
    requires s.workers[w].Busy? ==> BusyIsCounted(s, w)
  {
    match s.workers[w]
    case Busy(q, item) =>
      s.(queues := s.queues[q := FinishItem(s.queues[q], item)],
         processing := s.processing - 1,
         workers := s.workers[w := Idle])
    case _ => s
  }

  /** What the pool and the queue assert about counters when an item is finished. */
  predicate BusyIsCounted(s: Pool, w: nat) {
    && w < |s.workers| && s.workers[w].Busy?
    && s.workers[w].queue < |s.queues|
    && s.processing > 0 && s.queues[s.workers[w].queue].processing > 0
  }

  function JoinOld(s: Pool): Pool {
    s.(crew := s.crew.(joined := s.crew.joined + s.crew.retired, retired := []))
  }

  function Retire(s: Pool, w: nat): Pool
    requires w < |s.workers|
  {
    s.(crew := s.crew.(threads := s.crew.threads - {w}, retired := s.crew.retired + [w]),
       workers := s.workers[w := Exited])
  }

  function Dispatch(s: Pool, w: nat): Pool
    requires w < |s.workers| && Registered(s.list, s.queues)
  {
    if s.pause == 0 && s.list != [] then
      var (last, found) := Scan(s.list, s.queues, s.last, |s.list|);
      if found then
        var q := s.list[last];
        s.(last := last, processing := s.processing + 1,
           queues := s.queues[q := Dequeue(s.queues[q])],
           workers := s.workers[w := Busy(q, s.queues[q].items[0])])
      else s.(last := last)
    else s
  }

  /** One pass of the worker loop, from taking the lock to releasing it. */
  function Turn(s: Pool, w: nat): Pool
    requires w < |s.workers| && Registered(s.list, s.queues)
    requires s.workers[w].Busy? ==> BusyIsCounted(s, w)
  {
    var s1 := Finish(s, w);
    if s1.crew.stop then s1.(workers := s1.workers[w := Exited]) else
    var s2 := JoinOld(s1);
    if |s2.crew.threads| > s2.crew.numThreads then Retire(s2, w) else Dispatch(s2, w)
  }

  function OneMore(s: Pool): Pool {
    s.(workers := s.workers + [Idle], crew := s.crew.(threads := s.crew.threads + {|s.workers|}))
  }

  /** start_threads: creates workers until there are numThreads of them. */
  function StartThreads(s: Pool, missing: nat): Pool
    decreases missing
  {
    if missing == 0 then s else
    StartThreads(OneMore(s), missing - 1)
  }

  function Missing(s: Pool): nat {
    if |s.crew.threads| < s.crew.numThreads then s.crew.numThreads - |s.crew.threads| else 0
  }

  function Started(s: Pool): Pool {
    var s1 := StartThreads(s.(crew := s.crew.(started := false)), Missing(s));
    s1.(crew := s1.crew.(started := true))
  }

  function ClearListed(queues: seq<Queue>, list: seq<nat>): seq<Queue>
    requires forall i :: 0 <= i < |list| ==> list[i] < |queues|
    decreases |list|
  {
    if list == [] then queues
    else ClearListed(queues[list[0] := ClearQueue(queues[list[0]])], list[1..])
  }

  // ---- All steps ----

  predicate Enabled(s: Pool, a: Action) {
    match a
    case WorkerTurn(w) => w < |s.workers| && !s.workers[w].Exited?
    case Enqueue(q, _) => q < |s.queues|
    case AddQueue => true
    case RemoveQueue(position) => position < |s.list|
    case PauseCall => true
    case PauseReturn(t) => t < |s.tokens| && s.tokens[t].Pausing? && s.processing == 0
    case PauseNew => true
    case Unpause(t) => t < |s.tokens| && (s.tokens[t].Held? || s.tokens[t].HeldNew?)
    case DrainCall(target) => target.Only? ==> target.queue < |s.queues|
    case DrainReturn(d) =>
      && d < |s.drains| && s.drains[d].Draining? && s.processing == 0
      && (s.drains[d].target.Only? ==>
            s.drains[d].target.queue < |s.queues| && s.queues[s.drains[d].target.queue].items == [])
    case Start => s.crew.stopper.Running?
    case Resize(count) => count > 0 && s.crew.stopper.Running?
    case StopCall => s.crew.stopper.Running?
    case StopJoin(w) =>
      s.crew.stopper.Joining? && w in s.crew.stopper.remaining && w < |s.workers| && s.workers[w].Exited?
    case StopEnd => s.crew.stopper.Joining? && s.crew.stopper.remaining == {}
  }

  function Step(s: Pool, a: Action): Pool
    requires Enabled(s, a) && Safe(s)
  {
    match a
    case WorkerTurn(w) => Turn(s, w)
    case Enqueue(q, item) =>
      s.(queues := s.queues[q := Push(s.queues[q], item)])
    case AddQueue =>
      s.(queues := s.queues + [Queue([], 0, [], 0, multiset{}, multiset{})], list := s.list + [|s.queues|])
    case RemoveQueue(position) => s.(list := s.list[..position] + s.list[position + 1..])
    case PauseCall => s.(pause := s.pause + 1, tokens := s.tokens + [Pausing])
    case PauseReturn(t) => s.(tokens := s.tokens[t := Held])
    case PauseNew => s.(pause := s.pause + 1, tokens := s.tokens + [HeldNew])
    case Unpause(t) => s.(pause := s.pause - 1, tokens := s.tokens[t := Released])
    case DrainCall(target) => s.(draining := s.draining + 1, drains := s.drains + [Draining(target)])
    case DrainReturn(d) => s.(draining := s.draining - 1, drains := s.drains[d := Drained(s.drains[d].target)])
    case Start => Started(s)
    case Resize(count) => Started(s.(crew := s.crew.(numThreads := count)))
    case StopCall =>
      var s1 := JoinOld(s);
      s1.(crew := s1.crew.(stop := true, stopper := Joining(s.crew.threads)))
    case StopJoin(w) =>
      s.(crew := s.crew.(joined := s.crew.joined + [w], stopper := Joining(s.crew.stopper.remaining - {w})))
    case StopEnd =>
      s.(queues := ClearListed(s.queues, s.list),
         crew := s.crew.(threads := {}, stop := false, stopper := Running, started := false))
  }

  /** The conditions the code itself asserts or relies on before it decrements or indexes. */
  predicate Safe(s: Pool) {
    && Registered(s.list, s.queues)
    && (forall w :: 0 <= w < |s.workers| && s.workers[w].Busy? ==> BusyIsCounted(s, w))
    && (forall t :: 0 <= t < |s.tokens| && (s.tokens[t].Held? || s.tokens[t].HeldNew?) ==> s.pause > 0)
    && (forall d :: 0 <= d < |s.drains| && s.drains[d].Draining? ==> s.draining > 0)
  }

  // ---- The invariant ----

  function IsBusy(w: Worker): bool { w.Busy? }
  function IsActive(t: Token): bool { !t.Released? }
  function IsDraining(d: Drain): bool { d.Draining? }

  /** The items of queue q that workers are processing. */
  ghost function InProcess(workers: seq<Worker>, q: nat): multiset<Item> {
    Gather(workers, Holding(q))
  }

  function Holding(q: nat): Worker -> multiset<Item> {
    w => ItemOf(w, q)
  }

  function ItemOf(w: Worker, q: nat): multiset<Item> {
    if w.Busy? && w.queue == q then multiset{w.item} else multiset{}
  }

  /**
   A queue hands out its items first in, first out, and each item it was ever given is
   still queued, in process, finished or cleared.
   */
  ghost predicate QueueInv(q: Queue, held: multiset<Item>) {
    && q.head <= |q.enqueued|
    && q.items == q.enqueued[q.head..]
    && q.processing == |held|
    && multiset(q.enqueued[..q.head]) == q.finished + q.cleared + held
  }

  ghost predicate WorkInv(list: seq<nat>, queues: seq<Queue>, workers: seq<Worker>, processing: nat) {
    && Registered(list, queues)
    && processing == Count(workers, IsBusy)
    && (forall w :: 0 <= w < |workers| && workers[w].Busy? ==> workers[w].queue < |queues|)
    && (forall q :: 0 <= q < |queues| ==> QueueInv(queues[q], InProcess(workers, q)))
  }

  ghost predicate PauseInv(tokens: seq<Token>, pause: nat, processing: nat) {
    && pause == Count(tokens, IsActive)
    && (forall t :: 0 <= t < |tokens| && tokens[t].Held? ==> processing == 0)
  }

  /** The threads that are neither retired nor joined. */
  function Current(c: Crew): set<nat> {
    if c.stopper.Joining? then c.stopper.remaining else c.threads
  }

  /** In how many of the current, retired and joined threads worker w is. */
  ghost function Places(c: Crew, w: nat): nat {
    (if w in Current(c) then 1 else 0) + multiset(c.retired)[w] + multiset(c.joined)[w]
  }

  /**
   Every worker ever created is in exactly one place, once; a worker that is no longer
   current has left its lock-held region for good.
   */
  ghost predicate ThreadInv(c: Crew, workers: seq<Worker>) {
    && (forall w: nat :: Places(c, w) == if w < |workers| then 1 else 0)
    && (forall w :: 0 <= w < |workers| && w !in Current(c) ==> workers[w].Exited?)
    && (c.stop <==> c.stopper.Joining?)
    && (c.stopper.Running? ==> forall w :: 0 <= w < |workers| && w in c.threads ==> !workers[w].Exited?)
    && (c.stopper.Joining? ==> c.retired == [])
    && (c.stopper.Running? && c.started ==> |c.threads| >= c.numThreads)
  }

  ghost predicate Inv(s: Pool) {
    && WorkInv(s.list, s.queues, s.workers, s.processing)
    && PauseInv(s.tokens, s.pause, s.processing)
    && s.draining == Count(s.drains, IsDraining)
    && ThreadInv(s.crew, s.workers)
  }

  lemma InProcessGains(ws: seq<Worker>, i: nat, x: Worker, q: nat)
    requires i < |ws| && !ws[i].Busy?
    ensures InProcess(ws[i := x], q) == InProcess(ws, q) + ItemOf(x, q)
  {
    GatherUpdate(ws, i, x, Holding(q));
    assert InProcess(ws[i := x], q) + multiset{} == InProcess(ws[i := x], q);
  }

  /** A worker that is not busy and stays so leaves what is in process as it is. */
  lemma InProcessSame(ws: seq<Worker>, i: nat, x: Worker, q: nat)
    requires i < |ws| && !ws[i].Busy? && !x.Busy?
    ensures InProcess(ws[i := x], q) == InProcess(ws, q)
  {
    InProcessGains(ws, i, x, q);
    assert InProcess(ws, q) + multiset{} == InProcess(ws, q);
  }

  /** A worker that becomes idle gives up its item and nothing else. */
  lemma InProcessLoses(ws: seq<Worker>, i: nat, q: nat)
    requires i < |ws| && ws[i].Busy?
    ensures InProcess(ws, q) == InProcess(ws[i := Idle], q) + ItemOf(ws[i], q)
  {
    InProcessGains(ws[i := Idle], i, ws[i], q);
    assert ws[i := Idle][i := ws[i]] == ws;
  }

  lemma InProcessAppend(ws: seq<Worker>, x: Worker, q: nat)
    ensures InProcess(ws + [x], q) == InProcess(ws, q) + ItemOf(x, q)
  {
    GatherAppend(ws, x, Holding(q));
  }

  lemma InProcessHas(ws: seq<Worker>, i: nat)
    requires i < |ws| && ws[i].Busy?
    ensures ws[i].item in InProcess(ws, ws[i].queue)
  {
    GatherHas(ws, i, Holding(ws[i].queue));
    assert ws[i].item in Holding(ws[i].queue)(ws[i]);
  }

  lemma NoneInProcess(ws: seq<Worker>, q: nat)
    requires Count(ws, IsBusy) == 0
    ensures InProcess(ws, q) == multiset{}
  {
    CountZero(ws, IsBusy);
    forall i | 0 <= i < |ws| ensures !ws[i].Busy? {
      assert !IsBusy(ws[i]);
    }
    GatherNothing(ws, Holding(q));
  }

  /** No assertion that a worker or an unpause makes can fire, and no counter is decremented below zero. */
  lemma InvIsSafe(s: Pool)
    requires Inv(s)
    ensures Safe(s)
  {
    forall w | 0 <= w < |s.workers| && s.workers[w].Busy? ensures BusyIsCounted(s, w) {
      CountPositive(s.workers, w, IsBusy);
      InProcessHas(s.workers, w);
      assert QueueInv(s.queues[s.workers[w].queue], InProcess(s.workers, s.workers[w].queue));
    }
    forall t | 0 <= t < |s.tokens| && (s.tokens[t].Held? || s.tokens[t].HeldNew?) ensures s.pause > 0 {
      CountPositive(s.tokens, t, IsActive);
    }
    forall d | 0 <= d < |s.drains| && s.drains[d].Draining? ensures s.draining > 0 {
      CountPositive(s.drains, d, IsDraining);
    }
  }

  // ---- Every step keeps the invariant ----

  lemma FinishItemKeeps(q: Queue, item: Item, held: multiset<Item>, held': multiset<Item>)
    requires QueueInv(q, held) && held == held' + multiset{item}
    ensures q.processing > 0 && QueueInv(FinishItem(q, item), held')
  {
  }

  lemma FinishKeepsWork(s: Pool, w: nat)
    requires Inv(s) && w < |s.workers| && s.workers[w].Busy?
    ensures BusyIsCounted(s, w)
    ensures var s' := Finish(s, w); WorkInv(s'.list, s'.queues, s'.workers, s'.processing)
  {
    InvIsSafe(s);
    var q, item := s.workers[w].queue, s.workers[w].item;
    var s' := Finish(s, w);
    CountUpdate(s.workers, w, Idle, IsBusy);
    forall r | 0 <= r < |s'.queues| ensures QueueInv(s'.queues[r], InProcess(s'.workers, r)) {
      InProcessLoses(s.workers, w, r);
      assert QueueInv(s.queues[r], InProcess(s.workers, r));
      if r == q {
        FinishItemKeeps(s.queues[q], item, InProcess(s.workers, q), InProcess(s'.workers, q));
      } else {
        assert InProcess(s.workers, r) == InProcess(s'.workers, r);
      }
    }
  }

  lemma FinishKeeps(s: Pool, w: nat)
    requires Inv(s) && w < |s.workers|
    ensures s.workers[w].Busy? ==> BusyIsCounted(s, w)
    ensures Inv(Finish(s, w))
    ensures !Finish(s, w).workers[w].Busy?
  {
    if s.workers[w].Busy? {
      FinishKeepsWork(s, w);
    }
  }

  /** Replacing a worker that is not busy by another such state changes no account of work. */
  lemma IdleChangeKeepsWork(s: Pool, w: nat, x: Worker)
    requires WorkInv(s.list, s.queues, s.workers, s.processing)
    requires w < |s.workers| && !s.workers[w].Busy? && !x.Busy?
    ensures WorkInv(s.list, s.queues, s.workers[w := x], s.processing)
  {
    CountUpdate(s.workers, w, x, IsBusy);
    forall r | 0 <= r < |s.queues| ensures QueueInv(s.queues[r], InProcess(s.workers[w := x], r)) {
      InProcessSame(s.workers, w, x, r);
      assert QueueInv(s.queues[r], InProcess(s.workers, r));
    }
  }

  lemma JoinOldKeeps(s: Pool)
    requires Inv(s)
    ensures Inv(JoinOld(s))
    // a lock holder joins only threads that will not take the lock again
    ensures forall w :: w in s.crew.retired ==> w < |s.workers| && s.workers[w].Exited?
  {
    var s' := JoinOld(s);
    forall w: nat ensures Places(s'.crew, w) == Places(s.crew, w) {
    }
    forall w | w in s.crew.retired ensures w < |s.workers| && s.workers[w].Exited? {
      assert Places(s.crew, w) >= 1;
    }
  }

  lemma RetireKeeps(s: Pool, w: nat)
    requires Inv(s) && s.crew.stopper.Running? && s.crew.retired == []
    requires w < |s.workers| && s.workers[w].Idle? && |s.crew.threads| > s.crew.numThreads
    ensures Inv(Retire(s, w)) && |Retire(s, w).crew.threads| >= s.crew.numThreads
  {
    IdleChangeKeepsWork(s, w, Exited);
    RetireKeepsThreads(s, w);
  }

  lemma RetireKeepsThreads(s: Pool, w: nat)
    requires ThreadInv(s.crew, s.workers) && s.crew.stopper.Running? && s.crew.retired == []
    requires w < |s.workers| && s.workers[w].Idle? && |s.crew.threads| > s.crew.numThreads
    ensures ThreadInv(Retire(s, w).crew, Retire(s, w).workers) && |Retire(s, w).crew.threads| >= s.crew.numThreads
  {
    var s' := Retire(s, w);
    assert w in s.crew.threads;
    forall x: nat ensures Places(s'.crew, x) == Places(s.crew, x) {
    }
    assert s.crew.threads == s'.crew.threads + {w};
  }

  lemma StopExitKeeps(s: Pool, w: nat)
    requires Inv(s) && s.crew.stop && w < |s.workers| && s.workers[w].Idle?
    ensures Inv(s.(workers := s.workers[w := Exited]))
  {
    IdleChangeKeepsWork(s, w, Exited);
  }

  lemma DequeueKeeps(q: Queue, held: multiset<Item>, held': multiset<Item>)
    requires QueueInv(q, held) && q.items != [] && held' == held + multiset{q.items[0]}
    ensures QueueInv(Dequeue(q), held')
  {
    assert q.items[0] == q.enqueued[q.head];
    assert q.enqueued[..q.head + 1] == q.enqueued[..q.head] + [q.enqueued[q.head]];
    assert q.items[1..] == q.enqueued[q.head + 1..];
  }

  lemma DispatchKeepsWork(s: Pool, w: nat)
    requires WorkInv(s.list, s.queues, s.workers, s.processing)
    requires w < |s.workers| && s.workers[w].Idle?
    ensures var s' := Dispatch(s, w); WorkInv(s'.list, s'.queues, s'.workers, s'.processing)
  {
    if s.pause == 0 && s.list != [] {
      var (last, found) := Scan(s.list, s.queues, s.last, |s.list|);
      if found {
        TakeKeepsWork(s.list, s.queues, s.workers, s.processing, w, s.list[last]);
      }
    }
  }

  lemma TakeKeepsWork(list: seq<nat>, queues: seq<Queue>, workers: seq<Worker>, processing: nat, w: nat, q: nat)
    requires WorkInv(list, queues, workers, processing)
    requires w < |workers| && workers[w].Idle? && q < |queues| && queues[q].items != []
    ensures WorkInv(list, queues[q := Dequeue(queues[q])], workers[w := Busy(q, queues[q].items[0])], processing + 1)
  {
    var x := Busy(q, queues[q].items[0]);
    var queues', workers' := queues[q := Dequeue(queues[q])], workers[w := x];
    CountUpdate(workers, w, x, IsBusy);
    forall r | 0 <= r < |queues'| ensures QueueInv(queues'[r], InProcess(workers', r)) {
      InProcessGains(workers, w, x, r);
      assert QueueInv(queues[r], InProcess(workers, r));
      if r == q {
        DequeueKeeps(queues[q], InProcess(workers, q), InProcess(workers', q));
      } else {
        assert InProcess(workers', r) == InProcess(workers, r);
      }
    }
  }

  lemma DispatchKeeps(s: Pool, w: nat)
    requires Inv(s) && w < |s.workers| && s.workers[w].Idle?
    ensures Inv(Dispatch(s, w))
  {
    DispatchKeepsWork(s, w);
    var s' := Dispatch(s, w);
    DispatchChanges(s, w);
    WorkingKeepsThreads(s.crew, s.workers, w, s'.workers[w]);
    if s.pause == 0 {
      NoneHeldUnpaused(s.tokens, s.pause, s.processing);
    }
  }

  lemma DispatchChanges(s: Pool, w: nat)
    requires w < |s.workers| && s.workers[w].Idle? && Registered(s.list, s.queues)
    ensures var s' := Dispatch(s, w);
            && s'.workers == s.workers[w := s'.workers[w]] && !s'.workers[w].Exited?
            && s'.crew == s.crew && s'.tokens == s.tokens && s'.pause == s.pause
            && s'.drains == s.drains && s'.draining == s.draining
            && (s.pause != 0 ==> s' == s)
  {
  }

  lemma WorkingKeepsThreads(c: Crew, workers: seq<Worker>, w: nat, x: Worker)
    requires ThreadInv(c, workers) && w < |workers| && !workers[w].Exited? && !x.Exited?
    ensures ThreadInv(c, workers[w := x])
  {
  }

  lemma NoneHeldUnpaused(tokens: seq<Token>, pause: nat, processing: nat)
    requires PauseInv(tokens, pause, processing) && pause == 0
    ensures forall t :: 0 <= t < |tokens| ==> !tokens[t].Held?
  {
    CountZero(tokens, IsActive);
    forall t | 0 <= t < |tokens| ensures !tokens[t].Held? {
      assert !IsActive(tokens[t]);
    }
  }

  lemma TurnKeeps(s: Pool, w: nat)
    requires Inv(s) && w < |s.workers| && !s.workers[w].Exited?
    ensures s.workers[w].Busy? ==> BusyIsCounted(s, w)
    ensures Inv(Turn(s, w))
  {
    FinishKeeps(s, w);
    var s1 := Finish(s, w);
    if s1.crew.stop {
      StopExitKeeps(s1, w);
    } else {
      JoinOldKeeps(s1);
      var s2 := JoinOld(s1);
      if |s2.crew.threads| > s2.crew.numThreads {
        RetireKeeps(s2, w);
      } else {
        DispatchKeeps(s2, w);
      }
    }
  }

  /** Threads are being created. */
  ghost predicate Starting(s: Pool, numThreads: nat, count: nat) {
    && Inv(s) && s.crew.stopper.Running? && !s.crew.started
    && s.crew.numThreads == numThreads && |s.crew.threads| == count
  }

  lemma {:induction false} StartThreadsKeeps(s: Pool, missing: nat, numThreads: nat, count: nat)
    requires Starting(s, numThreads, count)
    ensures Starting(StartThreads(s, missing), numThreads, count + missing)
    decreases missing
  {
    if missing > 0 {
      assert Starting(OneMore(s), numThreads, count + 1) by { OneMoreKeeps(s); }
      StartThreadsKeeps(OneMore(s), missing - 1, numThreads, count + 1);
    }
  }

  lemma OneMoreKeeps(s: Pool)
    requires Inv(s) && s.crew.stopper.Running? && !s.crew.started
    ensures Inv(OneMore(s)) && |OneMore(s).crew.threads| == |s.crew.threads| + 1
    ensures var c := OneMore(s).crew; c.stopper.Running? && !c.started && c.numThreads == s.crew.numThreads
  {
    NewWorkerKeepsWork(s);
    NewThread(s, OneMore(s));
  }

  lemma SameRoster(c: Crew, c': Crew)
    requires c'.threads == c.threads && c'.retired == c.retired && c'.joined == c.joined && c'.stopper == c.stopper
    ensures forall w: nat :: Places(c', w) == Places(c, w)
  {
  }

  lemma StartedKeeps(s: Pool, count: nat)
    requires Inv(s) && s.crew.stopper.Running?
    ensures Inv(Started(s.(crew := s.crew.(numThreads := count))))
  {
    var s0 := s.(crew := s.crew.(numThreads := count, started := false));
    SameRoster(s.crew, s0.crew);
    StartThreadsKeeps(s0, Missing(s0), count, |s0.crew.threads|);
    var s1 := StartThreads(s0, Missing(s0));
    SameRoster(s1.crew, s1.crew.(started := true));
  }

  lemma NewWorkerKeepsWork(s: Pool)
    requires WorkInv(s.list, s.queues, s.workers, s.processing)
    ensures WorkInv(s.list, s.queues, s.workers + [Idle], s.processing)
  {
    CountAppend(s.workers, Idle, IsBusy);
    forall r | 0 <= r < |s.queues| ensures QueueInv(s.queues[r], InProcess(s.workers + [Idle], r)) {
      InProcessAppend(s.workers, Idle, r);
      assert InProcess(s.workers, r) + multiset{} == InProcess(s.workers, r);
      assert QueueInv(s.queues[r], InProcess(s.workers, r));
    }
  }

  lemma NewThread(s: Pool, s1: Pool)
    requires ThreadInv(s.crew, s.workers) && s.crew.stopper.Running? && !s.crew.started
    requires s1 == OneMore(s)
    ensures ThreadInv(s1.crew, s1.workers) && |s1.crew.threads| == |s.crew.threads| + 1
  {
    var n := |s.workers|;
    assert Places(s.crew, n) == 0;
    forall w: nat ensures Places(s1.crew, w) == Places(s.crew, w) + (if w == n then 1 else 0) {
    }
    forall w | 0 <= w < |s1.workers| && w in s1.crew.threads ensures !s1.workers[w].Exited? {
      assert w < n ==> s1.workers[w] == s.workers[w];
    }
  }

  lemma ClearQueueKeeps(q: Queue, held: multiset<Item>)
    requires QueueInv(q, held)
    ensures QueueInv(ClearQueue(q), held)
  {
    assert q.enqueued[..q.head + |q.items|] == q.enqueued[..q.head] + q.items;
    assert q.enqueued[q.head + |q.items|..] == [];
  }

  lemma {:induction false} ClearListedKeeps(list: seq<nat>, rest: seq<nat>, queues: seq<Queue>, workers: seq<Worker>,
                                            processing: nat)
    requires WorkInv(list, queues, workers, processing)
    requires forall i :: 0 <= i < |rest| ==> rest[i] < |queues|
    ensures WorkInv(list, ClearListed(queues, rest), workers, processing)
    ensures |ClearListed(queues, rest)| == |queues|
    decreases |rest|
  {
    if rest != [] {
      var q := rest[0];
      var queues' := queues[q := ClearQueue(queues[q])];
      forall r | 0 <= r < |queues'| ensures QueueInv(queues'[r], InProcess(workers, r)) {
        assert QueueInv(queues[r], InProcess(workers, r));
        if r == q {
          ClearQueueKeeps(queues[q], InProcess(workers, q));
        }
      }
      ClearListedKeeps(list, rest[1..], queues', workers, processing);
    }
  }

  lemma PushKeeps(q: Queue, item: Item, held: multiset<Item>)
    requires QueueInv(q, held)
    ensures QueueInv(Push(q, item), held)
  {
    var q' := Push(q, item);
    assert q'.enqueued[..q.head] == q.enqueued[..q.head];
    assert q'.enqueued[q.head..] == q.enqueued[q.head..] + [item];
  }

  lemma EnqueueKeeps(s: Pool, q: nat, item: Item)
    requires Inv(s) && q < |s.queues|
    ensures Safe(s) && Inv(Step(s, Enqueue(q, item)))
  {
    InvIsSafe(s);
    var queues' := s.queues[q := Push(s.queues[q], item)];
    forall r | 0 <= r < |queues'| ensures QueueInv(queues'[r], InProcess(s.workers, r)) {
      assert QueueInv(s.queues[r], InProcess(s.workers, r));
      if r == q {
        PushKeeps(s.queues[q], item, InProcess(s.workers, q));
      }
    }
  }

  lemma NoneHeld(workers: seq<Worker>, q: nat)
    requires forall w :: 0 <= w < |workers| && workers[w].Busy? ==> workers[w].queue != q
    ensures InProcess(workers, q) == multiset{}
  {
    GatherNothing(workers, Holding(q));
  }

  lemma AddQueueKeeps(s: Pool)
    requires Inv(s)
    ensures Safe(s) && Inv(Step(s, AddQueue))
  {
    InvIsSafe(s);
    var s' := Step(s, AddQueue);
    NoneHeld(s.workers, |s.queues|);
    forall r | 0 <= r < |s'.queues| ensures QueueInv(s'.queues[r], InProcess(s'.workers, r)) {
      if r < |s.queues| {
        assert QueueInv(s.queues[r], InProcess(s.workers, r));
      }
    }
  }

  lemma RemoveKeepsRegistered(list: seq<nat>, queues: seq<Queue>, position: nat)
    requires Registered(list, queues) && position < |list|
    ensures Registered(list[..position] + list[position + 1..], queues)
  {
    var list' := list[..position] + list[position + 1..];
    assert forall i :: 0 <= i < |list'| ==> list'[i] == list[if i < position then i else i + 1];
  }

  lemma RemoveQueueKeeps(s: Pool, position: nat)
    requires Inv(s) && position < |s.list|
    ensures Safe(s) && Inv(Step(s, RemoveQueue(position)))
  {
    InvIsSafe(s);
    RemoveKeepsRegistered(s.list, s.queues, position);
  }

  lemma TokensKeep(s: Pool, a: Action)
    requires Inv(s) && (a.PauseCall? || a.PauseReturn? || a.PauseNew? || a.Unpause?) && Enabled(s, a)
    ensures Safe(s) && Inv(Step(s, a))
  {
    InvIsSafe(s);
    match a {
      case PauseCall => NewTokenKeeps(s.tokens, s.pause, s.processing, Pausing);
      case PauseReturn(t) => TokenChangeKeeps(s.tokens, s.pause, s.processing, t, Held);
      case PauseNew => NewTokenKeeps(s.tokens, s.pause, s.processing, HeldNew);
      case Unpause(t) => TokenChangeKeeps(s.tokens, s.pause, s.processing, t, Released);
    }
  }

  lemma NewTokenKeeps(tokens: seq<Token>, pause: nat, processing: nat, x: Token)
    requires PauseInv(tokens, pause, processing) && (x.Pausing? || x.HeldNew?)
    ensures PauseInv(tokens + [x], pause + 1, processing)
  {
    CountAppend(tokens, x, IsActive);
  }

  lemma TokenChangeKeeps(tokens: seq<Token>, pause: nat, processing: nat, t: nat, x: Token)
    requires PauseInv(tokens, pause, processing) && t < |tokens| && !tokens[t].Released?
    requires (x.Held? && processing == 0) || x.Released?
    ensures pause > 0 && PauseInv(tokens[t := x], if x.Held? then pause else pause - 1, processing)
  {
    CountPositive(tokens, t, IsActive);
    CountUpdate(tokens, t, x, IsActive);
  }

  lemma DrainsKeep(s: Pool, a: Action)
    requires Inv(s) && (a.DrainCall? || a.DrainReturn?) && Enabled(s, a)
    ensures Safe(s) && Inv(Step(s, a))
  {
    InvIsSafe(s);
    match a {
      case DrainCall(target) => CountAppend(s.drains, Draining(target), IsDraining);
      case DrainReturn(d) => CountUpdate(s.drains, d, Drained(s.drains[d].target), IsDraining);
    }
  }

  lemma StopKeeps(s: Pool, a: Action)
    requires Inv(s) && (a.StopCall? || a.StopJoin? || a.StopEnd?) && Enabled(s, a)
    ensures Safe(s) && Inv(Step(s, a))
  {
    InvIsSafe(s);
    match a {
      case StopCall => StopCallKeeps(s);
      case StopJoin(w) => StopJoinKeeps(s, w);
      case StopEnd =>
        ClearListedKeeps(s.list, s.list, s.queues, s.workers, s.processing);
        StopEndKeeps(s);
    }
  }

  lemma StopCallKeeps(s: Pool)
    requires Inv(s) && Safe(s) && Enabled(s, StopCall)
    ensures Inv(Step(s, StopCall))
  {
    var s' := Step(s, StopCall);
    JoinOldKeeps(s);
    forall w: nat ensures Places(s'.crew, w) == Places(s.crew, w) {
      assert Places(JoinOld(s).crew, w) == Places(s.crew, w);
    }
  }

  lemma StopJoinKeeps(s: Pool, w: nat)
    requires Inv(s) && Safe(s) && Enabled(s, StopJoin(w))
    ensures Inv(Step(s, StopJoin(w)))
  {
    var s' := Step(s, StopJoin(w));
    forall x: nat ensures Places(s'.crew, x) == Places(s.crew, x) {
    }
  }

  lemma StopEndKeeps(s: Pool)
    requires Inv(s) && Safe(s) && Enabled(s, StopEnd)
    requires WorkInv(s.list, ClearListed(s.queues, s.list), s.workers, s.processing)
    ensures Inv(Step(s, StopEnd))
  {
    var s' := Step(s, StopEnd);
    forall w: nat ensures Places(s'.crew, w) == Places(s.crew, w) {
    }
  }

  /** The invariant is inductive: every step of every thread and caller keeps it. */
  lemma StepKeeps(s: Pool, a: Action)
    requires Inv(s) && Enabled(s, a)
    ensures Safe(s) && Inv(Step(s, a))
  {
    InvIsSafe(s);
    match a {
      case WorkerTurn(w) => TurnKeeps(s, w);
      case Enqueue(q, item) => EnqueueKeeps(s, q, item);
      case AddQueue => AddQueueKeeps(s);
      case RemoveQueue(position) => RemoveQueueKeeps(s, position);
      case PauseCall => TokensKeep(s, a);
      case PauseReturn(_) => TokensKeep(s, a);
      case PauseNew => TokensKeep(s, a);
      case Unpause(_) => TokensKeep(s, a);
      case DrainCall(_) => DrainsKeep(s, a);
      case DrainReturn(_) => DrainsKeep(s, a);
      case Start =>
        StartedKeeps(s, s.crew.numThreads);
        assert s.(crew := s.crew.(numThreads := s.crew.numThreads)) == s;
      case Resize(count) => StartedKeeps(s, count);
      case StopCall => StopKeeps(s, a);
      case StopJoin(_) => StopKeeps(s, a);
      case StopEnd => StopKeeps(s, a);
    }
  }

  // ---- Whole runs ----

  /**
   A run from a new pool: states[i + 1] follows states[i] by acts[i]. Should a state ever be
   unsafe, anything may follow, so a claim about runs includes that none ever is.
   */
  ghost predicate IsRun(n: nat, acts: seq<Action>, states: seq<Pool>) {
    && |states| == |acts| + 1
    && states[0] == Initial(n)
    && forall i :: 0 <= i < |acts| ==>
         Enabled(states[i], acts[i]) && (Safe(states[i]) ==> states[i + 1] == Step(states[i], acts[i]))
  }

  lemma {:induction false} RunsAreSafe(n: nat, acts: seq<Action>, states: seq<Pool>, i: nat)
    requires IsRun(n, acts, states) && i < |states|
    ensures Inv(states[i]) && Safe(states[i])
  {
    if i == 0 {
      var s := Initial(n);
      forall w: nat ensures Places(s.crew, w) == 0 {
      }
      InvIsSafe(s);
    } else {
      RunsAreSafe(n, acts, states, i - 1);
      assert Enabled(states[i - 1], acts[i - 1]);
      StepKeeps(states[i - 1], acts[i - 1]);
      InvIsSafe(states[i]);
    }
  }

  lemma RunStep(n: nat, acts: seq<Action>, states: seq<Pool>, i: nat)
    requires IsRun(n, acts, states) && i < |acts|
    ensures Safe(states[i]) && Enabled(states[i], acts[i]) && states[i + 1] == Step(states[i], acts[i])
  {
    RunsAreSafe(n, acts, states, i);
  }

  /** A step leaves another caller's pause token alone. */
  lemma TokenStays(s: Pool, a: Action, t: nat)
    requires Safe(s) && Enabled(s, a) && t < |s.tokens| && s.tokens[t].Held?
    requires a != Unpause(t)
    ensures t < |Step(s, a).tokens| && Step(s, a).tokens[t].Held?
  {
    if a.Start? || a.Resize? {
      StartedFrame(if a.Resize? then s.(crew := s.crew.(numThreads := a.count)) else s);
    }
  }

  lemma {:induction false} StartThreadsFrame(s: Pool, missing: nat)
    ensures var s' := StartThreads(s, missing);
            && s'.tokens == s.tokens && s'.drains == s.drains && s'.queues == s.queues
            && s'.list == s.list && s'.last == s.last
    decreases missing
  {
    if missing > 0 {
      StartThreadsFrame(OneMore(s), missing - 1);
    }
  }

  lemma StartedFrame(s: Pool)
    ensures var s' := Started(s);
            && s'.tokens == s.tokens && s'.drains == s.drains && s'.queues == s.queues
            && s'.list == s.list && s'.last == s.last
  {
    StartThreadsFrame(s.(crew := s.crew.(started := false)), Missing(s));
  }

  lemma {:induction false} TokenStaysThroughRun(n: nat, acts: seq<Action>, states: seq<Pool>, i: nat, j: nat, t: nat)
    requires IsRun(n, acts, states) && i < j < |states|
    requires acts[i] == PauseReturn(t)
    requires forall k :: i < k < j ==> acts[k] != Unpause(t)
    ensures t < |states[j].tokens| && states[j].tokens[t].Held?
    decreases j
  {
    RunStep(n, acts, states, j - 1);
    if j - 1 > i {
      TokenStaysThroughRun(n, acts, states, i, j - 1, t);
      TokenStays(states[j - 1], acts[j - 1], t);
    }
  }

  /**
   From the return of a pause call until its own unpause no worker is processing an
   item, whatever other pause, pause_new and unpause calls come in between.
   */
  lemma PauseExcludesWork(n: nat, acts: seq<Action>, states: seq<Pool>, i: nat, j: nat, t: nat, w: nat)
    requires IsRun(n, acts, states) && i < j < |states|
    requires acts[i] == PauseReturn(t)
    requires forall k :: i < k < j ==> acts[k] != Unpause(t)
    requires w < |states[j].workers|
    ensures !states[j].workers[w].Busy?
  {
    TokenStaysThroughRun(n, acts, states, i, j, t);
    RunsAreSafe(n, acts, states, j);
    CountZero(states[j].workers, IsBusy);
    assert !IsBusy(states[j].workers[w]);
  }

  // ---- Draining ----

  lemma {:induction false} ClearKeepsHistory(queues: seq<Queue>, list: seq<nat>)
    requires forall i :: 0 <= i < |list| ==> list[i] < |queues|
    ensures |ClearListed(queues, list)| == |queues|
    ensures forall q :: 0 <= q < |queues| ==> ClearListed(queues, list)[q].enqueued == queues[q].enqueued
    decreases |list|
  {
    if list != [] {
      ClearKeepsHistory(queues[list[0] := ClearQueue(queues[list[0]])], list[1..]);
    }
  }

  lemma HistoryGrows(s: Pool, a: Action, q: nat)
    requires Safe(s) && Enabled(s, a) && q < |s.queues|
    ensures q < |Step(s, a).queues| && s.queues[q].enqueued <= Step(s, a).queues[q].enqueued
  {
    if a.WorkerTurn? {
      TurnKeepsHistory(s, a.w, q);
    } else if a.Start? || a.Resize? {
      StartedFrame(if a.Resize? then s.(crew := s.crew.(numThreads := a.count)) else s);
    } else if a.StopEnd? {
      ClearKeepsHistory(s.queues, s.list);
    }
  }

  lemma TurnKeepsHistory(s: Pool, w: nat, q: nat)
    requires Safe(s) && w < |s.workers| && q < |s.queues|
    ensures |Turn(s, w).queues| == |s.queues| && Turn(s, w).queues[q].enqueued == s.queues[q].enqueued
  {
    var s1 := Finish(s, w);
    assert |s1.queues| == |s.queues| && s1.queues[q].enqueued == s.queues[q].enqueued;
  }

  lemma {:induction false} HistoryGrowsThroughRun(n: nat, acts: seq<Action>, states: seq<Pool>, i: nat, j: nat, q: nat)
    requires IsRun(n, acts, states) && i <= j < |states| && q < |states[i].queues|
    ensures q < |states[j].queues| && states[i].queues[q].enqueued <= states[j].queues[q].enqueued
    decreases j
  {
    if i < j {
      HistoryGrowsThroughRun(n, acts, states, i, j - 1, q);
      RunStep(n, acts, states, j - 1);
      HistoryGrows(states[j - 1], acts[j - 1], q);
    }
  }

  /** A queue that is empty with nothing in process has finished or cleared all it was ever given. */
  lemma QuietQueueIsDone(q: Queue, held: multiset<Item>)
    requires QueueInv(q, held) && q.items == [] && q.processing == 0
    ensures multiset(q.enqueued) == q.finished + q.cleared
  {
    assert q.enqueued[..q.head] == q.enqueued;
    assert held == multiset{};
  }

  lemma TargetStays(s: Pool, a: Action, d: nat)
    requires Safe(s) && Enabled(s, a) && d < |s.drains|
    ensures d < |Step(s, a).drains| && Step(s, a).drains[d].target == s.drains[d].target
  {
    if a.Start? || a.Resize? {
      StartedFrame(if a.Resize? then s.(crew := s.crew.(numThreads := a.count)) else s);
    }
  }

  lemma {:induction false} DrainKeepsTarget(n: nat, acts: seq<Action>, states: seq<Pool>, i: nat, j: nat, d: nat,
                                            q: nat)
    requires IsRun(n, acts, states) && i < j < |states|
    requires acts[i] == DrainCall(Only(q)) && d == |states[i].drains|
    ensures d < |states[j].drains| && states[j].drains[d].target == Only(q)
    decreases j
  {
    RunStep(n, acts, states, j - 1);
    if j - 1 > i {
      DrainKeepsTarget(n, acts, states, i, j - 1, d, q);
      TargetStays(states[j - 1], acts[j - 1], d);
    }
  }

  /**
   When drain(queue) returns, every item that was queued before it began, as often as it
   was queued, has been finished or cleared.
   */
  lemma DrainIsComplete(n: nat, acts: seq<Action>, states: seq<Pool>, i: nat, j: nat, d: nat, q: nat)
    requires IsRun(n, acts, states) && i < j < |acts|
    requires acts[i] == DrainCall(Only(q)) && d == |states[i].drains|
    requires acts[j] == DrainReturn(d)
    ensures q < |states[i].queues| && q < |states[j].queues|
    ensures multiset(states[i].queues[q].enqueued) <= states[j].queues[q].finished + states[j].queues[q].cleared
  {
    RunsAreSafe(n, acts, states, j);
    assert Enabled(states[i], acts[i]) && Enabled(states[j], acts[j]);
    DrainKeepsTarget(n, acts, states, i, j, d, q);
    HistoryGrowsThroughRun(n, acts, states, i, j, q);
    var s := states[j];
    NoneInProcess(s.workers, q);
    assert QueueInv(s.queues[q], InProcess(s.workers, q));
    QuietQueueIsDone(s.queues[q], InProcess(s.workers, q));
    PrefixIsSubset(states[i].queues[q].enqueued, s.queues[q].enqueued);
  }

  lemma PrefixIsSubset(a: seq<Item>, b: seq<Item>)
    requires a <= b
    ensures multiset(a) <= multiset(b)
  {
    assert b == a + b[|a|..];
  }

  /** Items leave a queue in the order in which they came. */
  lemma FirstInFirstOut(n: nat, acts: seq<Action>, states: seq<Pool>, i: nat)
    requires IsRun(n, acts, states) && i < |acts| && Dequeued(acts[i], states[i + 1])
    ensures var x := states[i + 1].workers[acts[i].w];
            && x.queue < |states[i].queues| && x.queue < |states[i + 1].queues|
            && var q, q' := states[i].queues[x.queue], states[i + 1].queues[x.queue];
               q.head < |q.enqueued| && x.item == q.enqueued[q.head] && q'.head == q.head + 1
  {
    RunStep(n, acts, states, i);
    RunsAreSafe(n, acts, states, i);
    var s, w := states[i], acts[i].w;
    TurnTakesFirst(s, w);
    var q := states[i + 1].workers[w].queue;
    assert QueueInv(s.queues[q], InProcess(s.workers, q));
    assert s.queues[q].items[0] == s.queues[q].enqueued[s.queues[q].head];
  }

  /** A turn that ends with an item has taken the first of a queue. */
  lemma TurnTakesFirst(s: Pool, w: nat)
    requires Safe(s) && w < |s.workers| && !s.workers[w].Exited? && Turn(s, w).workers[w].Busy?
    ensures var s' := Turn(s, w); var x := s'.workers[w];
            && x.queue < |s.queues| == |s'.queues|
            && var q, q' := s.queues[x.queue], s'.queues[x.queue];
               q.items != [] && x.item == q.items[0] && q'.head == q.head + 1
  {
    var s1 := JoinOld(Finish(s, w));
    assert forall q :: 0 <= q < |s.queues| ==>
        s1.queues[q].items == s.queues[q].items && s1.queues[q].head == s.queues[q].head;
    assert Turn(s, w) == Dispatch(s1, w);
  }

  /** PointerWQ::drain may return without waiting: its own queue is quiet then. */
  lemma QuickDrainIsComplete(n: nat, acts: seq<Action>, states: seq<Pool>, i: nat, q: nat)
    requires IsRun(n, acts, states) && i < |states| && q < |states[i].queues|
    requires states[i].queues[q].processing == 0 && states[i].queues[q].items == []
    ensures multiset(states[i].queues[q].enqueued) == states[i].queues[q].finished + states[i].queues[q].cleared
  {
    RunsAreSafe(n, acts, states, i);
    assert QueueInv(states[i].queues[q], InProcess(states[i].workers, q));
    QuietQueueIsDone(states[i].queues[q], InProcess(states[i].workers, q));
  }

  // ---- Threads ----

  /** Every worker ever created is current, retired or joined: exactly one of them, once. */
  lemma EveryThreadOnce(n: nat, acts: seq<Action>, states: seq<Pool>, i: nat, w: nat)
    requires IsRun(n, acts, states) && i < |states| && w < |states[i].workers|
    ensures Places(states[i].crew, w) == 1
    ensures w in states[i].crew.retired || w in states[i].crew.joined ==> states[i].workers[w].Exited?
  {
    RunsAreSafe(n, acts, states, i);
    assert Places(states[i].crew, w) == 1;
  }

  /** Whoever runs next, unless it stops, joins all threads that had retired. */
  lemma NextTurnJoinsRetired(n: nat, acts: seq<Action>, states: seq<Pool>, i: nat, w: nat)
    requires IsRun(n, acts, states) && i < |acts| && acts[i].WorkerTurn?
    requires !states[i].crew.stop && w in states[i].crew.retired
    ensures multiset(states[i + 1].crew.joined)[w] == 1 && w !in states[i + 1].crew.retired
  {
    RunStep(n, acts, states, i);
    RunsAreSafe(n, acts, states, i);
    RunsAreSafe(n, acts, states, i + 1);
    TurnJoins(states[i], acts[i].w);
    JoinedOnce(states[i], states[i + 1], w);
  }

  lemma TurnJoins(s: Pool, w: nat)
    requires Safe(s) && w < |s.workers| && !s.crew.stop
    ensures Turn(s, w).crew.joined == s.crew.joined + s.crew.retired
    ensures |Turn(s, w).workers| == |s.workers|
  {
  }

  lemma JoinedOnce(s: Pool, s': Pool, w: nat)
    requires Inv(s) && Inv(s') && |s'.workers| == |s.workers| && w in s.crew.retired
    requires s'.crew.joined == s.crew.joined + s.crew.retired
    ensures multiset(s'.crew.joined)[w] == 1 && w !in s'.crew.retired
  {
    assert multiset(s'.crew.joined) == multiset(s.crew.joined) + multiset(s.crew.retired);
    assert multiset(s.crew.retired)[w] >= 1;
    assert Places(s.crew, w) >= 1;
    assert Places(s'.crew, w) == 1;
  }

  /** When stop returns, every thread ever created has been joined exactly once, and none is left. */
  lemma StopJoinsAll(n: nat, acts: seq<Action>, states: seq<Pool>, i: nat, w: nat)
    requires IsRun(n, acts, states) && i < |acts| && acts[i] == StopEnd
    requires w < |states[i + 1].workers|
    ensures multiset(states[i + 1].crew.joined)[w] == 1 && states[i + 1].workers[w].Exited?
    ensures states[i + 1].crew.threads == {} && states[i + 1].crew.retired == []
  {
    RunsAreSafe(n, acts, states, i);
    RunsAreSafe(n, acts, states, i + 1);
    assert Enabled(states[i], acts[i]);
    assert Places(states[i + 1].crew, w) == 1;
  }

  /** A worker's turn shrinks the pool by at most one thread, and never below the wanted number. */
  lemma ShrinkingIsBounded(n: nat, acts: seq<Action>, states: seq<Pool>, i: nat)
    requires IsRun(n, acts, states) && i < |acts| && acts[i].WorkerTurn?
    ensures var c, c' := states[i].crew, states[i + 1].crew;
            c'.threads == c.threads || (|c'.threads| == |c.threads| - 1 && |c'.threads| >= c.numThreads)
  {
    RunsAreSafe(n, acts, states, i);
    assert Enabled(states[i], acts[i]);
    var w := acts[i].w;
    var s1 := Finish(states[i], w);
    if !s1.crew.stop && |s1.crew.threads| > s1.crew.numThreads {
      assert Places(s1.crew, w) == 1;
      assert w in s1.crew.threads;
      assert s1.crew.threads == (s1.crew.threads - {w}) + {w};
    }
  }

  // ---- Dispatch ----

  /** How many queues the round robin tries before it reaches position x. */
  function Distance(last: nat, x: nat, n: nat): (d: nat)
    requires n > 0
    ensures d < n
  {
    (x - last - 1) % n
  }

  lemma DistanceStep(last: nat, x: nat, n: nat)
    requires x < n
    ensures var next := (last + 1) % n;
            if x == next then Distance(last, x, n) == 0
            else Distance(last, x, n) > 0 && Distance(next, x, n) == Distance(last, x, n) - 1
  {
    var next := (last + 1) % n;
    var k := (last + 1) / n;
    assert last + 1 == k * n + next;
    var d := Distance(last, x, n);
    var m := (x - last - 1) / n;
    assert x - last - 1 == m * n + d;
    // x - next == (m + k) * n + d
    assert x - next == (m + k) * n + d;
    ScaleBounds(m + k, n);
    if d == 0 {
      assert m + k == 0;
    } else {
      assert x - next - 1 == (m + k) * n + (d - 1);
      QuotientUnique(x - next - 1, n, m + k, d - 1);
    }
  }

  /** The scan meets work when there is some, and gets closer to every queue it passes over. */
  lemma {:induction false} ScanApproaches(list: seq<nat>, queues: seq<Queue>, last: nat, tries: nat, x: nat)
    requires list != [] && Registered(list, queues)
    requires x < |list| && queues[list[x]].items != [] && Distance(last, x, |list|) < tries
    ensures var (found, ok) := Scan(list, queues, last, tries);
            ok && (found == x || Distance(found, x, |list|) < Distance(last, x, |list|))
    decreases tries
  {
    DistanceStep(last, x, |list|);
    var next := (last + 1) % |list|;
    if queues[list[next]].items == [] {
      ScanApproaches(list, queues, next, tries - 1, x);
    }
  }

  /** An unpaused worker goes to wait only when every listed queue is empty. */
  lemma WaitsOnlyWhenEmpty(s: Pool, w: nat, x: nat)
    requires w < |s.workers| && s.workers[w].Idle? && Registered(s.list, s.queues)
    requires s.pause == 0 && Dispatch(s, w).workers[w].Idle? && x < |s.list|
    ensures s.queues[s.list[x]].items == []
  {
    if s.queues[s.list[x]].items != [] {
      ScanApproaches(s.list, s.queues, s.last, |s.list|, x);
    }
  }

  /** The step that led to s' took an item from a queue. */
  predicate Dequeued(a: Action, s': Pool) {
    a.WorkerTurn? && a.w < |s'.workers| && s'.workers[a.w].Busy?
  }

  /** Position x of the given queue list has work. */
  predicate Pending(s: Pool, list: seq<nat>, x: nat) {
    s.list == list && x < |list| && list[x] < |s.queues| && s.queues[list[x]].items != []
  }

  lemma DispatchApproaches(s: Pool, w: nat, x: nat)
    requires w < |s.workers| && s.workers[w].Idle? && Registered(s.list, s.queues) && Pending(s, s.list, x)
    ensures var s' := Dispatch(s, w);
            Closer(s.last, s'.last, x, |s.list|, s'.workers[w].Busy?, Serves(s'.workers[w], s.list[x]))
  {
    if s.pause == 0 {
      ScanApproaches(s.list, s.queues, s.last, |s.list|, x);
    }
  }

  predicate Serves(w: Worker, q: nat) {
    w.Busy? && w.queue == q
  }

  /** Either nothing was dequeued and the round robin stands still, or it served x or came closer to x. */
  ghost predicate Closer(last: nat, last': nat, x: nat, n: nat, dequeued: bool, served: bool)
    requires n > 0
  {
    if !dequeued then last' == last else served || Distance(last', x, n) < Distance(last, x, n)
  }

  lemma TurnApproaches(s: Pool, w: nat, x: nat)
    requires Safe(s) && w < |s.workers| && !s.workers[w].Exited? && Pending(s, s.list, x)
    ensures var s' := Turn(s, w);
            Closer(s.last, s'.last, x, |s.list|, s'.workers[w].Busy?, Serves(s'.workers[w], s.list[x]))
  {
    var s1 := JoinOld(Finish(s, w));
    assert s1.list == s.list && s1.last == s.last && |s1.queues| == |s.queues|;
    assert s1.queues[s.list[x]].items == s.queues[s.list[x]].items;
    DispatchApproaches(s1, w, x);
  }

  lemma LastStays(s: Pool, a: Action)
    requires Safe(s) && Enabled(s, a) && !a.WorkerTurn?
    ensures Step(s, a).last == s.last
  {
    if a.Start? || a.Resize? {
      StartedFrame(if a.Resize? then s.(crew := s.crew.(numThreads := a.count)) else s);
    }
  }

  lemma StepApproaches(s: Pool, a: Action, x: nat)
    requires Safe(s) && Enabled(s, a) && Pending(s, s.list, x)
    requires Dequeued(a, Step(s, a)) ==> Step(s, a).workers[a.w].queue != s.list[x]
    ensures var d, d' := Distance(s.last, x, |s.list|), Distance(Step(s, a).last, x, |s.list|);
            d' <= d && (Dequeued(a, Step(s, a)) ==> d' < d)
  {
    if a.WorkerTurn? {
      TurnApproaches(s, a.w, x);
    } else {
      LastStays(s, a);
    }
  }

  /** The number of successful dequeues between two states of a run. */
  ghost function DequeueCount(acts: seq<Action>, states: seq<Pool>, i: nat, j: nat): nat
    requires |states| == |acts| + 1 && i <= j < |states|
  {
    if i == j then 0
    else DequeueCount(acts, states, i, j - 1) + (if Dequeued(acts[j - 1], states[j]) then 1 else 0)
  }

  /** From state i to state j the queue list is fixed and the queue at position x has work but is not served. */
  ghost predicate LeftOut(acts: seq<Action>, states: seq<Pool>, i: nat, j: nat, x: nat)
    requires |states| == |acts| + 1 && i <= j < |states| && x < |states[i].list|
  {
    && (forall k :: i <= k <= j ==> Pending(states[k], states[i].list, x))
    && (forall k :: i <= k < j && Dequeued(acts[k], states[k + 1]) ==>
          states[k + 1].workers[acts[k].w].queue != states[i].list[x])
  }

  /** A measure that every dequeue lowers and no step raises bounds the number of dequeues. */
  lemma {:induction false} MeasureBoundsDequeues(acts: seq<Action>, states: seq<Pool>, i: nat, j: nat, f: Pool -> nat)
    requires |states| == |acts| + 1 && i <= j < |states|
    requires forall k :: i <= k < j ==>
               f(states[k + 1]) + (if Dequeued(acts[k], states[k + 1]) then 1 else 0) <= f(states[k])
    ensures DequeueCount(acts, states, i, j) + f(states[j]) <= f(states[i])
    decreases j
  {
    if i < j {
      MeasureBoundsDequeues(acts, states, i, j - 1, f);
      var k := j - 1;
      assert f(states[k + 1]) + (if Dequeued(acts[k], states[k + 1]) then 1 else 0) <= f(states[k]);
    }
  }

  lemma LeftOutStep(n: nat, acts: seq<Action>, states: seq<Pool>, j: nat, list: seq<nat>, x: nat)
    requires IsRun(n, acts, states) && j < |acts| && Pending(states[j], list, x)
    requires Dequeued(acts[j], states[j + 1]) ==> states[j + 1].workers[acts[j].w].queue != list[x]
    ensures Distance(states[j + 1].last, x, |list|) + (if Dequeued(acts[j], states[j + 1]) then 1 else 0)
            <= Distance(states[j].last, x, |list|)
  {
    RunStep(n, acts, states, j);
    StepApproaches(states[j], acts[j], x);
  }

  /**
   Bounded bypass: a queue that stays non-empty is served within as many successful
   dequeues, by all workers together, as there are queues.
   */
  lemma BypassIsBounded(n: nat, acts: seq<Action>, states: seq<Pool>, i: nat, j: nat, x: nat)
    requires IsRun(n, acts, states) && i <= j < |states| && x < |states[i].list|
    requires LeftOut(acts, states, i, j, x)
    ensures DequeueCount(acts, states, i, j) < |states[i].list|
  {
    var list := states[i].list;
    var f := (s: Pool) => Distance(s.last, x, |list|);
    forall k | i <= k < j
      ensures f(states[k + 1]) + (if Dequeued(acts[k], states[k + 1]) then 1 else 0) <= f(states[k])
    {
      LeftOutStep(n, acts, states, k, list, x);
    }
    MeasureBoundsDequeues(acts, states, i, j, f);
    assert f(states[i]) < |list|;
  }
}
