/**
 The sharded pool's pause protocol. A worker reads the stop, pause and drain flags without
 a lock, between steps of its own; the flags change only under the pool lock.
 */
module ShardedPool {
  import opened Counting

  /** Program points of shardedthreadpool_worker. */
  datatype Worker =
    | AtTop             // before reading stop_threads
    | CheckPause        // before reading pause_threads
    | EnterPause        // saw the pause flag, about to take the lock
    | Paused            // counted in num_paused, waiting on the condition
    | CheckDrain        // before reading drain_threads
    | EnterDrain        // saw the drain flag, about to take the lock
    | Drained           // counted in num_drained, waiting on the condition
    | InProcess         // in _process
    | Exited

  /** A pause call is waiting for the workers, or has returned; unpause ends every returned one. */
  datatype Pauser = Waiting | Returned | Over

  datatype State = State(numThreads: nat, stop: bool, pause: bool, drain: bool,
                         numPaused: nat, numDrained: nat,
                         workers: seq<Worker>, pausers: seq<Pauser>, drainers: nat)

  datatype Action =
    | Start | Stop
    | Move(w: nat, shardEmpty: bool)
    | PauseCall | PauseReturn(c: nat) | PauseNew | Unpause
    | DrainCall | DrainReturn

  function Initial(n: nat): State {
    State(n, false, false, false, 0, 0, [], [], 0)
  }

  /** One step of a worker: an unlocked flag read, a region under the lock, or _process. */
  function Moved(s: State, w: nat, shardEmpty: bool): State
    requires w < |s.workers| && CountersCover(s, w)
  {
    match s.workers[w]
    case AtTop => s.(workers := s.workers[w := if s.stop then Exited else CheckPause])
    case CheckPause => s.(workers := s.workers[w := if s.pause then EnterPause else CheckDrain])
    case EnterPause =>
      if s.pause then s.(workers := s.workers[w := Paused], numPaused := s.numPaused + 1)
      else s.(workers := s.workers[w := CheckDrain])
    case Paused =>
      if s.pause then s
      else s.(workers := s.workers[w := CheckDrain], numPaused := s.numPaused - 1)
    case CheckDrain => s.(workers := s.workers[w := if s.drain then EnterDrain else InProcess])
    case EnterDrain =>
      if shardEmpty && s.drain then s.(workers := s.workers[w := Drained], numDrained := s.numDrained + 1)
      else s.(workers := s.workers[w := InProcess])
    case Drained =>
      if s.drain then s
      else s.(workers := s.workers[w := InProcess], numDrained := s.numDrained - 1)
    case InProcess => s.(workers := s.workers[w := AtTop])
    case Exited => s
  }

  /** The counter a worker will decrement is positive. */
  predicate CountersCover(s: State, w: nat) {
    w < |s.workers| ==> (s.workers[w].Paused? ==> s.numPaused > 0) && (s.workers[w].Drained? ==> s.numDrained > 0)
  }

  predicate Safe(s: State) {
    forall w :: 0 <= w < |s.workers| ==> CountersCover(s, w)
  }

  predicate Enabled(s: State, a: Action) {
    match a
    case Start => true
    case Stop => true
    case Move(w, _) => w < |s.workers|
    case PauseCall => true
    case PauseReturn(c) => c < |s.pausers| && s.pausers[c].Waiting? && s.numPaused == s.numThreads
    case PauseNew => true
    case Unpause => true
    case DrainCall => true
    case DrainReturn => s.drainers > 0 && s.numDrained == s.numThreads
  }

  function Step(s: State, a: Action): State
    requires Enabled(s, a) && Safe(s)
  {
    match a
    case Start =>
      if |s.workers| < s.numThreads then s.(workers := s.workers + seq(s.numThreads - |s.workers|, _ => AtTop)) else s
    case Stop => s.(stop := true)
    case Move(w, shardEmpty) => Moved(s, w, shardEmpty)
    case PauseCall => s.(pause := true, pausers := s.pausers + [Waiting])
    case PauseReturn(c) =>
      // a pause call that an unpause overtook can still return; it then guarantees nothing
      s.(pausers := s.pausers[c := if s.pause then Returned else Over])
    case PauseNew => s.(pause := true)
    case Unpause => s.(pause := false, pausers := EndReturned(s.pausers))
    case DrainCall => s.(drain := true, drainers := s.drainers + 1)
    case DrainReturn => s.(drain := false, drainers := s.drainers - 1)
  }

  function EndReturned(ps: seq<Pauser>): (r: seq<Pauser>)
    ensures |r| == |ps|
    ensures forall i :: 0 <= i < |ps| ==> r[i] == if ps[i].Returned? then Over else ps[i]
  {
    seq(|ps|, i requires 0 <= i < |ps| => if ps[i].Returned? then Over else ps[i])
  }

  function IsPaused(w: Worker): bool { w.Paused? }
  function IsDrained(w: Worker): bool { w.Drained? }

  ghost predicate AllPaused(s: State) {
    forall w :: 0 <= w < |s.workers| ==> s.workers[w].Paused?
  }

  ghost predicate Inv(s: State) {
    && |s.workers| <= s.numThreads
    && s.numPaused == Count(s.workers, IsPaused)
    && s.numDrained == Count(s.workers, IsDrained)
    && forall c :: 0 <= c < |s.pausers| && s.pausers[c].Returned? ==>
         s.pause && |s.workers| == s.numThreads && AllPaused(s)
  }

  lemma InvIsSafe(s: State)
    requires Inv(s)
    ensures Safe(s)
  {
    forall w | 0 <= w < |s.workers| ensures CountersCover(s, w) {
      if s.workers[w].Paused? { CountPositive(s.workers, w, IsPaused); }
      if s.workers[w].Drained? { CountPositive(s.workers, w, IsDrained); }
    }
  }

  lemma {:induction false} CountFresh(ws: seq<Worker>, k: nat)
    ensures Count(ws + seq(k, _ => AtTop), IsPaused) == Count(ws, IsPaused)
    ensures Count(ws + seq(k, _ => AtTop), IsDrained) == Count(ws, IsDrained)
  {
    if k == 0 {
      assert ws + seq(k, _ => AtTop) == ws;
    } else {
      CountFresh(ws, k - 1);
      var shorter := ws + seq(k - 1, _ => AtTop);
      assert ws + seq(k, _ => AtTop) == shorter + [AtTop];
      CountAppend(shorter, AtTop, IsPaused);
      CountAppend(shorter, AtTop, IsDrained);
    }
  }

  /** What a step does to the counters it does to the worker's contribution to them. */
  lemma MoveCounts(s: State, w: nat, shardEmpty: bool)
    requires w < |s.workers| && CountersCover(s, w)
    ensures var s' := Moved(s, w, shardEmpty);
            && s'.workers == s.workers[w := s'.workers[w]]
            && s'.numPaused + (if s.workers[w].Paused? then 1 else 0)
               == s.numPaused + (if s'.workers[w].Paused? then 1 else 0)
            && s'.numDrained + (if s.workers[w].Drained? then 1 else 0)
               == s.numDrained + (if s'.workers[w].Drained? then 1 else 0)
  {
  }

  lemma MoveKeeps(s: State, w: nat, shardEmpty: bool)
    requires Inv(s) && w < |s.workers|
    ensures Safe(s) && Inv(Moved(s, w, shardEmpty))
  {
    InvIsSafe(s);
    assert CountersCover(s, w);
    var s' := Moved(s, w, shardEmpty);
    if s.workers[w].Paused? && s.pause {
      assert s' == s;
    } else {
      NoneReturned(s, w);
      MoveCounts(s, w, shardEmpty);
      MoveFrame(s, w, shardEmpty);
      CountUpdate(s.workers, w, s'.workers[w], IsPaused);
      CountUpdate(s.workers, w, s'.workers[w], IsDrained);
    }
  }

  lemma NoneReturned(s: State, w: nat)
    requires Inv(s) && w < |s.workers| && !(s.workers[w].Paused? && s.pause)
    ensures forall c :: 0 <= c < |s.pausers| ==> !s.pausers[c].Returned?
  {
  }

  lemma MoveFrame(s: State, w: nat, shardEmpty: bool)
    requires w < |s.workers| && CountersCover(s, w)
    ensures var s' := Moved(s, w, shardEmpty);
            s'.pausers == s.pausers && s'.numThreads == s.numThreads && |s'.workers| == |s.workers|
  {
  }

  lemma StepKeeps(s: State, a: Action)
    requires Inv(s) && Enabled(s, a)
    ensures Safe(s) && Inv(Step(s, a))
  {
    InvIsSafe(s);
    match a {
      case Start =>
        if |s.workers| < s.numThreads {
          CountFresh(s.workers, s.numThreads - |s.workers|);
        }
      case Move(w, shardEmpty) => MoveKeeps(s, w, shardEmpty);
      case PauseReturn(c) => CountAtMost(s.workers, IsPaused);
        assert forall w :: 0 <= w < |s.workers| ==> IsPaused(s.workers[w]) == s.workers[w].Paused?;
      case _ =>
    }
  }

  // ---- Whole runs ----

  ghost predicate IsRun(n: nat, acts: seq<Action>, states: seq<State>) {
    && |states| == |acts| + 1
    && states[0] == Initial(n)
    && forall i :: 0 <= i < |acts| ==>
         Enabled(states[i], acts[i]) && (Safe(states[i]) ==> states[i + 1] == Step(states[i], acts[i]))
  }

  /** num_paused is at all times the number of workers inside the paused region. */
  lemma {:induction false} RunsKeepInv(n: nat, acts: seq<Action>, states: seq<State>, i: nat)
    requires IsRun(n, acts, states) && i < |states|
    ensures Inv(states[i]) && Safe(states[i])
  {
    if i > 0 {
      RunsKeepInv(n, acts, states, i - 1);
      assert Enabled(states[i - 1], acts[i - 1]);
      StepKeeps(states[i - 1], acts[i - 1]);
    }
    InvIsSafe(states[i]);
  }

  lemma {:induction false} ReturnedStays(n: nat, acts: seq<Action>, states: seq<State>, i: nat, j: nat, c: nat)
    requires IsRun(n, acts, states) && i < j < |states|
    requires acts[i] == PauseReturn(c) && states[i].pause
    requires forall k :: i < k < j ==> !acts[k].Unpause?
    ensures c < |states[j].pausers| && states[j].pausers[c].Returned?
    decreases j
  {
    RunsKeepInv(n, acts, states, j - 1);
    assert Enabled(states[j - 1], acts[j - 1]);
    if j - 1 > i {
      ReturnedStays(n, acts, states, i, j - 1, c);
    }
  }

  /**
   From the return of a pause call that finds the flag set until the next unpause, every
   thread of the pool is in the paused region, so none is in _process; this includes a pause
   that follows an unpause before any worker has woken up.
   */
  lemma PauseExcludesProcess(n: nat, acts: seq<Action>, states: seq<State>, i: nat, j: nat, c: nat, w: nat)
    requires IsRun(n, acts, states) && i < j < |states|
    requires acts[i] == PauseReturn(c) && states[i].pause
    requires forall k :: i < k < j ==> !acts[k].Unpause?
    requires w < |states[j].workers|
    ensures states[j].workers[w].Paused? && |states[j].workers| == n
  {
    ReturnedStays(n, acts, states, i, j, c);
    RunsKeepInv(n, acts, states, j);
    ThreadsAreFixed(n, acts, states, j);
  }

  lemma {:induction false} ThreadsAreFixed(n: nat, acts: seq<Action>, states: seq<State>, i: nat)
    requires IsRun(n, acts, states) && i < |states|
    ensures states[i].numThreads == n
  {
    if i > 0 {
      ThreadsAreFixed(n, acts, states, i - 1);
      RunsKeepInv(n, acts, states, i - 1);
      assert Enabled(states[i - 1], acts[i - 1]);
      StepFixesThreads(states[i - 1], acts[i - 1]);
    }
  }

  lemma StepFixesThreads(s: State, a: Action)
    requires Safe(s) && Enabled(s, a)
    ensures Step(s, a).numThreads == s.numThreads
  {
  }

  /** A pause call during which no unpause happens returns with the pause flag set. */
  lemma {:induction false} FlagStays(n: nat, acts: seq<Action>, states: seq<State>, h: nat, i: nat)
    requires IsRun(n, acts, states) && h < i < |states|
    requires acts[h] == PauseCall
    requires forall k :: h < k < i ==> !acts[k].Unpause?
    ensures states[i].pause
    decreases i
  {
    RunsKeepInv(n, acts, states, i - 1);
    assert Enabled(states[i - 1], acts[i - 1]);
    if i - 1 > h {
      FlagStays(n, acts, states, h, i - 1);
    }
  }

  /**
   The flag is needed: a pause call that an unpause overtook can return while all workers
   still sit in the paused region. From every such return the pool can go on, with no
   further unpause, to a worker in _process.
   */
  lemma OvertakenPauseFails(n: nat, acts: seq<Action>, states: seq<State>, c: nat)
    returns (acts': seq<Action>, states': seq<State>)
    requires n > 0 && IsRun(n, acts, states) && |acts| > 0
    requires acts[|acts| - 1] == PauseReturn(c) && !states[|acts| - 1].pause
    ensures IsRun(n, acts', states') && acts <= acts'
    ensures forall k :: |acts| <= k < |acts'| ==> !acts'[k].Unpause?
    ensures |states'[|acts'|].workers| > 0 && states'[|acts'|].workers[0].InProcess?
  {
    AllPausedAtReturn(n, acts, states, c);
    acts', states' := LeavesPause(n, acts, states);
  }

  lemma AllPausedAtReturn(n: nat, acts: seq<Action>, states: seq<State>, c: nat)
    requires n > 0 && IsRun(n, acts, states) && |acts| > 0 && acts[|acts| - 1] == PauseReturn(c)
    ensures var s := states[|acts|];
            |s.workers| > 0 && s.workers[0].Paused? && s.pause == states[|acts| - 1].pause
  {
    var m := |acts|;
    RunsKeepInv(n, acts, states, m - 1);
    RunsKeepInv(n, acts, states, m);
    assert Enabled(states[m - 1], acts[m - 1]);
    ThreadsAreFixed(n, acts, states, m);
    CountAtMost(states[m].workers, IsPaused);
    assert IsPaused(states[m].workers[0]);
  }

  /** With the flag off, a worker in the paused region is two or three steps from _process. */
  lemma LeavesPause(n: nat, acts: seq<Action>, states: seq<State>) returns (acts': seq<Action>, states': seq<State>)
    requires IsRun(n, acts, states)
    requires var s := states[|acts|]; |s.workers| > 0 && s.workers[0].Paused? && !s.pause
    ensures IsRun(n, acts', states') && acts <= acts'
    ensures forall k :: |acts| <= k < |acts'| ==> !acts'[k].Unpause?
    ensures |states'[|acts'|].workers| > 0 && states'[|acts'|].workers[0].InProcess?
  {
    acts', states' := Extend(n, acts, states, Move(0, false));
    acts', states' := Extend(n, acts', states', Move(0, false));
    if states[|acts|].drain {
      acts', states' := Extend(n, acts', states', Move(0, false));
    }
  }

  /** Any enabled step extends a run. */
  lemma Extend(n: nat, acts: seq<Action>, states: seq<State>, a: Action)
    returns (acts': seq<Action>, states': seq<State>)
    requires IsRun(n, acts, states) && Enabled(states[|acts|], a)
    ensures acts' == acts + [a] && IsRun(n, acts', states')
    ensures Safe(states[|acts|]) && states' == states + [Step(states[|acts|], a)]
  {
    RunsKeepInv(n, acts, states, |acts|);
    acts', states' := acts + [a], states + [Step(states[|acts|], a)];
    forall i | 0 <= i < |acts'|
      ensures Enabled(states'[i], acts'[i]) && (Safe(states'[i]) ==> states'[i + 1] == Step(states'[i], acts'[i]))
    {
      if i < |acts| {
        assert Enabled(states[i], acts[i]);
      }
    }
  }

  /** A run in which one worker has entered the paused region. */
  lemma OneEntersPause() returns (acts: seq<Action>, states: seq<State>)
    ensures IsRun(1, acts, states) && |acts| == 5
    ensures var s := states[5]; s.numPaused == 1 == s.numThreads && s.pausers == [Waiting]
  {
    acts, states := [], [Initial(1)];
    acts, states := Extend(1, acts, states, Start);
    assert states[1].workers == [AtTop];
    acts, states := Extend(1, acts, states, Move(0, false));
    acts, states := Extend(1, acts, states, PauseCall);
    acts, states := Extend(1, acts, states, Move(0, false));
    acts, states := Extend(1, acts, states, Move(0, false));
  }

  /** A run in which a pause call returns after an unpause has overtaken it. */
  lemma PauseCanBeOvertaken() returns (acts: seq<Action>, states: seq<State>)
    ensures IsRun(1, acts, states) && |acts| == 7
    ensures acts[6] == PauseReturn(0) && !states[6].pause
  {
    acts, states := OneEntersPause();
    acts, states := Extend(1, acts, states, Unpause);
    acts, states := Extend(1, acts, states, PauseReturn(0));
  }
}
