/**
 The sharded pool in terms of what has happened: each flag is what the last call about it made it,
 and a worker that is let run goes where the flags send it.
 */
module ShardedHistory {
  import opened Counting
  import opened ShardedPool

  lemma RunStep(n: nat, acts: seq<Action>, states: seq<State>, i: nat)
    requires IsRun(n, acts, states) && i < |acts|
    ensures Inv(states[i]) && Safe(states[i]) && Enabled(states[i], acts[i])
    ensures states[i + 1] == Step(states[i], acts[i])
  {
    RunsKeepInv(n, acts, states, i);
  }

  // ---- The flags ----

  /** The last of the pauses and unpauses so far was a pause. */
  predicate PauseSet(acts: seq<Action>) {
    acts != [] &&
    var a := acts[|acts| - 1];
    (a.PauseCall? || a.PauseNew? || (!a.Unpause? && PauseSet(acts[..|acts| - 1])))
  }

  /** The last of the drain calls and returns so far was a call. */
  predicate DrainSet(acts: seq<Action>) {
    acts != [] &&
    var a := acts[|acts| - 1];
    (a.DrainCall? || (!a.DrainReturn? && DrainSet(acts[..|acts| - 1])))
  }

  predicate Has(acts: seq<Action>, a: Action) {
    a in acts
  }

  lemma FlagStep(s: State, a: Action)
    requires Safe(s) && Enabled(s, a)
    ensures var s' := Step(s, a);
            && s'.pause == (a.PauseCall? || a.PauseNew? || (!a.Unpause? && s.pause))
            && s'.drain == (a.DrainCall? || (!a.DrainReturn? && s.drain))
            && s'.stop == (a.Stop? || s.stop)
  {
  }

  /** Each flag is what the last call about it made it. */
  lemma {:induction false} FlagsAre(n: nat, acts: seq<Action>, states: seq<State>, i: nat)
    requires IsRun(n, acts, states) && i < |states|
    ensures states[i].pause <==> PauseSet(acts[..i])
    ensures states[i].drain <==> DrainSet(acts[..i])
    ensures states[i].stop <==> Has(acts[..i], Stop)
  {
    if i > 0 {
      FlagsAre(n, acts, states, i - 1);
      RunStep(n, acts, states, i - 1);
      FlagStep(states[i - 1], acts[i - 1]);
      var before := acts[..i - 1];
      assert acts[..i] == before + [acts[i - 1]];
      assert acts[..i][..i - 1] == before;
    }
  }

  // ---- The workers ----

  lemma WorkersStep(s: State, a: Action)
    requires Inv(s) && Safe(s) && Enabled(s, a)
    ensures |Step(s, a).workers| == if a.Start? then s.numThreads else |s.workers|
  {
    if a.Move? {
      MoveFrame(s, a.w, a.shardEmpty);
    }
  }

  /** Starting creates all threads of the pool, once, and at their beginning. */
  lemma {:induction false} WorkersAre(n: nat, acts: seq<Action>, states: seq<State>, i: nat)
    requires IsRun(n, acts, states) && i < |states|
    ensures |states[i].workers| == if Has(acts[..i], Start) then n else 0
  {
    if i > 0 {
      WorkersAre(n, acts, states, i - 1);
      ThreadsAreFixed(n, acts, states, i - 1);
      RunStep(n, acts, states, i - 1);
      WorkersStep(states[i - 1], acts[i - 1]);
      assert acts[..i] == acts[..i - 1] + [acts[i - 1]];
    }
  }

  lemma StartCreates(n: nat, acts: seq<Action>, states: seq<State>, i: nat, w: nat)
    requires IsRun(n, acts, states) && i < |acts| && acts[i] == Start && w < n
    ensures |states[i + 1].workers| == n
    ensures states[i + 1].workers[w] == if w < |states[i].workers| then states[i].workers[w] else AtTop
  {
    RunStep(n, acts, states, i);
    ThreadsAreFixed(n, acts, states, i);
  }

  /** When a drain returns, every thread of the pool is in the drained region. */
  lemma DrainReturnsDrained(n: nat, acts: seq<Action>, states: seq<State>, i: nat, w: nat)
    requires IsRun(n, acts, states) && i < |acts| && acts[i] == DrainReturn && w < n
    ensures |states[i].workers| == n && states[i].workers[w].Drained?
  {
    RunStep(n, acts, states, i);
    ThreadsAreFixed(n, acts, states, i);
    CountAtMost(states[i].workers, IsDrained);
    assert IsDrained(states[i].workers[w]);
  }

  /** A pause call can return exactly when every thread of the pool exists and is in the paused region. */
  lemma PauseReturnsWhenPaused(n: nat, acts: seq<Action>, states: seq<State>, i: nat, c: nat)
    requires IsRun(n, acts, states) && i < |states| && c < |states[i].pausers| && states[i].pausers[c].Waiting?
    ensures Enabled(states[i], PauseReturn(c)) <==> |states[i].workers| == n && AllPaused(states[i])
  {
    RunsKeepInv(n, acts, states, i);
    ThreadsAreFixed(n, acts, states, i);
    var s := states[i];
    CountAtMost(s.workers, IsPaused);
    if AllPaused(s) {
      CountAll(s.workers, IsPaused);
    } else {
      var w :| 0 <= w < |s.workers| && !s.workers[w].Paused?;
      assert !IsPaused(s.workers[w]);
    }
  }

  lemma {:induction false} CountAll(workers: seq<Worker>, p: Worker -> bool)
    requires forall w :: 0 <= w < |workers| ==> p(workers[w])
    ensures Count(workers, p) == |workers|
  {
    if workers != [] {
      CountAll(workers[..|workers| - 1], p);
    }
  }

  // ---- Where a worker goes ----

  /** The state after a worker makes k steps while nothing else happens. */
  ghost function Moves(s: State, w: nat, shardEmpty: bool, k: nat): (s': State)
    requires Inv(s) && w < |s.workers|
    ensures Inv(s') && |s'.workers| == |s.workers|
    ensures s'.stop == s.stop && s'.pause == s.pause && s'.drain == s.drain
  {
    if k == 0 then s
    else
      var s1 := Moves(s, w, shardEmpty, k - 1);
      MoveKeeps(s1, w, shardEmpty);
      MoveFrame(s1, w, shardEmpty);
      MoveLeavesFlags(s1, w, shardEmpty);
      Moved(s1, w, shardEmpty)
  }

  lemma MoveLeavesFlags(s: State, w: nat, shardEmpty: bool)
    requires w < |s.workers| && CountersCover(s, w)
    ensures var s' := Moved(s, w, shardEmpty); s'.stop == s.stop && s'.pause == s.pause && s'.drain == s.drain
  {
  }

  /** With no flag set a worker goes from the top of its loop to _process and back. */
  lemma FreeWorkerProcesses(s: State, w: nat, shardEmpty: bool)
    requires Inv(s) && w < |s.workers| && s.workers[w].AtTop? && !s.stop && !s.pause && !s.drain
    ensures Moves(s, w, shardEmpty, 3).workers[w].InProcess?
    ensures Moves(s, w, shardEmpty, 4).workers[w].AtTop?
  {
    assert Moves(s, w, shardEmpty, 1).workers[w].CheckPause?;
    assert Moves(s, w, shardEmpty, 2).workers[w].CheckDrain?;
  }

  /** With the pause flag set it goes to the paused region instead, is counted, and stays. */
  lemma {:induction false} PausedWorkerStays(s: State, w: nat, shardEmpty: bool, k: nat)
    requires Inv(s) && w < |s.workers| && s.workers[w].AtTop? && !s.stop && s.pause && k >= 3
    ensures Moves(s, w, shardEmpty, k).workers[w].Paused?
    ensures Moves(s, w, shardEmpty, k).numPaused == s.numPaused + 1
  {
    if k == 3 {
      assert Moves(s, w, shardEmpty, 1).workers[w].CheckPause? && Moves(s, w, shardEmpty, 1).numPaused == s.numPaused;
      assert Moves(s, w, shardEmpty, 2).workers[w].EnterPause? && Moves(s, w, shardEmpty, 2).numPaused == s.numPaused;
    } else {
      PausedWorkerStays(s, w, shardEmpty, k - 1);
    }
  }

  /** With the drain flag set it goes to the drained region if its shard is empty, and processes if not. */
  lemma DrainingWorkerGoes(s: State, w: nat, shardEmpty: bool)
    requires Inv(s) && w < |s.workers| && s.workers[w].AtTop? && !s.stop && !s.pause && s.drain
    ensures var s' := Moves(s, w, shardEmpty, 4);
            if shardEmpty then s'.workers[w].Drained? && s'.numDrained == s.numDrained + 1 else s'.workers[w].InProcess?
  {
    assert Moves(s, w, shardEmpty, 1).workers[w].CheckPause? && Moves(s, w, shardEmpty, 1).numDrained == s.numDrained;
    assert Moves(s, w, shardEmpty, 2).workers[w].CheckDrain? && Moves(s, w, shardEmpty, 2).numDrained == s.numDrained;
    assert Moves(s, w, shardEmpty, 3).workers[w].EnterDrain? && Moves(s, w, shardEmpty, 3).numDrained == s.numDrained;
  }

  /** With the stop flag set it ends. */
  lemma StoppedWorkerEnds(s: State, w: nat, shardEmpty: bool)
    requires Inv(s) && w < |s.workers| && s.workers[w].AtTop? && s.stop
    ensures Moves(s, w, shardEmpty, 1).workers[w].Exited?
  {
  }
}
