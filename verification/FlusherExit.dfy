/** Stopping the flusher: it always ends, and what it leaves unwritten is known exactly. */
module FlusherExit {
  import opened Blocks
  import opened CacheState
  import opened FlushCycle
  import opened Requests
  import opened Threads
  import opened Interleaving

  /** `shutdown` has stored the stop flag; the client makes no more requests. */
  ghost predicate Stopped(s: Sys) {
    s.stop && !s.client.Serving?
  }

  lemma StoppedStays(s: Sys, st: Step)
    requires Stopped(s) && Enabled(s, st)
    ensures Stopped(Next(s, st)) && !st.Serve? && !st.SetStop?
  {
  }

  // ---------------------------------------------------------------- termination

  /** Flusher steps left until it exits, whatever is in the channel. */
  function Remaining(s: Sys): nat {
    match s.flusher
    case Exited => 0
    case Flushing(todo, _) => 2 * |todo| + 1
    case Marking(_, todo, _) => 2 * |todo| + 2
    case Woken(_) => 2 * |Dirty(s.cache)| + 2
    case Waiting => 2 * |Dirty(s.cache)| + 3
  }

  predicate IsWait(st: Step) { st.Receive? || st.Timeout? }

  function Count(steps: seq<Step>, p: Step -> bool): nat {
    if steps == [] then 0 else (if p(steps[0]) then 1 else 0) + Count(steps[1..], p)
  }

  lemma {:induction false} DistinctSize(batch: seq<(nat, nat)>)
    requires DistinctLbas(batch)
    ensures |Lbas(batch)| == |batch|
    decreases |batch|
  {
    if batch == [] {
      assert Lbas(batch) == {};
    } else {
      LbasStep(batch);
      DistinctSize(batch[1..]);
      assert batch[0].0 !in Lbas(batch[1..]);
    }
  }

  lemma BatchSize(c: Cache, batch: seq<(nat, nat)>)
    requires IsSnapshot(c, batch)
    ensures |batch| == |Dirty(c)|
  {
    SnapshotIsPending(c, batch);
    DistinctSize(batch);
  }

  lemma StoppedStepProgress(s: Sys, st: Step)
    requires Stopped(s) && Enabled(s, st)
    ensures st.SendShutdown? || Remaining(Next(s, st)) < Remaining(s)
    ensures st.SendShutdown? ==> Remaining(Next(s, st)) == Remaining(s) && Next(s, st).client.Joining?
  {
    match st
    case Snapshot(batch) => BatchSize(s.cache, batch);
    case _ =>
  }

  lemma SomeOrder(lbas: set<nat>) returns (order: seq<nat>)
    ensures forall l :: l in order <==> l in lbas
    ensures forall j, k | 0 <= j < k < |order| :: order[j] != order[k]
    decreases |lbas|
  {
    order := [];
    if l :| l in lbas {
      var rest := SomeOrder(lbas - {l});
      order := [l] + rest;
    }
  }

  lemma SomeSnapshot(c: Cache) returns (batch: seq<(nat, nat)>)
    ensures IsSnapshot(c, batch)
  {
    var order := SomeOrder(Dirty(c));
    assert forall k | 0 <= k < |order| :: order[k] in order;
    batch := seq(|order|, k requires 0 <= k < |order| => (order[k], c.table[order[k]].poolIndex));
    forall l | l in Dirty(c) ensures exists k :: 0 <= k < |batch| && batch[k].0 == l {
      var k :| 0 <= k < |order| && order[k] == l;
      assert batch[k].0 == l;
    }
  }

  /** A stopped flusher that has not exited can take its next step: `wait` returns whether the
      channel holds a wake, a shutdown or nothing. */
  lemma StoppedNeverStuck(s: Sys) returns (st: Step)
    requires Stopped(s) && !s.flusher.Exited?
    ensures Enabled(s, st) && !st.SendShutdown? && (st.WriteOne? ==> st.io.Written?)
  {
    match s.flusher
    case Waiting => st := if s.slot.Some? then Receive else Timeout;
    case Woken(_) =>
      var batch := SomeSnapshot(s.cache);
      st := Snapshot(batch);
    case Flushing(todo, _) => st := if todo == [] then CheckStop else WriteOne(Written);
    case Marking(_, _, _) => st := MarkOne;
  }

  /** Shutdown terminates in every channel state: once the stop flag is stored the run has at most
      one more wait, one more snapshot and `Remaining` flusher steps in all. */
  lemma {:induction false} ShutdownTerminates(s: Sys, steps: seq<Step>)
    requires Stopped(s) && Feasible(s, steps)
    ensures |steps| <= Remaining(s) + (if s.client.Stopping? then 1 else 0)
    ensures Count(steps, IsWait) <= if s.flusher.Waiting? then 1 else 0
    ensures Count(steps, (st: Step) => st.Snapshot?) <= if s.flusher.Waiting? || s.flusher.Woken? then 1 else 0
    decreases |steps|
  {
    if steps == [] {
    } else {
      StoppedStays(s, steps[0]);
      StoppedStepProgress(s, steps[0]);
      ShutdownTerminates(Next(s, steps[0]), steps[1..]);
    }
  }

  lemma {:induction false} StoppedToTheEnd(s: Sys, steps: seq<Step>)
    requires Stopped(s) && Feasible(s, steps)
    ensures Stopped(Exec(s, steps))
    decreases |steps|
  {
    if steps == [] {
    } else {
      StoppedStays(s, steps[0]);
      StoppedToTheEnd(Next(s, steps[0]), steps[1..]);
    }
  }

  lemma {:induction false} SomeRunExits(s: Sys) returns (steps: seq<Step>)
    requires Stopped(s)
    ensures Feasible(s, steps) && NoWriteFails(steps) && Exec(s, steps).flusher.Exited?
    decreases Remaining(s)
  {
    if s.flusher.Exited? {
      steps := [];
    } else {
      var st := StoppedNeverStuck(s);
      StoppedStays(s, st);
      StoppedStepProgress(s, st);
      var rest := SomeRunExits(Next(s, st));
      steps := [st] + rest;
      assert steps[1..] == rest;
    }
  }

  /** Shutdown exits: after stop every run that the flusher cannot extend ends with the flusher gone,
      and there is such a run, without failing writes. */
  lemma ShutdownExits(s: Sys)
    requires Stopped(s)
    ensures forall steps | Feasible(s, steps) && (forall st | Enabled(Exec(s, steps), st) :: st.SendShutdown?) ::
              Exec(s, steps).flusher.Exited?
    ensures exists steps :: Feasible(s, steps) && NoWriteFails(steps) && Exec(s, steps).flusher.Exited?
  {
    forall steps | Feasible(s, steps) && (forall st | Enabled(Exec(s, steps), st) :: st.SendShutdown?)
      ensures Exec(s, steps).flusher.Exited?
    {
      StoppedToTheEnd(s, steps);
      if !Exec(s, steps).flusher.Exited? {
        var st := StoppedNeverStuck(Exec(s, steps));
      }
    }
    var run := SomeRunExits(s);
  }

  // ---------------------------------------------------------------- completeness

  /** The dirty entries the flusher will not reach: none if its snapshot is still to come, else
      those neither on its list nor just written. */
  function Unreached(s: Sys): set<nat> {
    match s.flusher
    case Waiting => {}
    case Woken(_) => {}
    case Flushing(todo, _) => Dirty(s.cache) - Lbas(todo)
    case Marking(l, todo, _) => Dirty(s.cache) - Lbas(todo) - {l}
    case Exited => Dirty(s.cache)
  }

  lemma UnreachedStays(s: Sys, st: Step)
    requires Inv(s) && Stopped(s) && Enabled(s, st) && (st.WriteOne? ==> st.io.Written?)
    ensures Unreached(Next(s, st)) == Unreached(s)
    ensures forall l | l in Unreached(s) :: At(Next(s, st).cache.device, l) == At(s.cache.device, l)
  {
  }

  lemma {:induction false} UnreachedAtExit(s: Sys, steps: seq<Step>)
    requires Inv(s) && Stopped(s) && Feasible(s, steps) && NoWriteFails(steps)
    ensures Unreached(Exec(s, steps)) == Unreached(s)
    ensures forall l | l in Unreached(s) :: At(Exec(s, steps).cache.device, l) == At(s.cache.device, l)
    decreases |steps|
  {
    if steps == [] {
    } else {
      UnreachedStays(s, steps[0]);
      StoppedStays(s, steps[0]);
      QuietStepKeepsInv(s, steps[0]);
      assert forall k | 0 <= k < |steps| - 1 :: steps[1..][k] == steps[k + 1];
      UnreachedAtExit(Next(s, steps[0]), steps[1..]);
    }
  }

  /** The view as a run of blocks. */
  function ViewOf(s: Sys): (ref: seq<Block>)
    ensures Shows(s.cache, ref)
  {
    seq(|s.cache.device|, (l: nat) => View(s.cache, l))
  }

  lemma {:induction false} StoppedMakesNoRequests(s: Sys, steps: seq<Step>)
    requires Stopped(s) && Feasible(s, steps)
    ensures NoRequests(steps)
    decreases |steps|
  {
    if steps == [] {
    } else {
      StoppedStays(s, steps[0]);
      StoppedMakesNoRequests(Next(s, steps[0]), steps[1..]);
      forall k | 0 <= k < |steps| ensures !steps[k].Serve? {
        assert k > 0 ==> steps[k] == steps[1..][k - 1];
      }
    }
  }

  /** Shutdown completeness, exactly: if no device write fails after stop, then at the flusher's
      exit the dirty entries are those it had already passed over when stop was stored; their device
      blocks are as they were then, and every other LBA has on the device what clients saw.  So nothing
      is left dirty if and only if nothing was `Unreached` at stop, which holds whenever stop does not
      land inside a cycle, and the device shows it all if and only if it already did for those. */
  lemma ShutdownCompleteExactly(s: Sys, steps: seq<Step>)
    requires Inv(s) && Stopped(s) && Feasible(s, steps) && NoWriteFails(steps)
    requires Exec(s, steps).flusher.Exited?
    ensures var c' := Exec(s, steps).cache;
            && Dirty(c') == Unreached(s)
            && (Unreached(s) == {} <==> Dirty(c') == {})
            && (s.flusher.Waiting? || s.flusher.Woken? ==> Dirty(c') == {})
            && (forall l: nat | l < |s.cache.device| :: View(c', l) == View(s.cache, l))
            && (forall l: nat | l < |s.cache.device| && l !in Unreached(s) :: At(c'.device, l) == View(s.cache, l))
            && (forall l | l in Unreached(s) :: At(c'.device, l) == At(s.cache.device, l))
            && ((forall l: nat | l < |s.cache.device| :: At(c'.device, l) == View(s.cache, l)) <==>
                forall l | l in Unreached(s) :: At(s.cache.device, l) == View(s.cache, l))
  {
    UnreachedAtExit(s, steps);
    var ref, s' := ViewOf(s), Exec(s, steps);
    StoppedMakesNoRequests(s, steps);
    QuietKeepsInv(s, ref, steps);
    forall l: nat | l < |ref| && l !in Unreached(s) ensures At(s'.cache.device, l) == View(s.cache, l) {
      assert View(s'.cache, l) == ref[l];
      assert l in s'.cache.table ==> l !in Dirty(s'.cache);
    }
  }
}
