/**
  Coherence when the flusher's steps interleave with requests.  No lock spans the flusher's
  snapshot, device write and `mark_clean`, so some requests endanger it.  `Disturbs` says which,
  before the request is made; a run is safe throughout if and only if none of its requests disturbs.
 */
module Interleaving {
  import opened Blocks
  import opened CacheState
  import opened FlushCycle
  import opened Requests
  import opened Threads

  /** After the request slot `i` no longer holds the block of `l`: the request fills the slot with a
      different block, or writes `l` anew elsewhere. */
  ghost predicate Spoils(c: Cache, req: Request, e: Env, l: nat, i: nat)
    requires VictimOk(c, e)
  {
    var writesHere := req.lba == l && Lands(c, req, e);
    if Fills(c, req, e, i) then !writesHere && Incoming(c, req, e, i) != View(c, l)
    else writesHere && req.data != View(c, l)
  }

  /** The request spoils a pair that the cycle under way has still to write, or writes new data to
      the block that the flusher has written back and is about to mark clean. */
  ghost predicate Disturbs(s: Sys, st: Step)
    requires Enabled(s, st)
  {
    st.Serve? &&
    var c, req, e := s.cache, st.req, st.env;
    || (exists k :: 0 <= k < |Todo(s)| && Spoils(c, req, e, Todo(s)[k].0, Todo(s)[k].1))
    || (s.flusher.Marking? && req.lba == s.flusher.lba && Lands(c, req, e) && req.data != View(c, req.lba))
  }

  /** A pair that still names a cached block and its slot is spoiled in one way: the request evicts
      the block and refills its slot with a different one. */
  lemma SpoiltByEviction(c: Cache, req: Request, e: Env, l: nat)
    requires WellFormed(c) && VictimOk(c, e) && l in c.table
    ensures var i := c.table[l].poolIndex;
            Spoils(c, req, e, l, i) <==> Evicts(c, req, e) && e.victim == l && Incoming(c, req, e, i) != View(c, l)
  {
    AcquireTakesOneSlot(c, e);
  }

  /** What undisturbed steps keep: clean entries equal their device blocks, the slot of each pair
      still to be written holds the block clients see at its LBA, and a block about to be marked
      clean is on the device. */
  ghost predicate Inv(s: Sys) {
    && Sound(s)
    && Coherent(s.cache)
    && (forall k | 0 <= k < |Todo(s)| :: At(s.cache.pool, Todo(s)[k].1) == View(s.cache, Todo(s)[k].0))
    && (s.flusher.Marking? ==> At(s.cache.device, s.flusher.lba) == View(s.cache, s.flusher.lba))
  }

  ghost predicate Consistent(s: Sys, ref: seq<Block>) {
    Coherent(s.cache) && Shows(s.cache, ref)
  }

  /** The reference after a step: only a successful write changes it. */
  ghost function RefStep(s: Sys, st: Step, ref: seq<Block>): seq<Block>
    requires Enabled(s, st)
  {
    if st.Serve? then RefNext(ref, st.req, Handle(s.cache, st.req, st.env).reply) else ref
  }

  // ---------------------------------------------------------------- one step

  /** Writing the block clients see at `l` to its device block, wholly or in part, shows nowhere. */
  lemma WriteBackOfView(c: Cache, l: nat, i: nat, io: WriteIo)
    requires WellFormed(c) && Coherent(c) && At(c.pool, i) == View(c, l) && l < |c.device|
    ensures var c' := WriteBack(c, l, i, io);
            && Coherent(c')
            && (forall m :: View(c', m) == View(c, m))
            && (io.Written? ==> At(c'.device, l) == View(c', l))
            && (forall m | At(c.device, m) == View(c, m) :: At(c'.device, m) == View(c', m))
  {
    assert l !in c.table || !c.table[l].dirty ==> At(c.device, l) == View(c, l);
  }

  lemma WriteOneKeepsInv(s: Sys, st: Step)
    requires Inv(s) && Enabled(s, st) && st.WriteOne?
    ensures Inv(Next(s, st)) && forall l :: View(Next(s, st).cache, l) == View(s.cache, l)
  {
    var p := s.flusher.todo[0];
    assert Todo(s)[0] == p;
    StepConservesSlots(s, st);
    WriteBackOfView(s.cache, p.0, p.1, st.io);
    assert Todo(Next(s, st)) == Todo(s)[1..];
  }

  lemma MarkOneKeepsInv(s: Sys, st: Step)
    requires Inv(s) && Enabled(s, st) && st.MarkOne?
    ensures Inv(Next(s, st)) && forall l :: View(Next(s, st).cache, l) == View(s.cache, l)
  {
    StepConservesSlots(s, st);
    MarkCleanSound(s.cache, s.flusher.lba);
    assert Todo(Next(s, st)) == Todo(s);
  }

  /** Steps that are not requests keep the invariant and the view. */
  lemma QuietStepKeepsInv(s: Sys, st: Step)
    requires Inv(s) && Enabled(s, st) && !st.Serve?
    ensures Inv(Next(s, st)) && forall l :: View(Next(s, st).cache, l) == View(s.cache, l)
    ensures |Next(s, st).cache.device| == |s.cache.device|
  {
    match st
    case Snapshot(batch) =>
      SnapshotInRange(s.cache, batch);
      assert forall k | 0 <= k < |batch| :: batch[k].0 in Dirty(s.cache);
    case WriteOne(_) => WriteOneKeepsInv(s, st);
    case MarkOne => MarkOneKeepsInv(s, st);
    case SetStop | SendShutdown | Receive | Timeout | CheckStop => assert Todo(Next(s, st)) == Todo(s);
  }

  /** After a request, slot `i` holds the block of `l` exactly if the request did not spoil the pair. */
  lemma SpoilsExactly(c: Cache, req: Request, e: Env, l: nat, i: nat)
    requires WellFormed(c) && Coherent(c) && VictimOk(c, e) && i < |c.pool| && At(c.pool, i) == View(c, l)
    ensures var c' := Handle(c, req, e).cache; At(c'.pool, i) == View(c', l) <==> !Spoils(c, req, e, l, i)
  {
    LandsExactly(c, req, e);
    HandlePool(c, req, e, i);
    HandleKeepsView(c, req, e);
  }

  /** After a request, a device block that was current is so exactly if the request did not write it anew. */
  lemma StaleExactly(c: Cache, req: Request, e: Env, l: nat)
    requires WellFormed(c) && Coherent(c) && VictimOk(c, e) && At(c.device, l) == View(c, l)
    ensures var o := Handle(c, req, e);
            At(o.cache.device, l) == View(o.cache, l) <==> !(req.lba == l && Lands(c, req, e) && req.data != View(c, l))
  {
    LandsExactly(c, req, e);
    HandleDevice(c, req, e);
    HandleKeepsView(c, req, e);
  }

  /** A request keeps the invariant if and only if it does not disturb the cycle under way. */
  lemma RequestKeepsInvExactly(s: Sys, st: Step)
    requires Inv(s) && Enabled(s, st) && st.Serve?
    ensures Inv(Next(s, st)) <==> !Disturbs(s, st)
  {
    var c, req, e, s' := s.cache, st.req, st.env, Next(s, st);
    StepConservesSlots(s, st);
    HandleKeepsView(c, req, e);
    assert Todo(s') == Todo(s);
    forall k | 0 <= k < |Todo(s)|
      ensures At(s'.cache.pool, Todo(s)[k].1) == View(s'.cache, Todo(s)[k].0) <==>
              !Spoils(c, req, e, Todo(s)[k].0, Todo(s)[k].1)
    {
      SpoilsExactly(c, req, e, Todo(s)[k].0, Todo(s)[k].1);
    }
    if s.flusher.Marking? {
      StaleExactly(c, req, e, s.flusher.lba);
    }
  }

  /** Every step moves the view with the reference, and a successful read returns what it holds. */
  lemma StepShows(s: Sys, st: Step, ref: seq<Block>)
    requires Inv(s) && Shows(s.cache, ref) && Enabled(s, st)
    ensures Consistent(Next(s, st), RefStep(s, st, ref))
    ensures st.Serve? ==>
              var reply := Handle(s.cache, st.req, st.env).reply;
              reply.ReadOk? ==> st.req.lba < |ref| && reply.data == ref[st.req.lba]
  {
    if st.Serve? {
      HandleRefinesReference(s.cache, st.req, st.env, ref);
    } else {
      QuietStepKeepsInv(s, st);
    }
  }

  // ---------------------------------------------------------------- safe states

  ghost predicate NoRequests(steps: seq<Step>) {
    forall k | 0 <= k < |steps| :: !steps[k].Serve?
  }

  /** Whatever the flusher does until the next request, the state stays consistent. */
  ghost predicate Safe(s: Sys, ref: seq<Block>) {
    forall tail | NoRequests(tail) && Feasible(s, tail) :: Consistent(Exec(s, tail), ref)
  }

  lemma {:induction false} QuietKeepsInv(s: Sys, ref: seq<Block>, steps: seq<Step>)
    requires Inv(s) && Shows(s.cache, ref) && Feasible(s, steps) && NoRequests(steps)
    ensures Inv(Exec(s, steps)) && Consistent(Exec(s, steps), ref)
    decreases |steps|
  {
    if steps == [] {
    } else {
      QuietStepKeepsInv(s, steps[0]);
      assert forall k | 0 <= k < |steps| - 1 :: steps[1..][k] == steps[k + 1];
      QuietKeepsInv(Next(s, steps[0]), ref, steps[1..]);
    }
  }

  /** `n` blocks written back and marked clean in a row. */
  function Passing(n: nat): seq<Step> {
    if n == 0 then [] else [WriteOne(Written), MarkOne] + Passing(n - 1)
  }

  /** The flusher's writes reach pair `k`: its slot is on the device under its LBA, whose entry, if
      there is one, is clean. */
  lemma {:induction false} PassingReaches(s: Sys, k: nat)
    requires s.flusher.Flushing? && k < |s.flusher.todo| && s.flusher.todo[k].0 < |s.cache.device|
    ensures NoRequests(Passing(k + 1)) && Feasible(s, Passing(k + 1)) && NoWriteFails(Passing(k + 1))
    ensures var c, c', l := s.cache, Exec(s, Passing(k + 1)).cache, s.flusher.todo[k].0;
            && c'.table.Keys == c.table.Keys && c'.pool == c.pool
            && (l in c.table ==> c'.table[l].poolIndex == c.table[l].poolIndex && !c'.table[l].dirty)
            && At(c'.device, l) == At(c.pool, s.flusher.todo[k].1)
    decreases k
  {
    var steps := Passing(k + 1);
    var s1 := Next(s, WriteOne(Written));
    var s2 := Next(s1, MarkOne);
    assert steps[0] == WriteOne(Written) && steps[1..][0] == MarkOne && steps[1..][1..] == Passing(k);
    assert steps == [WriteOne(Written), MarkOne] + Passing(k);
    if k == 0 {
      assert Passing(0) == [];
      assert Feasible(s2, []) && Exec(s2, []) == s2;
    } else {
      PassingReaches(s2, k - 1);
    }
  }

  /** A pair whose slot holds another block than its LBA's shows, although no write fails. */
  lemma BadPairShows(s: Sys, ref: seq<Block>, k: nat) returns (tail: seq<Step>)
    requires Sound(s) && Consistent(s, ref) && k < |Todo(s)|
    requires At(s.cache.pool, Todo(s)[k].1) != View(s.cache, Todo(s)[k].0)
    ensures NoRequests(tail) && NoWriteFails(tail) && Feasible(s, tail) && !Consistent(Exec(s, tail), ref)
  {
    var l := Todo(s)[k].0;
    if s.flusher.Marking? {
      PassingReaches(Next(s, MarkOne), k);
      tail := [MarkOne] + Passing(k + 1);
      assert tail[1..] == Passing(k + 1);
    } else {
      PassingReaches(s, k);
      tail := Passing(k + 1);
    }
    var c' := Exec(s, tail).cache;
    assert l in c'.table ==> View(c', l) == View(s.cache, l);
  }

  /** A block about to be marked clean without being on the device shows at the mark. */
  lemma BadMarkShows(s: Sys, ref: seq<Block>) returns (tail: seq<Step>)
    requires Sound(s) && Consistent(s, ref) && s.flusher.Marking?
    requires At(s.cache.device, s.flusher.lba) != View(s.cache, s.flusher.lba)
    ensures NoRequests(tail) && NoWriteFails(tail) && Feasible(s, tail) && !Consistent(Exec(s, tail), ref)
  {
    var l := s.flusher.lba;
    tail := [MarkOne];
    assert tail[1..] == [];
    assert Feasible(Next(s, MarkOne), []) && Exec(s, tail) == Next(s, MarkOne);
    assert l in s.cache.table;
    assert !Exec(s, tail).cache.table[l].dirty;
  }

  lemma UnsafeShows(s: Sys, ref: seq<Block>) returns (tail: seq<Step>)
    requires Sound(s) && Consistent(s, ref) && !Inv(s)
    ensures NoRequests(tail) && NoWriteFails(tail) && Feasible(s, tail) && !Consistent(Exec(s, tail), ref)
  {
    if k :| 0 <= k < |Todo(s)| && At(s.cache.pool, Todo(s)[k].1) != View(s.cache, Todo(s)[k].0) {
      tail := BadPairShows(s, ref, k);
    } else {
      tail := BadMarkShows(s, ref);
    }
  }

  /** The invariant is exact: a consistent state is safe if and only if it satisfies it.  The
      dangerous continuation needs no failing write, and failing writes endanger no safe state. */
  lemma SafeExactly(s: Sys, ref: seq<Block>)
    requires Sound(s) && Consistent(s, ref)
    ensures Safe(s, ref) <==> Inv(s)
    ensures !Inv(s) ==>
              exists tail ::
                NoRequests(tail) && NoWriteFails(tail) && Feasible(s, tail) && !Consistent(Exec(s, tail), ref)
  {
    if Inv(s) {
      forall tail | NoRequests(tail) && Feasible(s, tail) ensures Consistent(Exec(s, tail), ref) {
        QuietKeepsInv(s, ref, tail);
      }
    } else {
      var tail := UnsafeShows(s, ref);
    }
  }

  /** Exactly when a request is safe: from a safe state, every continuation without further requests
      stays consistent with the reference if and only if the request does not disturb the cycle
      under way. */
  lemma DisturbanceExact(s: Sys, st: Step, ref: seq<Block>)
    requires Inv(s) && Shows(s.cache, ref) && Enabled(s, st)
    ensures Safe(Next(s, st), RefStep(s, st, ref)) <==> !Disturbs(s, st)
    ensures Inv(Next(s, st)) <==> !Disturbs(s, st)
  {
    StepShows(s, st, ref);
    StepConservesSlots(s, st);
    if st.Serve? {
      RequestKeepsInvExactly(s, st);
    } else {
      QuietStepKeepsInv(s, st);
    }
    SafeExactly(Next(s, st), RefStep(s, st, ref));
  }

  /** Even if no device write fails, evicting a block still to be written loses data as soon as its
      slot holds anything else: the cycle writes the slot's new block over the evicted one. */
  lemma EvictedPendingOverwritten(s: Sys, st: Step, ref: seq<Block>, k: nat) returns (tail: seq<Step>)
    requires Inv(s) && Shows(s.cache, ref) && Enabled(s, st) && st.Serve? && k < |Todo(s)|
    requires Evicts(s.cache, st.req, st.env) && st.env.victim == Todo(s)[k].0
    requires At(Next(s, st).cache.pool, Todo(s)[k].1) != View(s.cache, st.env.victim)
    ensures var s' := Next(s, st);
            && NoRequests(tail) && NoWriteFails(tail) && Feasible(s', tail)
            && !Consistent(Exec(s', tail), RefStep(s, st, ref))
  {
    StepShows(s, st, ref);
    StepConservesSlots(s, st);
    HandleKeepsView(s.cache, st.req, st.env);
    assert Todo(Next(s, st)) == Todo(s);
    tail := BadPairShows(Next(s, st), RefStep(s, st, ref), k);
  }

  // ---------------------------------------------------------------- whole runs

  ghost predicate Undisturbed(s: Sys, steps: seq<Step>)
    requires Feasible(s, steps)
    decreases |steps|
  {
    steps == [] || (!Disturbs(s, steps[0]) && Undisturbed(Next(s, steps[0]), steps[1..]))
  }

  /** Every state of the run is safe, and so coherent and showing the reference. */
  ghost predicate AlwaysSafe(s: Sys, ref: seq<Block>, steps: seq<Step>)
    requires Feasible(s, steps)
    decreases |steps|
  {
    Safe(s, ref) && (steps == [] || AlwaysSafe(Next(s, steps[0]), RefStep(s, steps[0], ref), steps[1..]))
  }

  /** The view follows the reference, and every successful read of the run returned the block last
      written to its LBA. */
  ghost predicate ReadsAgree(s: Sys, ref: seq<Block>, steps: seq<Step>)
    requires Feasible(s, steps)
    decreases |steps|
  {
    && Shows(s.cache, ref)
    && (steps != [] ==>
          && (steps[0].Serve? ==>
                var reply := Handle(s.cache, steps[0].req, steps[0].env).reply;
                reply.ReadOk? ==> steps[0].req.lba < |ref| && reply.data == ref[steps[0].req.lba])
          && ReadsAgree(Next(s, steps[0]), RefStep(s, steps[0], ref), steps[1..]))
  }

  /** The reference at the end of a run. */
  ghost function RefAfter(s: Sys, ref: seq<Block>, steps: seq<Step>): seq<Block>
    requires Feasible(s, steps)
    decreases |steps|
  {
    if steps == [] then ref else RefAfter(Next(s, steps[0]), RefStep(s, steps[0], ref), steps[1..])
  }

  /** Interleaved coherence: in every undisturbed run all successful reads return the block last
      written to their LBA, and the run ends coherent and showing the reference. */
  lemma {:induction false} InterleavedCoherence(s: Sys, ref: seq<Block>, steps: seq<Step>)
    requires Inv(s) && Shows(s.cache, ref) && Feasible(s, steps) && Undisturbed(s, steps)
    ensures ReadsAgree(s, ref, steps)
    ensures Inv(Exec(s, steps)) && Consistent(Exec(s, steps), RefAfter(s, ref, steps))
    decreases |steps|
  {
    if steps == [] {
    } else {
      StepShows(s, steps[0], ref);
      DisturbanceExact(s, steps[0], ref);
      InterleavedCoherence(Next(s, steps[0]), RefStep(s, steps[0], ref), steps[1..]);
    }
  }

  /** The exact condition over whole runs: every state of a run is safe if and only if none of its
      requests disturbs. */
  lemma {:induction false} SafeRunsExactly(s: Sys, ref: seq<Block>, steps: seq<Step>)
    requires Inv(s) && Shows(s.cache, ref) && Feasible(s, steps)
    ensures AlwaysSafe(s, ref, steps) <==> Undisturbed(s, steps)
    decreases |steps|
  {
    SafeExactly(s, ref);
    if steps == [] {
    } else {
      var s1, ref1 := Next(s, steps[0]), RefStep(s, steps[0], ref);
      DisturbanceExact(s, steps[0], ref);
      if !Disturbs(s, steps[0]) {
        StepShows(s, steps[0], ref);
        SafeRunsExactly(s1, ref1, steps[1..]);
      } else {
        assert !AlwaysSafe(s1, ref1, steps[1..]);
      }
    }
  }

  lemma StartedInv(s: Sys)
    requires Started(s)
    ensures Inv(s) && Shows(s.cache, s.cache.device)
  {
  }

  // ---------------------------------------------------------------- whole cycles

  /** Requests arrive only while no cycle is under way, so that each cycle runs whole. */
  ghost predicate WholeCycles(s: Sys, steps: seq<Step>)
    requires Feasible(s, steps)
    decreases |steps|
  {
    steps == [] ||
    ((steps[0].Serve? ==> !s.flusher.Flushing? && !s.flusher.Marking?) && WholeCycles(Next(s, steps[0]), steps[1..]))
  }

  lemma {:induction false} WholeCyclesUndisturbed(s: Sys, steps: seq<Step>)
    requires Feasible(s, steps) && WholeCycles(s, steps)
    ensures Undisturbed(s, steps)
    decreases |steps|
  {
    if steps == [] {
    } else {
      WholeCyclesUndisturbed(Next(s, steps[0]), steps[1..]);
    }
  }

  /** Refinement with failures: a started engine whose flush cycles run whole is safe throughout and
      behaves as the plain run of blocks it began with, whichever device operations fail and
      whatever they tear. */
  lemma RefinementWithFailures(s: Sys, steps: seq<Step>)
    requires Started(s) && Feasible(s, steps) && WholeCycles(s, steps)
    ensures ReadsAgree(s, s.cache.device, steps) && AlwaysSafe(s, s.cache.device, steps)
  {
    StartedInv(s);
    WholeCyclesUndisturbed(s, steps);
    InterleavedCoherence(s, s.cache.device, steps);
    SafeRunsExactly(s, s.cache.device, steps);
  }
}
