/**
  One client thread and the flusher, as a step machine.  A client request is one step.  The
  flusher's wait, dirty snapshot, device write, `mark_clean` and stop check are separate steps,
  because the flusher holds no lock between them (`flusher.rs`).  `shutdown` is two steps: the
  stop flag is stored, then the message is sent if the one-slot channel has room (`sync.rs`).
 */
module Threads {
  import opened Blocks
  import opened CacheState
  import opened FlushCycle
  import opened Requests

  datatype Signal = Wake | Shutdown

  /** Where the flush thread is: `Woken` has returned from `wait` but not yet taken its
      snapshot; `Marking` has written `lba` to the device but not yet marked it clean. */
  datatype FlusherPc =
    | Waiting
    | Woken(signal: Option<Signal>)
    | Flushing(todo: seq<(nat, nat)>, signal: Option<Signal>)
    | Marking(lba: nat, todo: seq<(nat, nat)>, signal: Option<Signal>)
    | Exited

  datatype ClientPc = Serving | Stopping | Joining

  datatype Sys = Sys(cache: Cache, slot: Option<Signal>, stop: bool, client: ClientPc, flusher: FlusherPc)

  datatype Step =
    | Serve(req: Request, env: Env)
    | SetStop
    | SendShutdown
    | Receive
    | Timeout
    | Snapshot(batch: seq<(nat, nat)>)
    | WriteOne(io: WriteIo)
    | MarkOne
    | CheckStop

  /** `try_send` on a channel of capacity one: a full channel drops the message. */
  function TrySend(slot: Option<Signal>, signal: Signal): Option<Signal> {
    if slot.None? then Some(signal) else slot
  }

  /** `wait` returns a pending message at once; it times out only on an empty channel. */
  ghost predicate Enabled(s: Sys, st: Step) {
    match st
    case Serve(_, env) => s.client.Serving? && VictimOk(s.cache, env)
    case SetStop => s.client.Serving?
    case SendShutdown => s.client.Stopping?
    case Receive => s.flusher.Waiting? && s.slot.Some?
    case Timeout => s.flusher.Waiting? && s.slot.None?
    case Snapshot(batch) => s.flusher.Woken? && IsSnapshot(s.cache, batch)
    case WriteOne(_) => s.flusher.Flushing? && s.flusher.todo != []
    case MarkOne => s.flusher.Marking?
    case CheckStop => s.flusher.Flushing? && s.flusher.todo == []
  }

  ghost function Next(s: Sys, st: Step): Sys
    requires Enabled(s, st)
  {
    match st
    case Serve(req, env) =>
      s.(cache := Handle(s.cache, req, env).cache,
         slot := if Wakes(s.cache, req, env) then TrySend(s.slot, Wake) else s.slot)
    case SetStop => s.(stop := true, client := Stopping)
    case SendShutdown => s.(slot := TrySend(s.slot, Shutdown), client := Joining)
    case Receive => s.(slot := None, flusher := Woken(s.slot))
    case Timeout => s.(flusher := Woken(None))
    case Snapshot(batch) => s.(flusher := Flushing(batch, s.flusher.signal))
    case WriteOne(io) =>
      var p, rest := s.flusher.todo[0], s.flusher.todo[1..];
      s.(cache := WriteBack(s.cache, p.0, p.1, io),
         flusher := if io.Written? then Marking(p.0, rest, s.flusher.signal) else Flushing(rest, s.flusher.signal))
    case MarkOne =>
      s.(cache := MarkClean(s.cache, s.flusher.lba), flusher := Flushing(s.flusher.todo, s.flusher.signal))
    case CheckStop =>
      s.(flusher := if s.flusher.signal == Some(Shutdown) || s.stop then Exited else Waiting)
  }

  /** The steps can happen one after the other from `s`. */
  ghost predicate Feasible(s: Sys, steps: seq<Step>)
    decreases |steps|
  {
    steps == [] || (Enabled(s, steps[0]) && Feasible(Next(s, steps[0]), steps[1..]))
  }

  ghost function Exec(s: Sys, steps: seq<Step>): Sys
    requires Feasible(s, steps)
    decreases |steps|
  {
    if steps == [] then s else Exec(Next(s, steps[0]), steps[1..])
  }

  lemma {:induction false} ExecConcat(s: Sys, a: seq<Step>, b: seq<Step>)
    ensures Feasible(s, a + b) <==> Feasible(s, a) && Feasible(Exec(s, a), b)
    ensures Feasible(s, a + b) ==> Exec(s, a + b) == Exec(Exec(s, a), b)
    decreases |a|
  {
    if a == [] {
      assert a + b == b;
    } else {
      assert (a + b)[0] == a[0] && (a + b)[1..] == a[1..] + b;
      if Enabled(s, a[0]) {
        ExecConcat(Next(s, a[0]), a[1..], b);
      }
    }
  }

  lemma ExecOne(s: Sys, st: Step)
    requires Enabled(s, st)
    ensures Feasible(s, [st]) && Exec(s, [st]) == Next(s, st)
  {
    assert [st][1..] == [];
    assert Feasible(Next(s, st), []) && Exec(Next(s, st), []) == Next(s, st);
  }

  /** A started engine: nothing cached, channel empty, flusher about to wait. */
  ghost predicate Started(s: Sys) {
    Fresh(s.cache) && s.slot == None && !s.stop && s.client == Serving && s.flusher == Waiting
  }

  /** The pairs the flusher has still to write in the cycle under way. */
  function Todo(s: Sys): seq<(nat, nat)> {
    if s.flusher.Flushing? || s.flusher.Marking? then s.flusher.todo else []
  }

  ghost predicate NoWriteFails(steps: seq<Step>) {
    forall k | 0 <= k < |steps| :: steps[k].WriteOne? ==> steps[k].io.Written?
  }

  /** The flusher's steps for one pair of its list, when the write ends as `io`. */
  function PairSteps(io: WriteIo): seq<Step> {
    if io.Written? then [WriteOne(io), MarkOne] else [WriteOne(io)]
  }

  /** The flusher's steps from its snapshot to the end of its list. */
  function CycleSteps(ios: seq<WriteIo>): seq<Step> {
    if ios == [] then [] else PairSteps(ios[0]) + CycleSteps(ios[1..])
  }

  ghost function AfterFlush(s: Sys, c: Cache, todo: seq<(nat, nat)>): Sys
    requires s.flusher.Flushing?
  {
    s.(cache := c, flusher := Flushing(todo, s.flusher.signal))
  }

  lemma PairIsFlushOne(s: Sys, io: WriteIo)
    requires s.flusher.Flushing? && s.flusher.todo != []
    ensures Feasible(s, PairSteps(io))
    ensures Exec(s, PairSteps(io)) == AfterFlush(s, FlushOne(s.cache, s.flusher.todo[0], io), s.flusher.todo[1..])
  {
    var s1 := Next(s, WriteOne(io));
    if io.Written? {
      var s2 := Next(s1, MarkOne);
      assert PairSteps(io)[1..] == [MarkOne] && [MarkOne][1..] == [];
      assert Feasible(s2, []) && Exec(s2, []) == s2;
    } else {
      assert PairSteps(io)[1..] == [];
      assert Feasible(s1, []) && Exec(s1, []) == s1;
    }
  }

  /** Run without interruption these steps are the loop of `flush_dirty_blocks`. */
  lemma {:induction false} CycleIsFlush(s: Sys, ios: seq<WriteIo>)
    requires s.flusher.Flushing? && |ios| == |s.flusher.todo|
    ensures Feasible(s, CycleSteps(ios))
    ensures Exec(s, CycleSteps(ios)) == AfterFlush(s, Flush(s.cache, s.flusher.todo, ios).0, [])
    decreases |ios|
  {
    if ios == [] {
      assert s.flusher.todo == [];
    } else {
      var s1 := AfterFlush(s, FlushOne(s.cache, s.flusher.todo[0], ios[0]), s.flusher.todo[1..]);
      PairIsFlushOne(s, ios[0]);
      CycleIsFlush(s1, ios[1..]);
      ExecConcat(s, PairSteps(ios[0]), CycleSteps(ios[1..]));
    }
  }

  // ---------------------------------------------------------------- slot conservation

  /** Slots are sound and every address the flusher is about to use is in range. */
  ghost predicate Sound(s: Sys) {
    && WellFormed(s.cache)
    && forall k | 0 <= k < |Todo(s)| :: Todo(s)[k].0 < |s.cache.device| && Todo(s)[k].1 < |s.cache.pool|
  }

  ghost predicate StepLeaks(s: Sys, st: Step)
    requires Enabled(s, st)
  {
    st.Serve? && Leaks(s.cache, st.req, st.env)
  }

  /** How many misses of the run lost their slot to a failed device read. */
  ghost function Leaked(s: Sys, steps: seq<Step>): nat
    requires Feasible(s, steps)
    decreases |steps|
  {
    if steps == [] then 0
    else (if StepLeaks(s, steps[0]) then 1 else 0) + Leaked(Next(s, steps[0]), steps[1..])
  }

  lemma MarkCleanConserves(c: Cache, l: nat)
    requires WellFormed(c)
    ensures WellFormed(MarkClean(c, l)) && InUse(MarkClean(c, l)) == InUse(c)
  {
    if l in c.table {
      AddOne(c.table, l, c.table[l].(dirty := false));
    }
  }

  lemma SnapshotInRange(c: Cache, batch: seq<(nat, nat)>)
    requires WellFormed(c) && IsSnapshot(c, batch)
    ensures forall k | 0 <= k < |batch| :: batch[k].0 < |c.device| && batch[k].1 < |c.pool|
  {
  }

  lemma ServeConservesSlots(s: Sys, st: Step)
    requires Sound(s) && Enabled(s, st) && st.Serve?
    ensures Sound(Next(s, st))
    ensures InUse(Next(s, st).cache) + (if StepLeaks(s, st) then 1 else 0) == InUse(s.cache)
    ensures |Next(s, st).cache.pool| == |s.cache.pool|
  {
    HandleConservesSlots(s.cache, st.req, st.env);
    HandleShape(s.cache, st.req, st.env);
    assert Todo(Next(s, st)) == Todo(s);
  }

  lemma StepConservesSlots(s: Sys, st: Step)
    requires Sound(s) && Enabled(s, st)
    ensures Sound(Next(s, st))
    ensures InUse(Next(s, st).cache) + (if StepLeaks(s, st) then 1 else 0) == InUse(s.cache)
    ensures |Next(s, st).cache.pool| == |s.cache.pool|
  {
    match st
    case Serve(_, _) => ServeConservesSlots(s, st);
    case Snapshot(batch) => SnapshotInRange(s.cache, batch);
    case WriteOne(io) =>
      assert Todo(Next(s, st)) == Todo(s)[1..];
    case MarkOne =>
      MarkCleanConserves(s.cache, s.flusher.lba);
      assert Todo(Next(s, st)) == Todo(s);
    case SetStop | SendShutdown | Receive | Timeout | CheckStop =>
      assert Todo(Next(s, st)) == Todo(s);
  }

  /** Slot conservation in every interleaving, disturbed or not: the free list stays free of
      duplicates and disjoint from the entries' slots, entries never share a slot, and the slots
      in circulation fall by exactly one at each miss whose device read fails. */
  lemma {:induction false} SlotConservation(s: Sys, steps: seq<Step>)
    requires Sound(s) && Feasible(s, steps)
    ensures var s' := Exec(s, steps);
            && Sound(s')
            && |s'.cache.free| + |s'.cache.table| + Leaked(s, steps) == |s.cache.free| + |s.cache.table|
            && |s'.cache.pool| == |s.cache.pool|
    decreases |steps|
  {
    if steps == [] {
    } else {
      StepConservesSlots(s, steps[0]);
      SlotConservation(Next(s, steps[0]), steps[1..]);
    }
  }

  /** Allocation progress: after any run of a started engine, a request that needs a slot meets
      the "inconsistent state" error if and only if every slot has been lost; otherwise it fails
      only by the device, in the write-back of its victim or in its own read. */
  lemma AllocationProgress(s: Sys, steps: seq<Step>, req: Request, env: Env)
    requires Started(s) && Feasible(s, steps) && VictimOk(Exec(s, steps).cache, env)
    requires Misses(Exec(s, steps).cache, req)
    ensures var c := Exec(s, steps).cache;
            var reply := Handle(c, req, env).reply;
            && (reply == Refused(Internal) <==> Leaked(s, steps) == |s.cache.pool|)
            && (Leaked(s, steps) < |s.cache.pool| && reply.Refused? ==>
                  (reply.error == WriteFailed && Tears(c, req, env)) ||
                  (reply.error == ReadFailed && Leaks(c, req, env)))
  {
    SlotConservation(s, steps);
    var c := Exec(s, steps).cache;
    AcquireFailsExactlyWhen(c, env);
  }

  // ---------------------------------------------------------------- block sizes

  /** Every block of the device and of the pool is `size` bytes. */
  ghost predicate Uniform(c: Cache, size: nat) {
    && (forall l: nat | l < |c.device| :: |c.device[l]| == size)
    && (forall i: nat | i < |c.pool| :: |c.pool[i]| == size)
  }

  lemma RequestKeepsSize(c: Cache, req: Request, e: Env, size: nat)
    requires WellFormed(c) && VictimOk(c, e) && Uniform(c, size) && (req.Write? ==> |req.data| == size)
    ensures Uniform(Handle(c, req, e).cache, size)
  {
    var c' := Handle(c, req, e).cache;
    HandleShape(c, req, e);
    HandleDevice(c, req, e);
    forall i: nat | i < |c'.pool| ensures |c'.pool[i]| == size {
      HandlePool(c, req, e, i);
      assert c'.pool[i] == At(c'.pool, i);
    }
  }

  /** Blocks keep their size in every run whose writes are whole blocks, so that a failed transfer
      always leaves a prefix of the data over the old block. */
  lemma {:induction false} BlocksStayWhole(s: Sys, steps: seq<Step>, size: nat)
    requires Sound(s) && Uniform(s.cache, size) && Feasible(s, steps)
    requires forall k | 0 <= k < |steps| :: steps[k].Serve? && steps[k].req.Write? ==> |steps[k].req.data| == size
    ensures Uniform(Exec(s, steps).cache, size)
    decreases |steps|
  {
    if steps == [] {
    } else {
      var st := steps[0];
      StepConservesSlots(s, st);
      if st.Serve? {
        RequestKeepsSize(s.cache, st.req, st.env, size);
      } else if st.WriteOne? {
        assert Todo(s)[0] == s.flusher.todo[0];
      }
      assert forall k | 0 <= k < |steps| - 1 :: steps[1..][k] == steps[k + 1];
      BlocksStayWhole(Next(s, st), steps[1..], size);
    }
  }

  // ---------------------------------------------------------------- losing every slot

  /** `n` reads of block 0 in a row whose device read fails at once. */
  function FailingReads(n: nat): seq<Step> {
    if n == 0 then [] else [Serve(Read(0), Env(0, 0, Written, Unread(0)))] + FailingReads(n - 1)
  }

  lemma {:induction false} FailingReadsLoseAll(s: Sys)
    requires s.client.Serving? && s.cache.table == map[] && |s.cache.device| > 0
    ensures Feasible(s, FailingReads(|s.cache.free|))
    ensures var s' := Exec(s, FailingReads(|s.cache.free|));
            && s'.client.Serving? && s'.cache.table == map[] && s'.cache.free == []
            && |s'.cache.device| == |s.cache.device|
    decreases |s.cache.free|
  {
    var n := |s.cache.free|;
    if n == 0 {
    } else {
      var st := FailingReads(n)[0];
      assert FailingReads(n)[1..] == FailingReads(n - 1);
      FailingReadsLoseAll(Next(s, st));
    }
  }

  lemma {:induction false} FailingReadsLength(n: nat)
    ensures |FailingReads(n)| == n
  {
    if n == 0 {
    } else {
      FailingReadsLength(n - 1);
    }
  }

  /** The "inconsistent state" error is reachable: every started engine with a block on its device has a
      run of `capacity` failing reads after which every read of that block meets it. */
  lemma InternalErrorReachable(s: Sys) returns (steps: seq<Step>)
    requires Started(s) && |s.cache.device| > 0
    ensures |steps| == |s.cache.pool| && Feasible(s, steps)
    ensures forall e :: VictimOk(Exec(s, steps).cache, e) ==>
                          Handle(Exec(s, steps).cache, Read(0), e).reply == Refused(Internal)
  {
    FailingReadsLoseAll(s);
    steps := FailingReads(|s.cache.free|);
    FailingReadsLength(|s.cache.free|);
  }
}
