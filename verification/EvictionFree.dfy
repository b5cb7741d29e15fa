/** Runs that never evict need no side condition: mid-cycle writes are harmless to readers. */
module EvictionFree {
  import opened Blocks
  import opened CacheState
  import opened FlushCycle
  import opened Requests
  import opened Threads
  import opened Interleaving

  /** The LBAs the run asks for. */
  function Requested(steps: seq<Step>): set<nat> {
    set k | 0 <= k < |steps| && steps[k].Serve? :: steps[k].req.lba
  }

  lemma RequestedStep(steps: seq<Step>)
    requires steps != []
    ensures Requested(steps) == (if steps[0].Serve? then {steps[0].req.lba} else {}) + Requested(steps[1..])
  {
  }

  /** The flusher's pairs still name entries and their slots, dirty or not. */
  ghost predicate Tracked(c: Cache, todo: seq<(nat, nat)>) {
    forall k | 0 <= k < |todo| :: todo[k].0 in c.table && todo[k].1 == c.table[todo[k].0].poolIndex
  }

  lemma MissWithoutEviction(c: Cache, req: Request, e: Env)
    requires WellFormed(c) && VictimOk(c, e) && Misses(c, req) && c.free != []
    ensures var o := Handle(c, req, e);
            && (forall l :: View(o.cache, l) == if l == req.lba && o.reply.WriteOk? then req.data else View(c, l))
            && (o.reply.ReadOk? ==> o.reply.data == View(c, req.lba))
  {
  }

  /** Without an eviction, coherence is not needed for a request to refine the reference. */
  lemma RequestWithoutEviction(c: Cache, req: Request, e: Env, ref: seq<Block>)
    requires WellFormed(c) && VictimOk(c, e) && !Seeks(c, req) && Shows(c, ref)
    ensures var o := Handle(c, req, e);
            && Shows(o.cache, RefNext(ref, req, o.reply))
            && (o.reply.ReadOk? ==> req.lba < |ref| && o.reply.data == ref[req.lba])
  {
    HandleShape(c, req, e);
    if Misses(c, req) && c.free != [] {
      MissWithoutEviction(c, req, e);
    } else if req.lba in c.table && req.Write? {
      InstallInSlot(c, req.lba, c.table[req.lba].poolIndex, req.data, true, e.now);
    }
  }

  lemma TrackedAfterRequest(c: Cache, req: Request, e: Env, todo: seq<(nat, nat)>)
    requires WellFormed(c) && VictimOk(c, e) && !Seeks(c, req) && Tracked(c, todo)
    ensures Tracked(Handle(c, req, e).cache, todo)
  {
  }

  /** Enough slots remain for every LBA the rest of the run asks for. */
  ghost predicate Roomy(c: Cache, asked: set<nat>, leaks: nat) {
    |c.table.Keys + asked| + leaks <= InUse(c)
  }

  lemma RoomyNeverSeeks(c: Cache, req: Request, asked: set<nat>, leaks: nat)
    requires Roomy(c, asked, leaks) && req.lba in asked
    ensures !Seeks(c, req)
  {
    if req.lba !in c.table {
      assert |c.table.Keys + {req.lba}| == |c.table| + 1;
      SubsetSize(c.table.Keys + {req.lba}, c.table.Keys + asked);
    }
  }

  lemma RoomyStep(s: Sys, st: Step, asked: set<nat>, leaks: nat)
    requires Sound(s) && Enabled(s, st)
    requires var asked' := (if st.Serve? then {st.req.lba} else {}) + asked;
             Roomy(s.cache, asked', (if StepLeaks(s, st) then 1 else 0) + leaks)
    ensures Roomy(Next(s, st).cache, asked, leaks)
  {
    var c, c' := s.cache, Next(s, st).cache;
    StepConservesSlots(s, st);
    var asked' := (if st.Serve? then {st.req.lba} else {}) + asked;
    forall l | l in c'.table ensures l in c.table.Keys + asked' {
      if st.Serve? {
        HandleMembers(c, st.req, st.env, l);
      }
    }
    SubsetSize(c'.table.Keys + asked, c.table.Keys + asked');
  }

  ghost predicate FreeInv(s: Sys, ref: seq<Block>) {
    Sound(s) && Tracked(s.cache, Todo(s)) && Shows(s.cache, ref)
  }

  lemma FreeStep(s: Sys, st: Step, ref: seq<Block>)
    requires FreeInv(s, ref) && Enabled(s, st)
    requires st.Serve? ==> !Seeks(s.cache, st.req)
    ensures FreeInv(Next(s, st), RefStep(s, st, ref))
    ensures st.Serve? ==>
              var reply := Handle(s.cache, st.req, st.env).reply;
              reply.ReadOk? ==> st.req.lba < |ref| && reply.data == ref[st.req.lba]
  {
    StepConservesSlots(s, st);
    var s' := Next(s, st);
    match st
    case Serve(req, env) =>
      RequestWithoutEviction(s.cache, req, env, ref);
      TrackedAfterRequest(s.cache, req, env, Todo(s));
    case Snapshot(batch) => SnapshotIsPending(s.cache, batch);
    case WriteOne(io) =>
      assert Todo(s') == Todo(s)[1..];
      assert Todo(s)[0].0 in s.cache.table;
      assert forall l: nat | l < |ref| :: View(s'.cache, l) == View(s.cache, l);
    case MarkOne =>
      assert forall l: nat | l < |ref| :: View(s'.cache, l) == View(s.cache, l);
    case SetStop | SendShutdown | Receive | Timeout | CheckStop =>
      assert Todo(s') == Todo(s);
  }

  lemma {:induction false} RoomyRunsAgree(s: Sys, ref: seq<Block>, steps: seq<Step>)
    requires FreeInv(s, ref) && Feasible(s, steps)
    requires Roomy(s.cache, Requested(steps), Leaked(s, steps))
    ensures ReadsAgree(s, ref, steps)
    decreases |steps|
  {
    if steps == [] {
    } else {
      RequestedStep(steps);
      if steps[0].Serve? {
        RoomyNeverSeeks(s.cache, steps[0].req, Requested(steps), Leaked(s, steps));
      }
      FreeStep(s, steps[0], ref);
      RoomyStep(s, steps[0], Requested(steps[1..]), Leaked(Next(s, steps[0]), steps[1..]));
      RoomyRunsAgree(Next(s, steps[0]), RefStep(s, steps[0], ref), steps[1..]);
    }
  }

  /** If the distinct LBAs requested plus the misses whose read failed do not exceed the capacity,
      then under every interleaving with the flusher each successful read returns the block last
      written, mid-cycle writes and failed flushes included. */
  lemma EvictionFreeRunsAgree(s: Sys, steps: seq<Step>)
    requires Started(s) && Feasible(s, steps)
    requires |Requested(steps)| + Leaked(s, steps) <= |s.cache.pool|
    ensures ReadsAgree(s, s.cache.device, steps)
  {
    assert s.cache.table.Keys + Requested(steps) == Requested(steps);
    RoomyRunsAgree(s, s.cache.device, steps);
  }
}
