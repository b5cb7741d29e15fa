/** Read-only engines: nothing is ever written, under any interleaving with a flusher. */
module ReadOnly {
  import opened Blocks
  import opened CacheState
  import opened FlushCycle
  import opened Requests
  import opened Threads

  ghost predicate Untouched(s: Sys, device: seq<Block>) {
    && WellFormed(s.cache) && Coherent(s.cache)
    && s.cache.readOnly && Dirty(s.cache) == {} && s.cache.device == device
    && Todo(s) == [] && !s.flusher.Marking?
  }

  lemma EmptyBatch(batch: seq<(nat, nat)>)
    ensures Lbas(batch) == {} <==> batch == []
  {
    assert batch != [] ==> batch[0].0 in Lbas(batch);
  }

  lemma UntouchedStep(s: Sys, st: Step, device: seq<Block>)
    requires Untouched(s, device) && Enabled(s, st)
    ensures Untouched(Next(s, st), device) && !st.WriteOne?
    ensures st.Serve? ==> !Tears(s.cache, st.req, st.env) && !Handle(s.cache, st.req, st.env).reply.WriteOk?
  {
    if st.Serve? {
      HandleConservesSlots(s.cache, st.req, st.env);
      HandleShape(s.cache, st.req, st.env);
      HandleKeepsView(s.cache, st.req, st.env);
      ReadOnlyRequest(s.cache, st.req, st.env);
      assert Todo(Next(s, st)) == Todo(s);
    } else if st.Snapshot? {
      SnapshotIsPending(s.cache, st.batch);
      EmptyBatch(st.batch);
    }
  }

  /** Read-only safety over whole runs: no entry becomes dirty, no step writes the device, and
      every cached block equals its block on the device the run began with. */
  lemma {:induction false} ReadOnlySafety(s: Sys, steps: seq<Step>, device: seq<Block>)
    requires Untouched(s, device) && Feasible(s, steps)
    ensures var c' := Exec(s, steps).cache;
            && Dirty(c') == {} && c'.device == device
            && (forall l | l in c'.table :: At(c'.pool, c'.table[l].poolIndex) == At(device, l))
            && (forall k | 0 <= k < |steps| :: !steps[k].WriteOne?)
    decreases |steps|
  {
    if steps == [] {
      assert forall l | l in s.cache.table :: s.cache.table[l].dirty ==> l in Dirty(s.cache);
    } else {
      UntouchedStep(s, steps[0], device);
      ReadOnlySafety(Next(s, steps[0]), steps[1..], device);
      forall k | 0 <= k < |steps| ensures !steps[k].WriteOne? {
        assert k > 0 ==> steps[k] == steps[1..][k - 1];
      }
    }
  }

  lemma StartedUntouched(s: Sys)
    requires Started(s) && s.cache.readOnly
    ensures Untouched(s, s.cache.device)
  {
  }
}
