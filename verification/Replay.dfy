/**
  Warm replay with the flusher at work: reads of one client, and any steps of the flusher between them,
  inside a cycle or not.
 */
module Replay {
  import opened Blocks
  import opened CacheState
  import opened Lru
  import opened Recency
  import opened Requests
  import opened Threads

  /** The LBAs requested in the run. */
  function Trace(steps: seq<Step>): seq<nat> {
    if steps == [] then []
    else (if steps[0].Serve? then [steps[0].req.lba] else []) + Trace(steps[1..])
  }

  /** The client only reads, and its reads succeed. */
  ghost predicate ReadRun(s: Sys, steps: seq<Step>)
    requires Feasible(s, steps)
    decreases |steps|
  {
    steps == [] ||
    ((steps[0].Serve? ==> steps[0].req.Read? && CanRead(s.cache, steps[0].req.lba, steps[0].env)) &&
     ReadRun(Next(s, steps[0]), steps[1..]))
  }

  ghost predicate OnlyHits(s: Sys, steps: seq<Step>)
    requires Feasible(s, steps)
    decreases |steps|
  {
    steps == [] ||
    ((steps[0].Serve? ==>
        var reply := Handle(s.cache, steps[0].req, steps[0].env).reply; reply.ReadOk? && reply.hit) &&
     OnlyHits(Next(s, steps[0]), steps[1..]))
  }

  lemma TraceOf(steps: seq<Step>)
    ensures steps == [] ==> Members(Trace(steps)) == {}
    ensures steps != [] ==> Members(Trace(steps)) ==
                            (if steps[0].Serve? then {steps[0].req.lba} else {}) + Members(Trace(steps[1..]))
  {
  }

  /** The flusher's steps change a table in one entry's dirty flag at most. */
  lemma QuietKeeping(s: Sys, st: Step, r: set<nat>, m: set<nat>)
    requires Sound(s) && Keeping(s.cache, r, m) && Enabled(s, st) && !st.Serve?
    ensures Keeping(Next(s, st).cache, r, m)
  {
    StepConservesSlots(s, st);
    assert Dirty(Next(s, st).cache) <= Dirty(s.cache);
  }

  lemma StepKeeping(s: Sys, st: Step, r: set<nat>, m: set<nat>)
    requires Sound(s) && Keeping(s.cache, r, m) && Enabled(s, st)
    requires st.Serve? ==> st.req.Read? && CanRead(s.cache, st.req.lba, st.env) && st.req.lba in m
    ensures Keeping(Next(s, st).cache, if st.Serve? then r + {st.req.lba} else r, m)
  {
    if st.Serve? {
      KeepingRead(s.cache, r, m, st.req.lba, st.env);
    } else {
      QuietKeeping(s, st, r, m);
    }
  }

  /** The LBAs of `r` once the run has added its own. */
  function Grown(r: set<nat>, steps: seq<Step>): set<nat>
    decreases |steps|
  {
    if steps == [] then r
    else Grown(if steps[0].Serve? then r + {steps[0].req.lba} else r, steps[1..])
  }

  lemma {:induction false} GrownIs(r: set<nat>, steps: seq<Step>)
    ensures Grown(r, steps) == r + Members(Trace(steps))
    decreases |steps|
  {
    TraceOf(steps);
    if steps == [] {
    } else {
      GrownIs(if steps[0].Serve? then r + {steps[0].req.lba} else r, steps[1..]);
    }
  }

  /** What fits stays: the LBAs read are cached from then on. */
  lemma {:induction false} RunKeeping(s: Sys, steps: seq<Step>, r: set<nat>, m: set<nat>)
    requires Sound(s) && Keeping(s.cache, r, m) && Feasible(s, steps) && ReadRun(s, steps)
    requires Members(Trace(steps)) <= m
    ensures Keeping(Exec(s, steps).cache, Grown(r, steps), m)
    decreases |steps|
  {
    TraceOf(steps);
    if steps == [] {
    } else {
      var st := steps[0];
      StepKeeping(s, st, r, m);
      StepConservesSlots(s, st);
      RunKeeping(Next(s, st), steps[1..], if st.Serve? then r + {st.req.lba} else r, m);
    }
  }

  /** What is kept is hit. */
  lemma {:induction false} KeptHits(s: Sys, steps: seq<Step>, r: set<nat>, m: set<nat>)
    requires Sound(s) && Keeping(s.cache, r, m) && Feasible(s, steps) && ReadRun(s, steps)
    requires Members(Trace(steps)) <= r
    ensures OnlyHits(s, steps)
    decreases |steps|
  {
    TraceOf(steps);
    if steps == [] {
    } else {
      var st := steps[0];
      assert st.Serve? ==> r + {st.req.lba} == r;
      StepKeeping(s, st, r, m);
      StepConservesSlots(s, st);
      KeptHits(Next(s, st), steps[1..], r, m);
    }
  }

  lemma HitStep(s: Sys, st: Step)
    requires Enabled(s, st)
    requires st.Serve? ==> var reply := Handle(s.cache, st.req, st.env).reply; reply.ReadOk? && reply.hit
    ensures Next(s, st).cache.table.Keys == s.cache.table.Keys
    ensures st.Serve? ==> st.req.lba in s.cache.table
  {
  }

  /** A run of hits only asks for what was cached at its start. */
  lemma {:induction false} HitsAsk(s: Sys, steps: seq<Step>)
    requires Feasible(s, steps) && OnlyHits(s, steps)
    ensures Members(Trace(steps)) <= s.cache.table.Keys
    decreases |steps|
  {
    TraceOf(steps);
    if steps == [] {
    } else {
      HitStep(s, steps[0]);
      HitsAsk(Next(s, steps[0]), steps[1..]);
    }
  }

  lemma {:induction false} ReadRunKeepsSlots(s: Sys, steps: seq<Step>)
    requires Sound(s) && Feasible(s, steps) && ReadRun(s, steps)
    ensures Sound(Exec(s, steps)) && InUse(Exec(s, steps).cache) == InUse(s.cache)
    decreases |steps|
  {
    if steps == [] {
    } else {
      StepConservesSlots(s, steps[0]);
      ReadRunKeepsSlots(Next(s, steps[0]), steps[1..]);
    }
  }

  /** Warm replay beside a flusher.  If the trace's LBAs and the blocks dirty before the first pass
      together fit the slots in circulation, the replay gives only hits, whatever the flusher does
      meanwhile; and it does so only if the LBAs fit beside the blocks still dirty after the first pass. */
  lemma ReplayBesideFlusher(s: Sys, first: seq<Step>, second: seq<Step>)
    requires Sound(s) && Feasible(s, first) && ReadRun(s, first)
    requires Feasible(Exec(s, first), second) && ReadRun(Exec(s, first), second) && Trace(second) == Trace(first)
    ensures var t, s1 := Members(Trace(first)), Exec(s, first);
            && InUse(s1.cache) == InUse(s.cache)
            && (|t + Dirty(s.cache)| <= InUse(s.cache) ==> OnlyHits(s1, second))
            && (OnlyHits(s1, second) ==> |t + Dirty(s1.cache)| <= InUse(s.cache))
  {
    var t, s1 := Members(Trace(first)), Exec(s, first);
    var m := t + Dirty(s.cache);
    ReadRunKeepsSlots(s, first);
    if |m| <= InUse(s.cache) {
      RunKeeping(s, first, {}, m);
      GrownIs({}, first);
      KeptHits(s1, second, Grown({}, first), m);
    }
    if OnlyHits(s1, second) {
      HitsAsk(s1, second);
      SubsetSize(t + Dirty(s1.cache), s1.cache.table.Keys);
    }
  }
}
