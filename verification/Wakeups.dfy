/** A wake is never lost, although the channel has one slot and drops what does not fit. */
module Wakeups {
  import opened Blocks
  import opened CacheState
  import opened FlushCycle
  import opened Requests
  import opened Threads
  import opened FlusherExit

  /** The state before step `i` of the run. */
  ghost function Before(s: Sys, steps: seq<Step>, i: nat): Sys
    requires Feasible(s, steps) && i <= |steps|
  {
    ExecConcat(s, steps[..i], steps[i..]);
    assert steps[..i] + steps[i..] == steps;
    Exec(s, steps[..i])
  }

  lemma SplitBefore(s: Sys, steps: seq<Step>, i: nat)
    requires Feasible(s, steps) && i <= |steps|
    ensures Feasible(s, steps[..i]) && Before(s, steps, i) == Exec(s, steps[..i])
    ensures Feasible(Before(s, steps, i), steps[i..])
  {
    ExecConcat(s, steps[..i], steps[i..]);
    assert steps[..i] + steps[i..] == steps;
  }

  lemma BeforeNext(s: Sys, steps: seq<Step>, i: nat)
    requires Feasible(s, steps) && i < |steps|
    ensures var s1 := Before(s, steps, i);
            Enabled(s1, steps[i]) && Before(s, steps, i + 1) == Next(s1, steps[i])
  {
    SplitBefore(s, steps, i);
    SplitBefore(s, steps, i + 1);
    var s1 := Before(s, steps, i);
    assert Enabled(s1, steps[i..][0]);
    ExecOne(s1, steps[i]);
    ExecConcat(s, steps[..i], [steps[i]]);
    assert steps[..i + 1] == steps[..i] + [steps[i]];
  }

  /** The step takes `l` off the dirty entries: `mark_clean` after a write-back, or an eviction. */
  ghost predicate Retires(s: Sys, st: Step, l: nat)
    requires Enabled(s, st)
  {
    || (st.MarkOne? && s.flusher.lba == l)
    || (st.Serve? && Evicts(s.cache, st.req, st.env) && st.env.victim == l)
  }

  lemma DirtyUntilRetired(s: Sys, st: Step, l: nat)
    requires Sound(s) && Enabled(s, st) && l in Dirty(s.cache) && !Retires(s, st, l)
    ensures l in Dirty(Next(s, st).cache)
  {
    if st.Serve? {
      HandleMembers(s.cache, st.req, st.env, l);
      if l == st.req.lba && Handle(s.cache, st.req, st.env).reply.WriteOk? {
        HandleWritten(s.cache, st.req, st.env);
      } else {
        HandleBlocks(s.cache, st.req, st.env, l);
      }
    }
  }

  lemma SoundBefore(s: Sys, steps: seq<Step>, i: nat)
    requires Sound(s) && Feasible(s, steps) && i <= |steps|
    ensures Sound(Before(s, steps, i))
  {
    SplitBefore(s, steps, i);
    SlotConservation(s, steps[..i]);
  }

  /** Step `i` of the run retires `l`. */
  ghost predicate RetiredAt(s: Sys, steps: seq<Step>, i: nat, l: nat)
    requires Feasible(s, steps) && i < |steps|
  {
    BeforeNext(s, steps, i);
    Retires(Before(s, steps, i), steps[i], l)
  }

  /** Throughout a run a dirty entry stays dirty until a step of the run retires it. */
  lemma {:induction false} DirtyOrRetired(s: Sys, steps: seq<Step>, a: nat, k: nat, l: nat)
    requires Sound(s) && Feasible(s, steps) && a <= k <= |steps|
    requires l in Dirty(Before(s, steps, a).cache)
    ensures l in Dirty(Before(s, steps, k).cache) || exists i | a <= i < k :: RetiredAt(s, steps, i, l)
    decreases k
  {
    if a == k {
    } else {
      DirtyOrRetired(s, steps, a, k - 1, l);
      BeforeNext(s, steps, k - 1);
      SoundBefore(s, steps, k - 1);
      if l in Dirty(Before(s, steps, k - 1).cache) && !RetiredAt(s, steps, k - 1, l) {
        DirtyUntilRetired(Before(s, steps, k - 1), steps[k - 1], l);
      }
    }
  }

  /** A message stays in the channel, as it is, until a wait returns it. */
  lemma {:induction false} MessageStays(s: Sys, steps: seq<Step>, a: nat, j: nat)
    requires Feasible(s, steps) && a <= j <= |steps| && Before(s, steps, a).slot.Some?
    requires forall i | a <= i < j :: !IsWait(steps[i])
    ensures Before(s, steps, j).slot == Before(s, steps, a).slot
    decreases j
  {
    if a == j {
    } else {
      MessageStays(s, steps, a, j - 1);
      BeforeNext(s, steps, j - 1);
    }
  }

  /** Step `w` calls `wake`. */
  ghost predicate WakesAt(s: Sys, steps: seq<Step>, w: nat)
    requires Feasible(s, steps) && w < |steps|
  {
    BeforeNext(s, steps, w);
    steps[w].Serve? && Wakes(Before(s, steps, w).cache, steps[w].req, steps[w].env)
  }

  lemma WakeFills(s: Sys, steps: seq<Step>, w: nat)
    requires Feasible(s, steps) && w < |steps| && WakesAt(s, steps, w)
    ensures Before(s, steps, w + 1).slot ==
            if Before(s, steps, w).slot.Some? then Before(s, steps, w).slot else Some(Wake)
  {
    BeforeNext(s, steps, w);
  }

  lemma SnapshotHolds(s: Sys, steps: seq<Step>, k: nat)
    requires Feasible(s, steps) && k < |steps| && steps[k].Snapshot?
    ensures Lbas(steps[k].batch) == Dirty(Before(s, steps, k).cache)
  {
    BeforeNext(s, steps, k);
    SnapshotIsPending(Before(s, steps, k).cache, steps[k].batch);
  }

  /** No lost wake.  Step `w` wakes the flusher, whether its message is sent or finds the channel
      full.  Then the flusher's next wait, at step `j`, returns the message that was pending, or else
      the wake, instead of blocking or timing out, and the snapshot that follows it, at step `k`, holds
      every entry dirty at the wake that no step in between has cleaned or evicted. */
  lemma NoLostWake(s: Sys, steps: seq<Step>, w: nat, j: nat, k: nat, l: nat)
    requires Sound(s) && Feasible(s, steps) && w < j < k < |steps| && WakesAt(s, steps, w)
    requires IsWait(steps[j]) && forall i | w < i < j :: !IsWait(steps[i])
    requires steps[k].Snapshot?
    ensures steps[j].Receive?
    ensures Before(s, steps, j).slot ==
            if Before(s, steps, w).slot.Some? then Before(s, steps, w).slot else Some(Wake)
    ensures l in Dirty(Before(s, steps, w + 1).cache) ==>
              l in Lbas(steps[k].batch) || exists i | w < i < k :: RetiredAt(s, steps, i, l)
  {
    WakeFills(s, steps, w);
    MessageStays(s, steps, w + 1, j);
    BeforeNext(s, steps, j);
    if l in Dirty(Before(s, steps, w + 1).cache) {
      DirtyOrRetired(s, steps, w + 1, k, l);
      SnapshotHolds(s, steps, k);
    }
  }

  /** Until stop is stored nothing in the channel or the flusher's hand says `Shutdown`, so the
      flusher does not exit and its next wait does come. */
  ghost predicate Running(s: Sys) {
    && s.client.Serving? && !s.stop
    && s.slot != Some(Shutdown)
    && !s.flusher.Exited?
    && (!s.flusher.Waiting? ==> s.flusher.signal != Some(Shutdown))
  }

  lemma {:induction false} RunsUntilStopped(s: Sys, steps: seq<Step>)
    requires Running(s) && Feasible(s, steps) && SetStop !in steps
    ensures Running(Exec(s, steps))
    decreases |steps|
  {
    if steps == [] {
    } else {
      assert steps[0] in steps;
      assert forall st | st in steps[1..] :: st in steps;
      RunsUntilStopped(Next(s, steps[0]), steps[1..]);
    }
  }

  // ---------------------------------------------------------------- the shutdown's message

  /** The shutdown's message is not lost either: the next wait after it is sent, at step `j`, returns the
      message that was pending, or else the shutdown. */
  lemma NoLostShutdown(s: Sys, steps: seq<Step>, w: nat, j: nat)
    requires Feasible(s, steps) && w < j < |steps| && steps[w].SendShutdown?
    requires IsWait(steps[j]) && forall i | w < i < j :: !IsWait(steps[i])
    ensures steps[j].Receive?
    ensures Before(s, steps, j).slot ==
            if Before(s, steps, w).slot.Some? then Before(s, steps, w).slot else Some(Shutdown)
  {
    BeforeNext(s, steps, w);
    MessageStays(s, steps, w + 1, j);
    BeforeNext(s, steps, j);
  }

  /** The flag is stored before the message is sent, and once it is sent a flusher that still waits has
      a message. */
  ghost predicate Notified(s: Sys) {
    && (!s.client.Serving? ==> s.stop)
    && (s.client.Joining? && s.flusher.Waiting? ==> s.slot.Some?)
  }

  /** In every run of a started engine, a flusher that waits once the client has sent the shutdown has a
      message: it does not sleep out its interval while the client joins it. */
  lemma {:induction false} JoinedIsNotified(s: Sys, steps: seq<Step>)
    requires Notified(s) && Feasible(s, steps)
    ensures Notified(Exec(s, steps))
    ensures var s' := Exec(s, steps); s'.client.Joining? ==> !Enabled(s', Timeout)
    decreases |steps|
  {
    if steps == [] {
    } else {
      JoinedIsNotified(Next(s, steps[0]), steps[1..]);
    }
  }
}
