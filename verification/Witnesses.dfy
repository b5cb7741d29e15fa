/**
  Short runs of a started engine in which the races of the flusher are observable, for any blocks:
  two blocks `a` and `b` on the device, one slot in the cache.
 */
module Witnesses {
  import opened Blocks
  import opened CacheState
  import opened Eviction
  import opened Threads
  import opened Interleaving

  function Tiny(device: seq<Block>, slot: Block, table: map<nat, Entry>): Cache {
    Cache(device, [slot], if table == map[] then [0] else [], table, false, 1.0)
  }

  function TinyEngine(a: Block, b: Block): Sys {
    Sys(Tiny([a, b], a, map[]), None, false, Serving, Waiting)
  }

  function Tick(now: nat, victim: nat): Env {
    Env(now, victim, Written, Fetched)
  }

  /** Some run of the tiny engine ends in `s` with the reference at `ref`. */
  ghost predicate Reached(a: Block, b: Block, s: Sys, ref: seq<Block>) {
    exists steps :: Feasible(TinyEngine(a, b), steps) && Exec(TinyEngine(a, b), steps) == s &&
                    RefAfter(TinyEngine(a, b), [a, b], steps) == ref
  }

  lemma {:induction false} Append(s: Sys, ref: seq<Block>, steps: seq<Step>, st: Step)
    requires Feasible(s, steps) && Enabled(Exec(s, steps), st)
    ensures Feasible(s, steps + [st])
    ensures Exec(s, steps + [st]) == Next(Exec(s, steps), st)
    ensures RefAfter(s, ref, steps + [st]) == RefStep(Exec(s, steps), st, RefAfter(s, ref, steps))
    decreases |steps|
  {
    if steps == [] {
      assert steps + [st] == [st] && [st][1..] == [];
    } else {
      assert (steps + [st])[0] == steps[0] && (steps + [st])[1..] == steps[1..] + [st];
      Append(Next(s, steps[0]), RefStep(s, steps[0], ref), steps[1..], st);
    }
  }

  lemma Extend(a: Block, b: Block, s: Sys, ref: seq<Block>, st: Step)
    requires Reached(a, b, s, ref) && Enabled(s, st)
    ensures Reached(a, b, Next(s, st), RefStep(s, st, ref))
  {
    var steps :| Feasible(TinyEngine(a, b), steps) && Exec(TinyEngine(a, b), steps) == s &&
                 RefAfter(TinyEngine(a, b), [a, b], steps) == ref;
    Append(TinyEngine(a, b), [a, b], steps, st);
  }

  /** The flusher has returned from a timed-out wait. */
  lemma TimedOut(a: Block, b: Block) returns (s: Sys)
    ensures Started(TinyEngine(a, b)) && Reached(a, b, s, [a, b])
    ensures s == TinyEngine(a, b).(flusher := Woken(None))
  {
    var s0 := TinyEngine(a, b);
    assert Feasible(s0, []) && RefAfter(s0, [a, b], []) == [a, b];
    assert Reached(a, b, s0, [a, b]);
    Extend(a, b, s0, [a, b], Timeout);
    s := Next(s0, Timeout);
  }

  /** Writing `data` to block 0 of a tiny cache that is empty or holds block 0. */
  lemma WriteZero(s: Sys, data: Block, now: nat) returns (s': Sys)
    requires s.client.Serving? && |s.cache.device| == 2 && |s.cache.pool| == 1
    requires s.cache == Tiny(s.cache.device, s.cache.pool[0], map[]) ||
             exists e :: s.cache == Tiny(s.cache.device, s.cache.pool[0], map[0 := e]) && e.poolIndex == 0
    ensures Enabled(s, Serve(Write(0, data), Tick(now, 0))) && s' == Next(s, Serve(Write(0, data), Tick(now, 0)))
    ensures s'.cache == Tiny(s.cache.device, data, map[0 := Entry(0, 0, true, now)])
    ensures s'.flusher == s.flusher && s'.client == s.client && s'.stop == s.stop
    ensures Handle(s.cache, Write(0, data), Tick(now, 0)).reply.WriteOk?
  {
    if s.cache.table != map[] {
      assert IsVictim(s.cache.table, 0);
    }
    s' := Next(s, Serve(Write(0, data), Tick(now, 0)));
  }

  /** Block 0 is dirty with `x`, and the flusher has it on its list. */
  lemma Listed(a: Block, b: Block, x: Block) returns (s: Sys)
    ensures Reached(a, b, s, [x, b]) && s.client.Serving? && s.flusher == Flushing([(0, 0)], None)
    ensures s.cache == Tiny([a, b], x, map[0 := Entry(0, 0, true, 1)])
  {
    var s1 := TimedOut(a, b);
    var s2 := WriteZero(s1, x, 1);
    Extend(a, b, s1, [a, b], Serve(Write(0, x), Tick(1, 0)));
    assert Dirty(s2.cache) == {0};
    var batch := [(0, 0)];
    assert batch[0].0 == 0;
    Extend(a, b, s2, [x, b], Snapshot(batch));
    s := Next(s2, Snapshot(batch));
  }

  /** Block 0 has been written to the device as `x` and overwritten in the cache with `y`; then it is
      marked clean. */
  lemma FlagLost(a: Block, b: Block, x: Block, y: Block) returns (s: Sys)
    ensures Reached(a, b, s, [y, b]) && s.client.Serving?
    ensures s.cache == Tiny([x, b], y, map[0 := Entry(0, 0, false, 2)])
  {
    var s1 := Listed(a, b, x);
    Extend(a, b, s1, [x, b], WriteOne(Written));
    var s2 := Next(s1, WriteOne(Written));
    assert s2.cache.device == [x, b];
    var s3 := WriteZero(s2, y, 2);
    Extend(a, b, s2, [x, b], Serve(Write(0, y), Tick(2, 0)));
    Extend(a, b, s3, [y, b], MarkOne);
    s := Next(s3, MarkOne);
  }

  /** Unconditional coherence is false: reading block 1 evicts the falsely clean block 0 without a
      write-back, and the next read of block 0 succeeds with `x` although `y` was last written. */
  lemma LostWrite(a: Block, b: Block, x: Block, y: Block)
    requires x != y
    ensures exists s, e :: Reached(a, b, s, [y, b]) && s.client.Serving? && VictimOk(s.cache, e) &&
                           Handle(s.cache, Read(0), e).reply == ReadOk(false, x)
  {
    var s1 := FlagLost(a, b, x, y);
    assert IsVictim(s1.cache.table, 0);
    Extend(a, b, s1, [y, b], Serve(Read(1), Tick(3, 0)));
    var s2 := Next(s1, Serve(Read(1), Tick(3, 0)));
    assert s2.cache == Tiny([x, b], b, map[1 := Entry(1, 0, false, 3)]);
    assert IsVictim(s2.cache.table, 1);
    assert Handle(s2.cache, Read(0), Tick(4, 1)).reply == ReadOk(false, x);
  }

  /** Block 0, on the flusher's list, is evicted by a read of block 1, which takes its slot; the
      flusher then writes the slot to block 0. */
  lemma SlotReused(a: Block, b: Block, x: Block) returns (s: Sys)
    ensures Reached(a, b, s, [x, b]) && s.client.Serving?
    ensures s.cache == Tiny([b, b], b, map[1 := Entry(1, 0, false, 2)])
  {
    var s1 := Listed(a, b, x);
    assert IsVictim(s1.cache.table, 0);
    Extend(a, b, s1, [x, b], Serve(Read(1), Tick(2, 0)));
    var s2 := Next(s1, Serve(Read(1), Tick(2, 0)));
    assert s2.cache == Tiny([x, b], b, map[1 := Entry(1, 0, false, 2)]);
    Extend(a, b, s2, [x, b], WriteOne(Written));
    s := Next(s2, WriteOne(Written));
  }

  /** The evicted block is lost although every device operation succeeds: a read of block 0 then
      succeeds with the other block, not with the `x` last written. */
  lemma EvictedBlockLost(a: Block, b: Block, x: Block)
    requires x != b
    ensures exists s, e :: Reached(a, b, s, [x, b]) && s.client.Serving? && VictimOk(s.cache, e) &&
                           Handle(s.cache, Read(0), e).reply == ReadOk(false, b)
  {
    var s := SlotReused(a, b, x);
    assert IsVictim(s.cache.table, 1);
    assert Handle(s.cache, Read(0), Tick(3, 1)).reply == ReadOk(false, b);
  }

  /** Shutdown is not always complete: a write that lands after the last cycle's snapshot and
      before its stop check is still dirty when the flusher has exited. */
  lemma StopAfterSnapshotLeavesDirty(a: Block, b: Block, x: Block)
    ensures exists s :: Reached(a, b, s, [x, b]) && s.stop && s.flusher.Exited? &&
                        Dirty(s.cache) == {0} && At(s.cache.device, 0) == a
  {
    var s1 := TimedOut(a, b);
    Extend(a, b, s1, [a, b], Snapshot([]));
    var s2 := Next(s1, Snapshot([]));
    var s3 := WriteZero(s2, x, 1);
    Extend(a, b, s2, [a, b], Serve(Write(0, x), Tick(1, 0)));
    Extend(a, b, s3, [x, b], SetStop);
    var s4 := Next(s3, SetStop);
    Extend(a, b, s4, [x, b], CheckStop);
    var s5 := Next(s4, CheckStop);
    assert Dirty(s5.cache) == {0};
  }

  // ---------------------------------------------------------------- two accesses at one clock reading

  function TwoSlots(a: Block, b: Block, d: Block): Sys {
    Sys(Cache([a, b, d], [a, a], [0, 1], map[], false, 1.0), None, false, Serving, Waiting)
  }

  /** Reads of block 0 and then of block 1, at one clock reading. */
  function TiedReads(): seq<Step> {
    [Serve(Read(0), Tick(1, 0)), Serve(Read(1), Tick(1, 0))]
  }

  lemma TiedState(a: Block, b: Block, d: Block)
    ensures Feasible(TwoSlots(a, b, d), TiedReads())
    ensures Exec(TwoSlots(a, b, d), TiedReads()).cache ==
            Cache([a, b, d], [b, a], [], map[0 := Entry(0, 1, false, 1), 1 := Entry(1, 0, false, 1)], false, 1.0)
  {
    var s0 := TwoSlots(a, b, d);
    var s1 := Next(s0, Serve(Read(0), Tick(1, 0)));
    assert s1.cache == Cache([a, b, d], [a, a], [0], map[0 := Entry(0, 1, false, 1)], false, 1.0);
    var s2 := Next(s1, Serve(Read(1), Tick(1, 0)));
    assert TiedReads()[1..] == [Serve(Read(1), Tick(1, 0))] && TiedReads()[1..][1..] == [];
    assert Feasible(s2, []) && Exec(s2, []) == s2;
  }

  /** A tie breaks LRU: when block 2 is read next, some order of the table makes block 1 the victim, and
      block 0, which was read before it, stays. */
  lemma TieEvictsNewer(a: Block, b: Block, d: Block)
    ensures Started(TwoSlots(a, b, d)) && Feasible(TwoSlots(a, b, d), TiedReads())
    ensures var c := Exec(TwoSlots(a, b, d), TiedReads()).cache;
            && c.table.Keys == {0, 1}
            && (exists entries :: Lists(c.table, entries) && Chooses(entries, 1))
            && VictimOk(c, Tick(2, 1)) && Handle(c, Read(2), Tick(2, 1)).cache.table.Keys == {0, 2}
  {
    TiedState(a, b, d);
    var c := Exec(TwoSlots(a, b, d), TiedReads()).cache;
    assert IsVictim(c.table, 1);
    ChosenExactly(c.table, 1);
  }
}
