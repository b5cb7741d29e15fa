/** One flush cycle without interleaving: `flush_dirty_blocks` over a dirty snapshot. */
module FlushCycle {
  import opened Blocks
  import opened CacheState

  /** One iteration of `flush_dirty_blocks`: write the block back, and mark it clean if the
      write succeeded. */
  function FlushOne(c: Cache, p: (nat, nat), io: WriteIo): Cache {
    var c1 := WriteBack(c, p.0, p.1, io);
    if io.Written? then MarkClean(c1, p.0) else c1
  }

  /** The whole loop, which carries on after a failed write; the second component counts the
      blocks flushed. */
  function Flush(c: Cache, batch: seq<(nat, nat)>, ios: seq<WriteIo>): (Cache, nat)
    requires |ios| == |batch|
    decreases |batch|
  {
    if batch == [] then (c, 0)
    else
      var (c', n) := Flush(FlushOne(c, batch[0], ios[0]), batch[1..], ios[1..]);
      (c', if ios[0].Written? then n + 1 else n)
  }

  /** Each pair of the batch still names a dirty entry and its slot, and no LBA occurs twice. */
  ghost predicate Pending(c: Cache, batch: seq<(nat, nat)>) {
    && (forall k | 0 <= k < |batch| ::
          batch[k].0 in c.table && c.table[batch[k].0].dirty && batch[k].1 == c.table[batch[k].0].poolIndex)
    && DistinctLbas(batch)
  }

  /** Writing back a dirty entry, successfully or not, is invisible to clients. */
  lemma WriteBackInvisible(c: Cache, l: nat, i: nat, io: WriteIo)
    requires WellFormed(c) && l in c.table && c.table[l].dirty && c.table[l].poolIndex == i
    ensures var c' := WriteBack(c, l, i, io);
            && WellFormed(c')
            && (forall m :: View(c', m) == View(c, m))
            && (forall m | m != l :: At(c'.device, m) == At(c.device, m))
            && (Coherent(c) ==> Coherent(c'))
            && (io.Written? ==> At(c'.device, l) == View(c', l))
  {
  }

  /** Clearing the flag of a block that equals its device block keeps coherence. */
  lemma MarkCleanSound(c: Cache, l: nat)
    requires WellFormed(c)
    requires l in c.table ==> At(c.device, l) == View(c, l)
    ensures var c' := MarkClean(c, l);
            && WellFormed(c')
            && (forall m :: View(c', m) == View(c, m))
            && Dirty(c') == Dirty(c) - {l}
            && (Coherent(c) ==> Coherent(c'))
  {
  }

  /** The LBAs of the batch whose write succeeded. */
  function Cleaned(batch: seq<(nat, nat)>, ios: seq<WriteIo>): set<nat>
    requires |ios| == |batch|
  {
    set k | 0 <= k < |batch| && ios[k].Written? :: batch[k].0
  }

  lemma CleanedStep(batch: seq<(nat, nat)>, ios: seq<WriteIo>)
    requires |ios| == |batch| > 0 && DistinctLbas(batch)
    ensures var rest, head := Cleaned(batch[1..], ios[1..]), if ios[0].Written? then {batch[0].0} else {};
            Cleaned(batch, ios) == head + rest && |Cleaned(batch, ios)| == |head| + |rest|
  {
    var rest, head := Cleaned(batch[1..], ios[1..]), if ios[0].Written? then {batch[0].0} else {};
    forall l | l in Cleaned(batch, ios) ensures l in head + rest {
      var k :| 0 <= k < |batch| && ios[k].Written? && batch[k].0 == l;
      assert k > 0 ==> ios[1..][k - 1].Written? && batch[1..][k - 1].0 == l;
    }
    forall l | l in rest ensures l in Cleaned(batch, ios) && l !in head {
      var k :| 0 <= k < |batch| - 1 && ios[1..][k].Written? && batch[1..][k].0 == l;
      assert ios[k + 1].Written? && batch[k + 1].0 == l;
    }
    assert Cleaned(batch, ios) == head + rest;
  }

  /** Flushing one dirty entry: its flag falls exactly if the write succeeds, and nothing else
      about the cache changes but its device block. */
  lemma FlushOneStep(c: Cache, p: (nat, nat), io: WriteIo)
    requires WellFormed(c) && Pending(c, [p])
    ensures var c' := FlushOne(c, p, io);
            && WellFormed(c') && c'.table.Keys == c.table.Keys && |c'.device| == |c.device|
            && (forall l :: View(c', l) == View(c, l))
            && (forall l | l != p.0 :: At(c'.device, l) == At(c.device, l))
            && (forall l | l in c.table && l != p.0 :: c'.table[l] == c.table[l])
            && (Coherent(c) ==> Coherent(c'))
            && Dirty(c') == Dirty(c) - (if io.Written? then {p.0} else {})
  {
    assert [p][0] == p;
    WriteBackInvisible(c, p.0, p.1, io);
    var c1 := WriteBack(c, p.0, p.1, io);
    assert Dirty(c1) == Dirty(c);
    if io.Written? {
      MarkCleanSound(c1, p.0);
    }
  }

  lemma PendingRest(c: Cache, batch: seq<(nat, nat)>, io: WriteIo)
    requires WellFormed(c) && Pending(c, batch) && batch != []
    ensures Pending(c, [batch[0]]) && Pending(FlushOne(c, batch[0], io), batch[1..])
  {
  }

  function Lbas(batch: seq<(nat, nat)>): set<nat> {
    set k | 0 <= k < |batch| :: batch[k].0
  }

  lemma LbasStep(batch: seq<(nat, nat)>)
    requires batch != []
    ensures Lbas(batch) == {batch[0].0} + Lbas(batch[1..])
  {
  }

  lemma {:induction false} FlushInvisible(c: Cache, batch: seq<(nat, nat)>, ios: seq<WriteIo>)
    requires WellFormed(c) && Pending(c, batch) && |ios| == |batch|
    ensures var c' := Flush(c, batch, ios).0;
            && WellFormed(c') && c'.table.Keys == c.table.Keys && |c'.device| == |c.device|
            && (forall l :: View(c', l) == View(c, l))
            && (forall l | l !in Lbas(batch) :: At(c'.device, l) == At(c.device, l))
            && (Coherent(c) ==> Coherent(c'))
    decreases |batch|
  {
    if batch == [] {
    } else {
      PendingRest(c, batch, ios[0]);
      FlushOneStep(c, batch[0], ios[0]);
      LbasStep(batch);
      FlushInvisible(FlushOne(c, batch[0], ios[0]), batch[1..], ios[1..]);
    }
  }

  lemma {:induction false} FlushCleans(c: Cache, batch: seq<(nat, nat)>, ios: seq<WriteIo>)
    requires WellFormed(c) && Pending(c, batch) && |ios| == |batch|
    ensures var (c', n) := Flush(c, batch, ios);
            Dirty(c') == Dirty(c) - Cleaned(batch, ios) && n == |Cleaned(batch, ios)|
    decreases |batch|
  {
    if batch == [] {
      assert Cleaned(batch, ios) == {};
    } else {
      var c1 := FlushOne(c, batch[0], ios[0]);
      assert Pending(c1, batch[1..]) && WellFormed(c1) &&
             Dirty(c1) == Dirty(c) - (if ios[0].Written? then {batch[0].0} else {}) by {
        PendingRest(c, batch, ios[0]);
        FlushOneStep(c, batch[0], ios[0]);
      }
      CleanedStep(batch, ios);
      FlushCleans(c1, batch[1..], ios[1..]);
    }
  }

  lemma SnapshotIsPending(c: Cache, batch: seq<(nat, nat)>)
    requires IsSnapshot(c, batch)
    ensures Pending(c, batch) && Lbas(batch) == Dirty(c)
  {
  }

  lemma FailedStayDirty(c: Cache, batch: seq<(nat, nat)>, ios: seq<WriteIo>, l: nat)
    requires IsSnapshot(c, batch) && |ios| == |batch|
    ensures l in Dirty(c) - Cleaned(batch, ios) <==>
            exists k :: 0 <= k < |batch| && batch[k].0 == l && ios[k].Torn?
  {
  }

  /** Flush cycle exactness: afterwards exactly the entries whose write failed are dirty, the
      count returned is the decrease in dirty entries, the device changed only where it was
      stale, and nobody sees a difference. */
  lemma FlushCycleExact(c: Cache, batch: seq<(nat, nat)>, ios: seq<WriteIo>)
    requires WellFormed(c) && IsSnapshot(c, batch) && |ios| == |batch|
    ensures var (c', n) := Flush(c, batch, ios);
            && WellFormed(c')
            && (forall l :: l in Dirty(c') <==> exists k :: 0 <= k < |batch| && batch[k].0 == l && ios[k].Torn?)
            && |Dirty(c')| == |Dirty(c)| - n
            && (forall l | l !in Dirty(c) :: At(c'.device, l) == At(c.device, l))
            && (forall l :: View(c', l) == View(c, l))
            && (Coherent(c) ==> Coherent(c'))
  {
    SnapshotIsPending(c, batch);
    FlushInvisible(c, batch, ios);
    FlushCleans(c, batch, ios);
    var cleaned, dirty, dirty' := Cleaned(batch, ios), Dirty(c), Dirty(Flush(c, batch, ios).0);
    assert cleaned <= dirty;
    assert |dirty - cleaned| == |dirty| - |cleaned|;
    forall l
      ensures l in dirty' <==> exists k :: 0 <= k < |batch| && batch[k].0 == l && ios[k].Torn?
    {
      FailedStayDirty(c, batch, ios, l);
    }
  }

  /** Without failures a cycle leaves nothing dirty and the device holding the whole view. */
  lemma FlushCycleComplete(c: Cache, batch: seq<(nat, nat)>, ios: seq<WriteIo>)
    requires WellFormed(c) && Coherent(c) && IsSnapshot(c, batch) && |ios| == |batch|
    requires forall k | 0 <= k < |ios| :: ios[k].Written?
    ensures var c' := Flush(c, batch, ios).0;
            Dirty(c') == {} && forall l :: At(c'.device, l) == View(c, l)
  {
    FlushCycleExact(c, batch, ios);
    var c' := Flush(c, batch, ios).0;
    assert Dirty(c') == {};
    forall l ensures At(c'.device, l) == View(c, l) {
      assert View(c', l) == View(c, l);
      assert l in c'.table ==> l !in Dirty(c');
    }
  }
}
