/** The LBA table: a map from LBA to entry, updated in place (`lba_table.rs`, `entry.rs`). */
module Table {
  import opened Blocks
  import opened CacheState
  import opened Eviction

  /** `CacheEntry::touch`. */
  function Touched(e: Entry, now: nat): Entry {
    e.(lastAccess := now)
  }

  /** The `filter` and `map` of `dirty_entries`. */
  function DirtyPairs(entries: seq<Entry>): seq<(nat, nat)> {
    if entries == [] then []
    else
      var e := entries[|entries| - 1];
      DirtyPairs(entries[..|entries| - 1]) + if e.dirty then [(e.lba, e.poolIndex)] else []
  }

  lemma {:induction false} PairsOfDirty(entries: seq<Entry>)
    ensures forall p | p in DirtyPairs(entries) :: exists e :: e in entries && e.dirty && p == (e.lba, e.poolIndex)
    ensures forall e | e in entries && e.dirty :: (e.lba, e.poolIndex) in DirtyPairs(entries)
    decreases |entries|
  {
    if entries == [] {
    } else {
      var front, last := entries[..|entries| - 1], entries[|entries| - 1];
      assert entries == front + [last];
      PairsOfDirty(front);
      forall p | p in DirtyPairs(entries) ensures exists e :: e in entries && e.dirty && p == (e.lba, e.poolIndex) {
        if p in DirtyPairs(front) {
          var e :| e in front && e.dirty && p == (e.lba, e.poolIndex);
          assert e in entries;
        } else {
          assert last in entries;
        }
      }
    }
  }

  lemma ExtendDistinct(batch: seq<(nat, nat)>, p: (nat, nat))
    requires DistinctLbas(batch) && forall j | 0 <= j < |batch| :: batch[j].0 != p.0
    ensures DistinctLbas(batch + [p])
  {
  }

  lemma {:induction false} PairsDistinct(entries: seq<Entry>)
    requires forall j, k | 0 <= j < k < |entries| :: entries[j].lba != entries[k].lba
    ensures DistinctLbas(DirtyPairs(entries))
    decreases |entries|
  {
    if entries == [] {
    } else {
      var front, last := entries[..|entries| - 1], entries[|entries| - 1];
      PairsDistinct(front);
      PairsOfDirty(front);
      var batch := DirtyPairs(front);
      assert |front| == |entries| - 1;
      forall j | 0 <= j < |batch| ensures batch[j].0 != last.lba {
        assert batch[j] in batch;
        var e :| e in front && e.dirty && batch[j] == (e.lba, e.poolIndex);
        var m :| 0 <= m < |front| && front[m] == e;
        assert entries[m] == e && entries[m].lba != entries[|entries| - 1].lba;
      }
      ExtendDistinct(batch, (last.lba, last.poolIndex));
    }
  }

  class LbaTable {
    var inner: map<nat, Entry>

    constructor ()
      ensures inner == map[]
    {
      inner := map[];
    }

    method Get(lba: nat) returns (entry: Option<Entry>)
      ensures entry == if lba in inner then Some(inner[lba]) else None
    {
      entry := if lba in inner then Some(inner[lba]) else None;
    }

    /** Touches the entry and returns its slot. */
    method GetAndTouch(lba: nat, now: nat) returns (index: Option<nat>)
      modifies this
      ensures lba in old(inner) ==>
                && index == Some(old(inner)[lba].poolIndex)
                && inner == old(inner)[lba := old(inner)[lba].(lastAccess := now)]
      ensures lba !in old(inner) ==> index == None && inner == old(inner)
    {
      if lba in inner {
        inner := inner[lba := Touched(inner[lba], now)];
        return Some(inner[lba].poolIndex);
      }
      return None;
    }

    method Insert(lba: nat, entry: Entry)
      modifies this
      ensures inner == old(inner)[lba := entry]
    {
      inner := inner[lba := entry];
    }

    method Remove(lba: nat)
      modifies this
      ensures inner == old(inner) - {lba}
    {
      inner := inner - {lba};
    }

    /** Marks dirty and touches; a no-op when `lba` is not cached. */
    method MarkDirty(lba: nat, now: nat)
      modifies this
      ensures inner == if lba in old(inner) then
                         old(inner)[lba := old(inner)[lba].(dirty := true, lastAccess := now)]
                       else old(inner)
    {
      if lba in inner {
        inner := inner[lba := Touched(inner[lba].(dirty := true), now)];
      }
    }

    method MarkClean(lba: nat)
      modifies this
      ensures inner == if lba in old(inner) then old(inner)[lba := old(inner)[lba].(dirty := false)] else old(inner)
    {
      if lba in inner {
        inner := inner[lba := inner[lba].(dirty := false)];
      }
    }

    /** All entries, in the order the hash map happens to yield them. */
    method Values() returns (entries: seq<Entry>)
      requires forall l | l in inner :: inner[l].lba == l
      ensures Lists(inner, entries)
      ensures forall j, k | 0 <= j < k < |entries| :: entries[j].lba != entries[k].lba
    {
      entries := [];
      var rest := inner.Keys;
      while rest != {}
        invariant rest <= inner.Keys && |entries| + |rest| == |inner|
        invariant forall e | e in entries :: e.lba in inner && inner[e.lba] == e && e.lba !in rest
        invariant forall l | l in inner && l !in rest :: inner[l] in entries
        invariant forall j, k | 0 <= j < k < |entries| :: entries[j].lba != entries[k].lba
        decreases rest
      {
        var l :| l in rest;
        entries, rest := entries + [inner[l]], rest - {l};
      }
    }

    /** `entries_by_lru`. */
    method EntriesByLru() returns (entries: seq<Entry>)
      requires forall l | l in inner :: inner[l].lba == l
      ensures exists listed :: Lists(inner, listed) && entries == SortByAccess(listed)
    {
      var listed := Values();
      entries := SortByAccess(listed);
    }

    /** The dirty snapshot: every dirty LBA once, with its slot. */
    method DirtyEntries() returns (batch: seq<(nat, nat)>)
      requires forall l | l in inner :: inner[l].lba == l
      ensures forall k | 0 <= k < |batch| ::
                batch[k].0 in inner && inner[batch[k].0].dirty && batch[k].1 == inner[batch[k].0].poolIndex
      ensures DistinctLbas(batch)
      ensures forall l | l in inner && inner[l].dirty :: exists k :: 0 <= k < |batch| && batch[k].0 == l
    {
      var values := Values();
      batch := [];
      for i := 0 to |values|
        invariant batch == DirtyPairs(values[..i])
      {
        var e := values[i];
        assert values[..i + 1][..i] == values[..i];
        if e.dirty {
          batch := batch + [(e.lba, e.poolIndex)];
        }
      }
      assert values[..|values|] == values;
      PairsOfDirty(values);
      PairsDistinct(values);
      forall l | l in inner && inner[l].dirty ensures exists k :: 0 <= k < |batch| && batch[k].0 == l {
        assert inner[l] in values;
        assert (l, inner[l].poolIndex) in batch;
      }
      forall k | 0 <= k < |batch|
        ensures batch[k].0 in inner && inner[batch[k].0].dirty && batch[k].1 == inner[batch[k].0].poolIndex
      {
        assert batch[k] in batch;
      }
    }

    /** The counts of `stats`: entries in all, and entries that are dirty. */
    method Stats() returns (total: nat, dirty: nat)
      requires forall l | l in inner :: inner[l].lba == l
      ensures total == |inner| && dirty == |set l | l in inner && inner[l].dirty|
    {
      total, dirty := |inner|, 0;
      var rest := inner.Keys;
      while rest != {}
        invariant rest <= inner.Keys
        invariant dirty == |set l | l in inner && l !in rest && inner[l].dirty|
        decreases rest
      {
        var l :| l in rest;
        ghost var before := set m | m in inner && m !in rest && inner[m].dirty;
        rest := rest - {l};
        assert (set m | m in inner && m !in rest && inner[m].dirty) == before + if inner[l].dirty then {l} else {};
        if inner[l].dirty {
          dirty := dirty + 1;
        }
      }
      assert (set l | l in inner && l !in rest && inner[l].dirty) == set l | l in inner && inner[l].dirty;
    }
  }
}
