/** Choosing a victim: sort a copy of the entries by age, take the first clean one, else the first. */
module Eviction {
  import opened Blocks
  import opened CacheState
  import opened Requests

  datatype Candidate = Candidate(lba: nat, poolIndex: nat, needsFlush: bool)

  ghost predicate SortedByAccess(entries: seq<Entry>) {
    forall i, j | 0 <= i < j < |entries| :: entries[i].lastAccess <= entries[j].lastAccess
  }

  /** `e` put after every entry that is no newer. */
  function InsertByAccess(entries: seq<Entry>, e: Entry): seq<Entry> {
    if entries == [] || entries[|entries| - 1].lastAccess <= e.lastAccess then entries + [e]
    else InsertByAccess(entries[..|entries| - 1], e) + [entries[|entries| - 1]]
  }

  /** The stable sort by `last_access`. */
  function SortByAccess(entries: seq<Entry>): seq<Entry> {
    if entries == [] then []
    else InsertByAccess(SortByAccess(entries[..|entries| - 1]), entries[|entries| - 1])
  }

  lemma AppendSorted(entries: seq<Entry>, last: Entry)
    requires SortedByAccess(entries) && forall e | e in entries :: e.lastAccess <= last.lastAccess
    ensures SortedByAccess(entries + [last])
  {
  }

  lemma {:induction false} InsertedAre(entries: seq<Entry>, e: Entry)
    ensures forall d :: d in InsertByAccess(entries, e) <==> d in entries || d == e
    decreases |entries|
  {
    if entries == [] || entries[|entries| - 1].lastAccess <= e.lastAccess {
    } else {
      assert entries == entries[..|entries| - 1] + [entries[|entries| - 1]];
      InsertedAre(entries[..|entries| - 1], e);
    }
  }

  lemma {:induction false} InsertSorts(entries: seq<Entry>, e: Entry)
    requires SortedByAccess(entries)
    ensures SortedByAccess(InsertByAccess(entries, e))
    decreases |entries|
  {
    if entries == [] {
    } else if entries[|entries| - 1].lastAccess <= e.lastAccess {
      forall d | d in entries ensures d.lastAccess <= e.lastAccess {
      }
      AppendSorted(entries, e);
    } else {
      var front, last := entries[..|entries| - 1], entries[|entries| - 1];
      InsertSorts(front, e);
      InsertedAre(front, e);
      var inner := InsertByAccess(front, e);
      assert entries == front + [last];
      forall d | d in inner ensures d.lastAccess <= last.lastAccess {
        assert d == e || d in front;
      }
      AppendSorted(inner, last);
    }
  }

  lemma {:induction false} SortSorts(entries: seq<Entry>)
    ensures SortedByAccess(SortByAccess(entries))
    ensures forall e :: e in SortByAccess(entries) <==> e in entries
    decreases |entries|
  {
    if entries == [] {
    } else {
      var front, last := entries[..|entries| - 1], entries[|entries| - 1];
      assert entries == front + [last];
      SortSorts(front);
      InsertSorts(SortByAccess(front), last);
      InsertedAre(SortByAccess(front), last);
    }
  }

  /** The `find` of `find_oldest_clean`. */
  function FirstClean(entries: seq<Entry>): Option<Entry> {
    if entries == [] then None
    else if !entries[0].dirty then Some(entries[0])
    else FirstClean(entries[1..])
  }

  function Described(e: Entry): Candidate {
    Candidate(e.lba, e.poolIndex, e.dirty)
  }

  /** `select_eviction_candidate` on entries sorted oldest first. */
  function SelectCandidate(entries: seq<Entry>): Option<Candidate> {
    if entries == [] then None
    else if FirstClean(entries).Some? then Some(Described(FirstClean(entries).value))
    else Some(Candidate(entries[0].lba, entries[0].poolIndex, true))
  }

  /** The candidate for a table listed as `entries` is `v`. */
  ghost predicate Chooses(entries: seq<Entry>, v: nat) {
    var candidate := SelectCandidate(SortByAccess(entries));
    candidate.Some? && candidate.value.lba == v
  }

  /** `entries` are the table's values, each once, in whatever order its iteration yields them. */
  ghost predicate Lists(table: map<nat, Entry>, entries: seq<Entry>) {
    && (forall e | e in entries :: e.lba in table && table[e.lba] == e)
    && (forall l | l in table :: table[l] in entries)
    && |entries| == |table|
  }

  lemma {:induction false} NoClean(entries: seq<Entry>)
    ensures FirstClean(entries).None? <==> forall e | e in entries :: e.dirty
    decreases |entries|
  {
    if entries == [] || !entries[0].dirty {
    } else {
      NoClean(entries[1..]);
      assert entries == [entries[0]] + entries[1..];
    }
  }

  /** The scan finds the first clean entry of a sorted list, which is its oldest. */
  lemma {:induction false} FirstCleanIsOldest(entries: seq<Entry>)
    requires SortedByAccess(entries)
    ensures FirstClean(entries).Some? ==>
              var oldest := FirstClean(entries).value;
              && oldest in entries && !oldest.dirty
              && forall e | e in entries && !e.dirty :: oldest.lastAccess <= e.lastAccess
    decreases |entries|
  {
    if entries == [] || !entries[0].dirty {
    } else {
      FirstCleanIsOldest(entries[1..]);
      assert entries == [entries[0]] + entries[1..];
    }
  }

  lemma {:induction false} InsertLength(entries: seq<Entry>, e: Entry)
    ensures |InsertByAccess(entries, e)| == |entries| + 1
    decreases |entries|
  {
    if entries == [] || entries[|entries| - 1].lastAccess <= e.lastAccess {
    } else {
      InsertLength(entries[..|entries| - 1], e);
    }
  }

  lemma {:induction false} SortLength(entries: seq<Entry>)
    ensures |SortByAccess(entries)| == |entries|
    decreases |entries|
  {
    if entries == [] {
    } else {
      SortLength(entries[..|entries| - 1]);
      InsertLength(SortByAccess(entries[..|entries| - 1]), entries[|entries| - 1]);
    }
  }

  lemma SortKeepsListing(table: map<nat, Entry>, entries: seq<Entry>)
    requires Lists(table, entries)
    ensures Lists(table, SortByAccess(entries)) && SortedByAccess(SortByAccess(entries))
  {
    SortSorts(entries);
    SortLength(entries);
  }

  /** Eviction choice: whatever order the table's entries are listed in, the candidate is least under
      (dirty, last access), carries its own slot, and needs a flush exactly when every entry is dirty;
      there is none exactly when the table is empty. */
  lemma CandidateIsVictim(table: map<nat, Entry>, entries: seq<Entry>)
    requires forall l | l in table :: table[l].lba == l
    requires Lists(table, entries)
    ensures var candidate := SelectCandidate(SortByAccess(entries));
            && (candidate.None? <==> table == map[])
            && (candidate.Some? ==>
                  && IsVictim(table, candidate.value.lba)
                  && candidate.value.poolIndex == table[candidate.value.lba].poolIndex
                  && (candidate.value.needsFlush <==> forall l | l in table :: table[l].dirty)
                  && candidate.value.needsFlush == table[candidate.value.lba].dirty)
  {
    var sorted := SortByAccess(entries);
    SortKeepsListing(table, entries);
    if sorted != [] {
      assert sorted[0] in sorted;
      NoClean(sorted);
      FirstCleanIsOldest(sorted);
      if FirstClean(sorted).None? {
        forall l | l in table ensures table[l].dirty && sorted[0].lastAccess <= table[l].lastAccess {
          assert table[l] in sorted;
        }
      }
    }
  }

  // ---------------------------------------------------------------- every victim has its order

  lemma {:induction false} FirstCleanConcat(front: seq<Entry>, rest: seq<Entry>)
    ensures FirstClean(front + rest) == if FirstClean(front).Some? then FirstClean(front) else FirstClean(rest)
    decreases |front|
  {
    if front == [] {
      assert front + rest == rest;
    } else {
      assert (front + rest)[0] == front[0] && (front + rest)[1..] == front[1..] + rest;
      FirstCleanConcat(front[1..], rest);
    }
  }

  /** The stable sort puts no newer clean entry before a clean `v`. */
  lemma {:induction false} InsertKeepsClean(entries: seq<Entry>, e: Entry, v: Entry)
    requires FirstClean(entries) == Some(v) && NoLaterThan(v, e)
    ensures FirstClean(InsertByAccess(entries, e)) == Some(v)
    decreases |entries|
  {
    var front, last := entries[..|entries| - 1], entries[|entries| - 1];
    assert entries == front + [last];
    FirstCleanConcat(entries, [e]);
    FirstCleanConcat(front, [last]);
    if last.lastAccess <= e.lastAccess {
    } else if FirstClean(front).Some? {
      InsertKeepsClean(front, e, v);
      FirstCleanConcat(InsertByAccess(front, e), [last]);
    } else {
      NoClean(front);
      InsertedAre(front, e);
      NoClean(InsertByAccess(front, e));
      FirstCleanConcat(InsertByAccess(front, e), [last]);
    }
  }

  /** An oldest entry that comes first stays first. */
  lemma {:induction false} InsertKeepsFirst(entries: seq<Entry>, e: Entry)
    requires entries != [] && entries[0].lastAccess <= e.lastAccess
    ensures InsertByAccess(entries, e)[0] == entries[0]
    decreases |entries|
  {
    if entries[|entries| - 1].lastAccess <= e.lastAccess {
    } else {
      InsertKeepsFirst(entries[..|entries| - 1], e);
    }
  }

  /** A victim listed first is the one chosen. */
  lemma {:induction false} FirstIsChosen(entries: seq<Entry>)
    requires entries != [] && forall e | e in entries :: NoLaterThan(entries[0], e)
    ensures SelectCandidate(SortByAccess(entries)) == Some(Described(entries[0]))
    ensures if entries[0].dirty then SortByAccess(entries)[0] == entries[0]
            else FirstClean(SortByAccess(entries)) == Some(entries[0])
    decreases |entries|
  {
    var front, last := entries[..|entries| - 1], entries[|entries| - 1];
    if front == [] {
      assert SortByAccess(entries) == [last];
      NoClean([last]);
    } else {
      FirstIsChosen(front);
      assert last in entries;
      if entries[0].dirty {
        InsertKeepsFirst(SortByAccess(front), last);
        SortSorts(entries);
        NoClean(SortByAccess(entries));
      } else {
        InsertKeepsClean(SortByAccess(front), last, entries[0]);
      }
    }
  }

  /** A listing that starts where one pleases. */
  lemma ListingFrom(table: map<nat, Entry>, v: nat) returns (entries: seq<Entry>)
    requires v in table && forall l | l in table :: table[l].lba == l
    ensures Lists(table, entries) && entries[0] == table[v]
    decreases |table|
  {
    var rest := table - {v};
    RemoveOne(table, v);
    entries := [];
    if rest != map[] {
      var w :| w in rest;
      entries := ListingFrom(rest, w);
    }
    entries := [table[v]] + entries;
    forall l | l in table ensures table[l] in entries {
      assert l == v || rest[l] == table[l];
    }
  }

  /** Eviction choice, both ways: an entry is least under (dirty, last access) if and only if the
      table's entries can be listed so that the candidate is that entry. */
  lemma ChosenExactly(table: map<nat, Entry>, v: nat)
    requires forall l | l in table :: table[l].lba == l
    ensures IsVictim(table, v) <==> exists entries :: Lists(table, entries) && Chooses(entries, v)
  {
    if IsVictim(table, v) {
      var entries := ListingFrom(table, v);
      FirstIsChosen(entries);
      assert Chooses(entries, v);
    }
    forall entries | Lists(table, entries) && Chooses(entries, v) ensures IsVictim(table, v) {
      CandidateIsVictim(table, entries);
    }
  }
}
