/**
  Read traffic makes the timestamp-sorting eviction a true LRU policy on the slots that dirty blocks
  leave, whatever state it starts from.  The theorems hold for every victim choice the table's
  iteration order allows, as long as the oldest clean entry is unique whenever a victim is sought; a
  strictly increasing clock is enough for that, and `TrueLruExactly` shows that ties break LRU.
 */
module Lru {
  import opened Blocks
  import opened CacheState
  import opened Requests
  import opened Recency
  import opened Eviction

  /** A read that succeeds, at a clock reading no older than any entry's. */
  ghost predicate Reads(c: Cache, l: nat, e: Env) {
    && VictimOk(c, e) && Handle(c, Read(l), e).reply.ReadOk?
    && forall m | m in c.table :: c.table[m].lastAccess <= e.now
  }

  /** Only one entry may be evicted, whatever order the table's entries are listed in. */
  ghost predicate OneVictim(c: Cache) {
    forall v, w | IsVictim(c.table, v) && IsVictim(c.table, w) :: v == w
  }

  ghost predicate CanRead(c: Cache, l: nat, e: Env) {
    Reads(c, l, e) && (Seeks(c, Read(l)) ==> OneVictim(c))
  }

  /** A clock that never repeats a reading makes the victim unique. */
  lemma DistinctStampsOneVictim(c: Cache)
    requires DistinctStamps(c)
    ensures OneVictim(c)
  {
  }

  ghost predicate CanReadAll(c: Cache, t: seq<nat>, envs: seq<Env>)
    decreases |t|
  {
    |envs| == |t| &&
    (t == [] || (CanRead(c, t[0], envs[0]) && CanReadAll(Handle(c, Read(t[0]), envs[0]).cache, t[1..], envs[1..])))
  }

  /** The loop shared by the cached read benchmarks: the final state, and which reads hit. */
  ghost function ReadAll(c: Cache, t: seq<nat>, envs: seq<Env>): (Cache, seq<bool>)
    requires CanReadAll(c, t, envs)
    decreases |t|
  {
    if t == [] then (c, [])
    else
      var o := Handle(c, Read(t[0]), envs[0]);
      var (c', hits) := ReadAll(o.cache, t[1..], envs[1..]);
      (c', [o.reply.ReadOk? && o.reply.hit] + hits)
  }

  // ---------------------------------------------------------------- states as histories

  function Clean(c: Cache): set<nat> {
    c.table.Keys - Dirty(c)
  }

  /** Some slot in circulation does not hold a dirty block. */
  ghost predicate HasRoom(c: Cache) {
    |Dirty(c)| < InUse(c)
  }

  /** The slots in circulation that do not hold dirty blocks. */
  ghost function Room(c: Cache): nat
    requires HasRoom(c)
  {
    InUse(c) - |Dirty(c)|
  }

  /** The clean entries' timestamps are in the order of the trace. */
  ghost predicate InOrder(c: Cache, u: seq<nat>) {
    forall l, m | l in Clean(c) && m in Clean(c) && m in Since(u, l) :: c.table[l].lastAccess <= c.table[m].lastAccess
  }

  /** Outside the dirty blocks, the cache holds the most recent LBAs of the trace, their timestamps in
      the trace's order. */
  ghost predicate Tracks(c: Cache, t: seq<nat>) {
    && WellFormed(c) && HasRoom(c)
    && Holds(Clean(c), Without(t, Dirty(c)), Room(c))
    && InOrder(c, Without(t, Dirty(c)))
  }

  lemma CleanSize(c: Cache)
    ensures |Clean(c)| == |c.table| - |Dirty(c)|
  {
    assert Dirty(c) <= c.table.Keys;
    assert |c.table.Keys| == |c.table|;
    assert c.table.Keys == Dirty(c) + Clean(c);
  }

  lemma Newest(c: Cache, k: set<nat>) returns (x: nat)
    requires k != {} && k <= c.table.Keys
    ensures x in k && forall l | l in k :: c.table[l].lastAccess <= c.table[x].lastAccess
    decreases |k|
  {
    x :| x in k;
    if k != {x} {
      var y := Newest(c, k - {x});
      if c.table[x].lastAccess <= c.table[y].lastAccess {
        x := y;
      }
    }
  }

  /** The LBAs of `k` in the order they were last accessed. */
  lemma SomeHistory(c: Cache, k: set<nat>) returns (p: seq<nat>)
    requires k <= c.table.Keys
    ensures Members(p) == k
    ensures forall l, m | l in k && m in k && m in Since(p, l) :: c.table[l].lastAccess <= c.table[m].lastAccess
    decreases |k|
  {
    if k == {} {
      p := [];
    } else {
      var x := Newest(c, k);
      var q := SomeHistory(c, k - {x});
      p := q + [x];
      assert Members(p) == Members(q) + {x};
      forall l, m | l in k && m in k && m in Since(p, l) ensures c.table[l].lastAccess <= c.table[m].lastAccess {
        SinceAppend(q, x, l);
        if m != x {
          assert l in k - {x} && m in k - {x} && m in Since(q, l);
        }
      }
    }
  }

  /** Every state is what some trace leaves: its clean entries, oldest first. */
  lemma EveryStateTracks(c: Cache) returns (p: seq<nat>)
    requires WellFormed(c) && HasRoom(c)
    ensures Tracks(c, p) && Members(p) == Clean(c)
  {
    p := SomeHistory(c, Clean(c));
    WithoutNone(p, Dirty(c));
    CleanSize(c);
    AllRecent(p, Room(c));
  }

  lemma FreshTracks(c: Cache)
    requires Fresh(c) && |c.pool| > 0
    ensures Tracks(c, []) && Room(c) == InUse(c) == |c.pool| && Dirty(c) == {}
  {
    assert Dirty(c) == {};
  }

  // ---------------------------------------------------------------- one read

  /** While a slot is left, the victim is clean, and no clean entry is older. */
  lemma VictimIsClean(c: Cache, v: nat)
    requires WellFormed(c) && HasRoom(c) && c.free == [] && IsVictim(c.table, v)
    ensures v in Clean(c) && forall l | l in Clean(c) :: c.table[v].lastAccess <= c.table[l].lastAccess
  {
    CleanSize(c);
    var l :| l in Clean(c);
    assert NoLaterThan(c.table[v], c.table[l]);
    forall m | m in Clean(c) ensures c.table[v].lastAccess <= c.table[m].lastAccess {
      assert NoLaterThan(c.table[v], c.table[m]);
    }
  }

  lemma OldestCleanIsVictim(c: Cache, v: nat)
    requires v in Clean(c) && forall l | l in Clean(c) :: c.table[v].lastAccess <= c.table[l].lastAccess
    ensures IsVictim(c.table, v)
  {
    forall l | l in c.table ensures NoLaterThan(c.table[v], c.table[l]) {
      assert l in Clean(c) || l in Dirty(c);
    }
  }

  /** If only one entry may be evicted, it is the one that all other clean ones follow in the trace. */
  lemma VictimIsOldest(c: Cache, t: seq<nat>, v: nat)
    requires Tracks(c, t) && c.free == [] && IsVictim(c.table, v) && OneVictim(c)
    ensures v in Clean(c) && forall l | l in Clean(c) && l != v :: l in Since(Without(t, Dirty(c)), v)
  {
    VictimIsClean(c, v);
    forall l | l in Clean(c) && l != v ensures l in Since(Without(t, Dirty(c)), v) {
      assert Recent(Without(t, Dirty(c)), Room(c), l) && Recent(Without(t, Dirty(c)), Room(c), v);
      SinceTotal(Without(t, Dirty(c)), l, v);
      if v in Since(Without(t, Dirty(c)), l) {
        OldestCleanIsVictim(c, l);
      }
    }
  }

  /** The entry the read evicts, if any. */
  function Displaced(c: Cache, x: nat, e: Env): set<nat> {
    if x !in c.table && c.free == [] then {e.victim} else {}
  }

  /** What a successful read of `x` does to the entries: clean ones in `gone` are evicted, `x` is cached
      with the newest timestamp, and every other survivor is as it was. */
  ghost predicate ReadResult(t: map<nat, Entry>, t': map<nat, Entry>, x: nat, gone: set<nat>) {
    && (forall l | l in gone :: l in t && l != x && !t[l].dirty)
    && (forall l :: l in t' <==> l == x || (l in t && l !in gone))
    && (t'[x].dirty <==> x in t && t[x].dirty)
    && (forall l | l in t' && l != x :: t'[l] == t[l])
    && (forall l | l in t :: t[l].lastAccess <= t'[x].lastAccess)
  }

  lemma ReadHitResult(c: Cache, x: nat, e: Env)
    requires WellFormed(c) && Reads(c, x, e) && x in c.table
    ensures var o := Handle(c, Read(x), e);
            && o.reply.ReadOk? && o.reply.hit && ReadResult(c.table, o.cache.table, x, {})
  {
  }

  lemma ReadMissResult(c: Cache, x: nat, e: Env)
    requires WellFormed(c) && HasRoom(c) && Reads(c, x, e) && x !in c.table
    ensures var o := Handle(c, Read(x), e);
            && o.reply.ReadOk? && !o.reply.hit && ReadResult(c.table, o.cache.table, x, Displaced(c, x, e))
  {
    CleanSize(c);
    if c.free == [] {
      VictimIsClean(c, e.victim);
    }
  }

  lemma ReadGives(c: Cache, x: nat, e: Env)
    requires WellFormed(c) && HasRoom(c) && Reads(c, x, e)
    ensures var o := Handle(c, Read(x), e);
            && o.reply.ReadOk? && o.reply.hit == (x in c.table)
            && ReadResult(c.table, o.cache.table, x, Displaced(c, x, e))
  {
    if x in c.table {
      ReadHitResult(c, x, e);
    } else {
      ReadMissResult(c, x, e);
    }
  }

  ghost predicate SameRoom(c': Cache, c: Cache) {
    Dirty(c') == Dirty(c) && InUse(c') == InUse(c) && |c'.device| == |c.device|
  }

  lemma ReadKeepsShape(c: Cache, x: nat, e: Env)
    requires WellFormed(c) && VictimOk(c, e) && Handle(c, Read(x), e).reply.ReadOk?
    ensures var c' := Handle(c, Read(x), e).cache;
            WellFormed(c') && InUse(c') == InUse(c) && |c'.device| == |c.device|
  {
    HandleConservesSlots(c, Read(x), e);
    HandleShape(c, Read(x), e);
  }

  /** Reads neither make blocks dirty nor evict dirty ones while a slot is left. */
  lemma PartsAfterRead(c: Cache, c': Cache, x: nat, gone: set<nat>)
    requires ReadResult(c.table, c'.table, x, gone)
    ensures Dirty(c') == Dirty(c)
    ensures Clean(c') == if x in Dirty(c) then Clean(c) - gone else Clean(c) - gone + {x}
  {
    forall l ensures l in Dirty(c') <==> l in Dirty(c) {
    }
  }

  /** What goes is the one LBA held that all others follow in the trace. */
  ghost predicate FirstGoes(held: set<nat>, u: seq<nat>, gone: set<nat>) {
    exists v :: gone == {v} && v in held && forall l | l in held && l != v :: l in Since(u, v)
  }

  /** The clean part of the table and the filtered trace move together, if the right entry goes. */
  lemma HoldsAfterRead(held: set<nat>, u: seq<nat>, n: nat, x: nat, gone: set<nat>)
    requires Holds(held, u, n)
    requires if x in held then gone == {}
             else if |held| < n then gone == {}
             else |held| == n && FirstGoes(held, u, gone)
    ensures Holds(held - gone + {x}, u + [x], n)
  {
    if x in held {
      HoldsAfterHit(held, u, n, x);
      assert held - gone + {x} == held;
    } else if |held| < n {
      HoldsAfterMissWithRoom(held, u, n, x);
      assert held - gone + {x} == held + {x};
    } else {
      var v :| gone == {v} && v in held && forall l | l in held && l != v :: l in Since(u, v);
      HoldsAfterMissWhenFull(held, u, n, x, v);
      assert held - gone + {x} == held - {v} + {x};
    }
  }

  lemma OldestGoes(c: Cache, t: seq<nat>, x: nat, e: Env)
    requires Tracks(c, t) && CanRead(c, x, e) && x !in Dirty(c)
    ensures var held, u, gone := Clean(c), Without(t, Dirty(c)), Displaced(c, x, e);
            if x in held then gone == {}
            else if |held| < Room(c) then gone == {}
            else |held| == Room(c) && FirstGoes(held, u, gone)
  {
    CleanSize(c);
    if x !in c.table && c.free == [] {
      VictimIsOldest(c, t, e.victim);
      assert Displaced(c, x, e) == {e.victim};
    }
  }

  lemma CleanPartAfterRead(c: Cache, c': Cache, t: seq<nat>, x: nat, e: Env)
    requires Tracks(c, t) && CanRead(c, x, e) && ReadResult(c.table, c'.table, x, Displaced(c, x, e))
    ensures Holds(Clean(c'), Without(t + [x], Dirty(c)), Room(c))
  {
    PartsAfterRead(c, c', x, Displaced(c, x, e));
    WithoutAppend(t, x, Dirty(c));
    if x in Dirty(c) {
      assert Clean(c) - {} == Clean(c);
    } else {
      OldestGoes(c, t, x, e);
      HoldsAfterRead(Clean(c), Without(t, Dirty(c)), Room(c), x, Displaced(c, x, e));
    }
  }

  lemma PairKept(c: Cache, c': Cache, x: nat, gone: set<nat>, l: nat, m: nat)
    requires ReadResult(c.table, c'.table, x, gone) && l in c'.table && m in c'.table && l != x
    requires m != x ==> l in c.table && m in c.table && c.table[l].lastAccess <= c.table[m].lastAccess
    ensures c'.table[l].lastAccess <= c'.table[m].lastAccess
  {
  }

  lemma OrderAfterRead(c: Cache, c': Cache, u: seq<nat>, x: nat, gone: set<nat>)
    requires InOrder(c, u) && ReadResult(c.table, c'.table, x, gone)
    ensures InOrder(c', if x in Dirty(c) then u else u + [x])
  {
    PartsAfterRead(c, c', x, gone);
    var u' := if x in Dirty(c) then u else u + [x];
    forall l, m | l in Clean(c') && m in Clean(c') && m in Since(u', l)
      ensures c'.table[l].lastAccess <= c'.table[m].lastAccess
    {
      SinceAppend(u, x, l);
      if l != x {
        assert m != x ==> l in Clean(c) && m in Clean(c) && m in Since(u, l);
        PairKept(c, c', x, gone, l, m);
      }
    }
  }

  lemma OrderKept(c: Cache, c': Cache, t: seq<nat>, x: nat, gone: set<nat>)
    requires Tracks(c, t) && ReadResult(c.table, c'.table, x, gone)
    ensures InOrder(c', Without(t + [x], Dirty(c)))
  {
    OrderAfterRead(c, c', Without(t, Dirty(c)), x, gone);
    WithoutAppend(t, x, Dirty(c));
  }

  /** One read beside a set of dirty blocks: it hits exactly those and the recent other LBAs, and keeps
      the recent ones cached. */
  lemma ReadTracks(c: Cache, t: seq<nat>, x: nat, e: Env)
    requires Tracks(c, t) && CanRead(c, x, e)
    ensures var o := Handle(c, Read(x), e);
            && Tracks(o.cache, t + [x]) && SameRoom(o.cache, c) && o.reply.ReadOk?
            && (o.reply.hit <==> x in Dirty(c) || Recent(Without(t, Dirty(c)), Room(c), x))
  {
    var c' := Handle(c, Read(x), e).cache;
    ReadGives(c, x, e);
    ReadKeepsShape(c, x, e);
    PartsAfterRead(c, c', x, Displaced(c, x, e));
    CleanPartAfterRead(c, c', t, x, e);
    OrderKept(c, c', t, x, Displaced(c, x, e));
    assert x in Clean(c) <==> Recent(Without(t, Dirty(c)), Room(c), x);
  }

  // ---------------------------------------------------------------- when ties matter

  lemma SomeReadWith(c: Cache, x: nat, now: nat, v: nat) returns (e: Env)
    requires x < |c.device| && Seeks(c, Read(x)) && IsVictim(c.table, v)
    requires forall m | m in c.table :: c.table[m].lastAccess <= now
    ensures e.now == now && e.victim == v && Reads(c, x, e)
  {
    e := Env(now, v, Written, Fetched);
  }

  /** Evicting an LBA that follows another cached one is not LRU. */
  lemma WrongVictim(held: set<nat>, t: seq<nat>, n: nat, x: nat, v: nat, w: nat)
    requires Holds(held, t, n) && x !in held && v in held && w in held && w in Since(t, v)
    ensures !Holds(held - {w} + {x}, t + [x], n)
  {
    SinceFacts(t, v);
    SinceFacts(t, w);
    SinceNested(t, v, w);
    RecentAppend(t, n, x, v);
    RecentAppend(t, n, x, w);
    assert |Since(t, w) + {w} + {x}| == |Since(t, w) + {x}| + 1;
    SubsetSize(Since(t, w) + {w} + {x}, Since(t, v) + {x});
  }

  /** A read whose victim is the candidate for the table listed as `entries`. */
  ghost predicate ReadsListed(c: Cache, x: nat, entries: seq<Entry>, e: Env) {
    Reads(c, x, e) && Lists(c.table, entries) && (Seeks(c, Read(x)) ==> Chooses(entries, e.victim))
  }

  lemma ListingOf(c: Cache, v: nat) returns (entries: seq<Entry>)
    requires WellFormed(c) && IsVictim(c.table, v)
    ensures Lists(c.table, entries) && Chooses(entries, v)
  {
    ChosenExactly(c.table, v);
    entries :| Lists(c.table, entries) && Chooses(entries, v);
  }

  /** A read with a free choice of victim that leaves another set than the recent LBAs. */
  lemma BreakingRead(c: Cache, t: seq<nat>, x: nat, now: nat) returns (entries: seq<Entry>, e: Env)
    requires Tracks(c, t) && Seeks(c, Read(x)) && !OneVictim(c)
    requires forall m | m in c.table :: c.table[m].lastAccess <= now
    ensures e.now == now && ReadsListed(c, x, entries, e)
    ensures !Holds(Clean(Handle(c, Read(x), e).cache), Without(t + [x], Dirty(c)), Room(c))
  {
    var v: nat, w: nat :| IsVictim(c.table, v) && IsVictim(c.table, w) && v != w;
    var u := Without(t, Dirty(c));
    VictimIsClean(c, v);
    VictimIsClean(c, w);
    assert Recent(u, Room(c), v) && Recent(u, Room(c), w);
    SinceTotal(u, v, w);
    var older, newer := if w in Since(u, v) then v else w, if w in Since(u, v) then w else v;
    e := SomeReadWith(c, x, now, newer);
    entries := ListingOf(c, newer);
    ReadGives(c, x, e);
    PartsAfterRead(c, Handle(c, Read(x), e).cache, x, {newer});
    WithoutAppend(t, x, Dirty(c));
    WrongVictim(Clean(c), u, Room(c), x, older, newer);
  }

  /** True LRU, exactly: a read keeps the clean part equal to the recent LBAs whatever order the
      table's entries are listed in if and only if, when it seeks a victim, there is only one to choose. */
  lemma TrueLruExactly(c: Cache, t: seq<nat>, x: nat, now: nat)
    requires Tracks(c, t) && x < |c.device| && forall m | m in c.table :: c.table[m].lastAccess <= now
    ensures (Seeks(c, Read(x)) ==> OneVictim(c)) <==>
            forall entries, e: Env | e.now == now && ReadsListed(c, x, entries, e) ::
              Holds(Clean(Handle(c, Read(x), e).cache), Without(t + [x], Dirty(c)), Room(c))
  {
    if Seeks(c, Read(x)) ==> OneVictim(c) {
      forall entries, e: Env | e.now == now && ReadsListed(c, x, entries, e)
        ensures Holds(Clean(Handle(c, Read(x), e).cache), Without(t + [x], Dirty(c)), Room(c))
      {
        ReadGives(c, x, e);
        CleanPartAfterRead(c, Handle(c, Read(x), e).cache, t, x, e);
      }
    } else {
      var entries, e := BreakingRead(c, t, x, now);
    }
  }

  // ---------------------------------------------------------------- traces

  /** The read at position `i` of the trace hits, from the trace alone: beside the dirty blocks `d` the
      cache holds the `n` most recent LBAs. */
  predicate HitAt(p: seq<nat>, t: seq<nat>, d: set<nat>, n: nat, i: nat)
    requires i < |t|
  {
    t[i] in d || Recent(Without(p + t[..i], d), n, t[i])
  }

  ghost predicate HitsAre(p: seq<nat>, t: seq<nat>, d: set<nat>, n: nat, hits: seq<bool>) {
    |hits| == |t| && forall i | 0 <= i < |t| :: hits[i] <==> HitAt(p, t, d, n, i)
  }

  lemma HitAtShift(p: seq<nat>, t: seq<nat>, d: set<nat>, n: nat, i: nat)
    requires 0 < i < |t|
    ensures HitAt(p, t, d, n, i) <==> HitAt(p + [t[0]], t[1..], d, n, i - 1)
  {
    assert t[1..][i - 1] == t[i];
    assert p + [t[0]] + t[1..][..i - 1] == p + t[..i];
  }

  lemma HitsAreStep(p: seq<nat>, t: seq<nat>, d: set<nat>, n: nat, hits: seq<bool>)
    requires |hits| == |t| > 0
    requires hits[0] <==> t[0] in d || Recent(Without(p, d), n, t[0])
    requires HitsAre(p + [t[0]], t[1..], d, n, hits[1..])
    ensures HitsAre(p, t, d, n, hits)
  {
    forall i | 0 <= i < |t| ensures hits[i] <==> HitAt(p, t, d, n, i) {
      if i == 0 {
        assert p + t[..0] == p;
      } else {
        HitAtShift(p, t, d, n, i);
        assert hits[i] == hits[1..][i - 1];
      }
    }
  }

  lemma {:induction false} ReadAllKeeps(c: Cache, p: seq<nat>, t: seq<nat>, envs: seq<Env>)
    requires Tracks(c, p) && CanReadAll(c, t, envs)
    ensures var c' := ReadAll(c, t, envs).0; Tracks(c', p + t) && SameRoom(c', c)
    decreases |t|
  {
    if t == [] {
      assert p + t == p;
    } else {
      assert p + [t[0]] + t[1..] == p + t;
      ReadTracks(c, p, t[0], envs[0]);
      ReadAllKeeps(Handle(c, Read(t[0]), envs[0]).cache, p + [t[0]], t[1..], envs[1..]);
    }
  }

  lemma {:induction false} ReadAllHits(c: Cache, p: seq<nat>, t: seq<nat>, envs: seq<Env>)
    requires Tracks(c, p) && CanReadAll(c, t, envs)
    ensures HitsAre(p, t, Dirty(c), Room(c), ReadAll(c, t, envs).1)
    decreases |t|
  {
    if t == [] {
    } else {
      var o := Handle(c, Read(t[0]), envs[0]);
      var rest := ReadAll(o.cache, t[1..], envs[1..]).1;
      var hits := [o.reply.ReadOk? && o.reply.hit] + rest;
      assert hits[1..] == rest;
      assert (hits[0] <==> t[0] in Dirty(c) || Recent(Without(p, Dirty(c)), Room(c), t[0])) &&
             HitsAre(p + [t[0]], t[1..], Dirty(c), Room(c), rest) by {
        ReadTracks(c, p, t[0], envs[0]);
        ReadAllHits(o.cache, p + [t[0]], t[1..], envs[1..]);
      }
      HitsAreStep(p, t, Dirty(c), Room(c), hits);
    }
  }

  lemma ReadAllTracks(c: Cache, p: seq<nat>, t: seq<nat>, envs: seq<Env>)
    requires Tracks(c, p) && CanReadAll(c, t, envs)
    ensures var (c', hits) := ReadAll(c, t, envs);
            Tracks(c', p + t) && SameRoom(c', c) && HitsAre(p, t, Dirty(c), Room(c), hits)
  {
    ReadAllKeeps(c, p, t, envs);
    ReadAllHits(c, p, t, envs);
  }

  // ---------------------------------------------------------------- theorems

  /** LRU beside dirty blocks: from any state with a slot that holds no dirty block, after a read trace
      during which nothing is flushed, the same blocks are dirty, the other cached LBAs are the last
      `Room` distinct ones of the trace outside them, the trace being continued into the past by the
      clean entries in order of age, and the hits are those of such a cache. */
  lemma LruBesideDirty(c: Cache, t: seq<nat>, envs: seq<Env>) returns (p: seq<nat>)
    requires WellFormed(c) && HasRoom(c) && CanReadAll(c, t, envs)
    ensures Members(p) == Clean(c)
    ensures forall l, m | l in Clean(c) && m in Since(p, l) ::
              m in Clean(c) && c.table[l].lastAccess <= c.table[m].lastAccess
    ensures var (c', hits) := ReadAll(c, t, envs);
            && Dirty(c') == Dirty(c)
            && (forall l | l !in Dirty(c) :: l in c'.table <==> Recent(Without(p + t, Dirty(c)), Room(c), l))
            && HitsAre(p, t, Dirty(c), Room(c), hits)
  {
    p := EveryStateTracks(c);
    ReadAllTracks(c, p, t, envs);
    var c' := ReadAll(c, t, envs).0;
    WithoutNone(p, Dirty(c));
    forall l | l in Clean(c) ensures Since(p, l) <= Clean(c) {
      SinceFacts(p, l);
    }
    forall l | l !in Dirty(c) ensures l in c'.table <==> Recent(Without(p + t, Dirty(c)), Room(c), l) {
      assert l in c'.table <==> l in Clean(c');
    }
  }

  lemma HitsFromFresh(t: seq<nat>, n: nat, hits: seq<bool>)
    requires HitsAre([], t, {}, n, hits)
    ensures forall i | 0 <= i < |t| :: hits[i] <==> Recent(t[..i], n, t[i])
  {
    forall i | 0 <= i < |t| ensures hits[i] <==> Recent(t[..i], n, t[i]) {
      assert [] + t[..i] == t[..i];
      WithoutNone(t[..i], {});
      assert hits[i] <==> HitAt([], t, {}, n, i);
    }
  }

  /** LRU contents: after any read trace from a fresh engine the cached LBAs are exactly the last
      `capacity` distinct LBAs of the trace, and a read hits exactly when fewer than `capacity`
      distinct LBAs were requested since its own was. */
  lemma LruContents(c: Cache, t: seq<nat>, envs: seq<Env>)
    requires Fresh(c) && |c.pool| > 0 && CanReadAll(c, t, envs)
    ensures var (c', hits) := ReadAll(c, t, envs);
            && (forall l :: l in c'.table <==> Recent(t, |c.pool|, l))
            && |hits| == |t| && (forall i | 0 <= i < |t| :: hits[i] <==> Recent(t[..i], |c.pool|, t[i]))
  {
    var (c', hits) := ReadAll(c, t, envs);
    assert Tracks(c', t) && Dirty(c') == {} && Room(c') == |c.pool| && HitsAre([], t, {}, |c.pool|, hits) by {
      FreshTracks(c);
      ReadAllTracks(c, [], t, envs);
      assert [] + t == t;
    }
    WithoutNone(t, {});
    assert forall l :: l in c'.table <==> l in Clean(c');
    HitsFromFresh(t, |c.pool|, hits);
  }

  /** LRU inclusion: on one trace a larger cache holds all that a smaller one holds and hits
      wherever the smaller one hits, whatever victims and clock readings each of them sees. */
  lemma LruInclusion(small: Cache, large: Cache, t: seq<nat>, envs: seq<Env>, envs': seq<Env>)
    requires Fresh(small) && Fresh(large) && 0 < |small.pool| <= |large.pool|
    requires CanReadAll(small, t, envs) && CanReadAll(large, t, envs')
    ensures var (c, hits) := ReadAll(small, t, envs);
            var (c', hits') := ReadAll(large, t, envs');
            && c.table.Keys <= c'.table.Keys
            && |hits| == |hits'| == |t| && (forall i | 0 <= i < |t| :: hits[i] ==> hits'[i])
  {
    LruContents(small, t, envs);
    LruContents(large, t, envs');
  }

  // ---------------------------------------------------------------- warm replay

  ghost predicate OutsideOlder(t: map<nat, Entry>, r: set<nat>, m: set<nat>)
    requires r <= t.Keys
  {
    forall w, q | w in t && w !in m && q in r :: t[w].lastAccess <= t[q].lastAccess
  }

  /** The LBAs `r` are cached, and whatever has to go for the sake of `m` is older than they are: there
      are slots for all of `m`, and it has all the dirty blocks. */
  ghost predicate Keeping(c: Cache, r: set<nat>, m: set<nat>) {
    && WellFormed(c) && r <= c.table.Keys && r + Dirty(c) <= m && |m| <= InUse(c)
    && OutsideOlder(c.table, r, m)
  }

  /** Some entry outside `m` is clean when one of `m` finds no slot. */
  lemma SomeOutside(c: Cache, m: set<nat>, x: nat) returns (w: nat)
    requires Dirty(c) <= m && |m| <= |c.table| && x in m && x !in c.table
    ensures w in c.table && w !in m && !c.table[w].dirty
  {
    assert |c.table.Keys| == |c.table|;
    if c.table.Keys <= m {
      SubsetSize(c.table.Keys, m);
    }
    w :| w in c.table.Keys && w !in m;
    assert w !in Dirty(c);
  }

  lemma KeepingVictim(c: Cache, r: set<nat>, m: set<nat>, x: nat, e: Env)
    requires Keeping(c, r, m) && CanRead(c, x, e) && x in m && x !in c.table && c.free == []
    ensures e.victim !in r && e.victim in c.table && !c.table[e.victim].dirty
  {
    var w := SomeOutside(c, m, x);
    assert NoLaterThan(c.table[e.victim], c.table[w]);
    if e.victim in r {
      assert IsVictim(c.table, w) by {
        forall l | l in c.table ensures NoLaterThan(c.table[w], c.table[l]) {
          assert NoLaterThan(c.table[e.victim], c.table[l]);
        }
      }
    }
  }

  /** What a successful read does to the table when no dirty entry has to go. */
  lemma ReadSuccess(c: Cache, x: nat, e: Env)
    requires WellFormed(c) && Reads(c, x, e) && (x !in c.table && c.free == [] ==> !c.table[e.victim].dirty)
    ensures ReadResult(c.table, Handle(c, Read(x), e).cache.table, x, Displaced(c, x, e))
  {
  }

  lemma OutsideStaysOlder(t: map<nat, Entry>, t': map<nat, Entry>, r: set<nat>, m: set<nat>, x: nat, gone: set<nat>)
    requires r <= t.Keys && OutsideOlder(t, r, m) && x in m && gone !! r && ReadResult(t, t', x, gone)
    ensures r + {x} <= t'.Keys && OutsideOlder(t', r + {x}, m)
  {
  }

  lemma KeepingRead(c: Cache, r: set<nat>, m: set<nat>, x: nat, e: Env)
    requires Keeping(c, r, m) && CanRead(c, x, e) && x in m
    ensures Keeping(Handle(c, Read(x), e).cache, r + {x}, m)
  {
    if x !in c.table && c.free == [] {
      KeepingVictim(c, r, m, x, e);
    }
    var c', gone := Handle(c, Read(x), e).cache, Displaced(c, x, e);
    assert ReadResult(c.table, c'.table, x, gone) by { ReadSuccess(c, x, e); }
    assert Dirty(c') == Dirty(c) by { PartsAfterRead(c, c', x, gone); }
    ReadKeepsShape(c, x, e);
    OutsideStaysOlder(c.table, c'.table, r, m, x, gone);
  }

  lemma EvictingMiss(c: Cache, x: nat, e: Env)
    requires WellFormed(c) && Reads(c, x, e) && x !in c.table && c.free == []
    ensures e.victim in c.table
    ensures Handle(c, Read(x), e).cache.table ==
            (c.table - {e.victim})[x := Entry(x, c.table[e.victim].poolIndex, false, e.now)]
  {
  }

  lemma FullIsDirty(c: Cache)
    requires !HasRoom(c)
    ensures c.free == [] && c.table.Keys == Dirty(c) && |Dirty(c)| == InUse(c)
  {
    CleanSize(c);
    assert |Clean(c)| == 0;
    assert c.table.Keys == Dirty(c) + Clean(c);
  }

  lemma DirtyAfterEviction(c: Cache, c': Cache, v: nat, x: nat, entry: Entry)
    requires c.table.Keys == Dirty(c) && v in c.table && x !in c.table && !entry.dirty
    requires c'.table == (c.table - {v})[x := entry]
    ensures Dirty(c') == Dirty(c) - {v} && c'.table.Keys == Dirty(c') + {x} && |Dirty(c')| == |Dirty(c)| - 1
  {
    forall l ensures l in Dirty(c') <==> l in Dirty(c) - {v} {
      assert l in c.table <==> l in Dirty(c);
    }
    assert v in Dirty(c);
  }

  /** A cache full of dirty blocks keeps them until a miss; the first miss that succeeds evicts one. */
  lemma MissMakesRoom(c: Cache, x: nat, e: Env)
    requires WellFormed(c) && !HasRoom(c) && Reads(c, x, e) && x !in c.table
    ensures var c' := Handle(c, Read(x), e).cache;
            && e.victim in Dirty(c) && Dirty(c') == Dirty(c) - {e.victim} && c'.table.Keys == Dirty(c') + {x}
            && InUse(c') == InUse(c) && HasRoom(c')
  {
    var c' := Handle(c, Read(x), e).cache;
    FullIsDirty(c);
    EvictingMiss(c, x, e);
    DirtyAfterEviction(c, c', e.victim, x, Entry(x, c.table[e.victim].poolIndex, false, e.now));
    assert InUse(c') == InUse(c) by { ReadKeepsShape(c, x, e); }
  }

  lemma MissKeeps(c: Cache, r: set<nat>, m: set<nat>, x: nat, e: Env)
    requires WellFormed(c) && !HasRoom(c) && Reads(c, x, e) && x !in c.table && r <= c.table.Keys && |m| <= InUse(c)
    requires r + {x} + Dirty(Handle(c, Read(x), e).cache) <= m
    ensures Keeping(Handle(c, Read(x), e).cache, r + {x}, m)
  {
    MissMakesRoom(c, x, e);
    ReadKeepsShape(c, x, e);
    FullIsDirty(c);
    if e.victim in r {
      assert Dirty(c) + {x} <= m;
      assert |Dirty(c) + {x}| == |Dirty(c)| + 1;
      SubsetSize(Dirty(c) + {x}, m);
    }
  }

  lemma DirtyKept(c: Cache, t: seq<nat>, envs: seq<Env>)
    requires WellFormed(c) && HasRoom(c) && CanReadAll(c, t, envs)
    ensures SameRoom(ReadAll(c, t, envs).0, c)
  {
    var p := EveryStateTracks(c);
    ReadAllKeeps(c, p, t, envs);
  }

  /** A read that hits leaves who is cached and who is dirty alone. */
  lemma HitKeeps(c: Cache, x: nat, e: Env)
    requires WellFormed(c) && Reads(c, x, e) && x in c.table
    ensures var c' := Handle(c, Read(x), e).cache;
            WellFormed(c') && InUse(c') == InUse(c) && c'.table.Keys == c.table.Keys && Dirty(c') == Dirty(c)
  {
    ReadKeepsShape(c, x, e);
  }

  lemma PassStep(c: Cache, r: set<nat>, m: set<nat>, x: nat, e: Env)
    requires WellFormed(c) && CanRead(c, x, e) && x in m && |m| <= InUse(c) && r <= c.table.Keys
    requires HasRoom(c) ==> Keeping(c, r, m)
    requires !HasRoom(c) && x !in c.table ==> r + {x} + Dirty(Handle(c, Read(x), e).cache) <= m
    ensures var c' := Handle(c, Read(x), e).cache;
            && WellFormed(c') && InUse(c') == InUse(c) && r + {x} <= c'.table.Keys
            && (HasRoom(c') ==> Keeping(c', r + {x}, m))
  {
    ReadKeepsShape(c, x, e);
    if HasRoom(c) {
      KeepingRead(c, r, m, x, e);
    } else if x in c.table {
      HitKeeps(c, x, e);
    } else {
      MissKeeps(c, r, m, x, e);
    }
  }

  lemma FirstMember(t: seq<nat>)
    requires t != []
    ensures Members(t) == {t[0]} + Members(t[1..])
  {
    assert t == [t[0]] + t[1..];
  }

  /** Reading a trace leaves all of it cached, if it fits beside the blocks that are dirty in the end. */
  lemma {:induction false} PassKeeps(c: Cache, r: set<nat>, m: set<nat>, t: seq<nat>, envs: seq<Env>)
    requires WellFormed(c) && CanReadAll(c, t, envs)
    requires r <= m && Members(t) <= m && Dirty(ReadAll(c, t, envs).0) <= m && |m| <= InUse(c) && r <= c.table.Keys
    requires HasRoom(c) ==> Keeping(c, r, m)
    ensures r + Members(t) <= ReadAll(c, t, envs).0.table.Keys
    decreases |t|
  {
    if t == [] {
    } else {
      var x, e := t[0], envs[0];
      var c' := Handle(c, Read(x), e).cache;
      FirstMember(t);
      if !HasRoom(c) && x !in c.table {
        MissMakesRoom(c, x, e);
        ReadKeepsShape(c, x, e);
        DirtyKept(c', t[1..], envs[1..]);
      }
      PassStep(c, r, m, x, e);
      PassKeeps(c', r + {x}, m, t[1..], envs[1..]);
    }
  }

  lemma FittingIsCached(c: Cache, t: seq<nat>, envs: seq<Env>)
    requires WellFormed(c) && CanReadAll(c, t, envs) && |Members(t) + Dirty(ReadAll(c, t, envs).0)| <= InUse(c)
    ensures Members(t) <= ReadAll(c, t, envs).0.table.Keys
  {
    if HasRoom(c) {
      DirtyKept(c, t, envs);
    }
    PassKeeps(c, {}, Members(t) + Dirty(ReadAll(c, t, envs).0), t, envs);
  }

  /** A trace that is all cached gives only hits. */
  lemma {:induction false} CachedHits(c: Cache, t: seq<nat>, envs: seq<Env>)
    requires WellFormed(c) && CanReadAll(c, t, envs) && Members(t) <= c.table.Keys
    ensures var hits := ReadAll(c, t, envs).1; |hits| == |t| && forall i | 0 <= i < |t| :: hits[i]
    decreases |t|
  {
    if t == [] {
    } else {
      assert t[0] in Members(t);
      HitKeeps(c, t[0], envs[0]);
      assert Members(t[1..]) <= Members(t);
      CachedHits(Handle(c, Read(t[0]), envs[0]).cache, t[1..], envs[1..]);
    }
  }

  /** Hits change no membership, so a run of hits only asks for what was cached at its start. */
  lemma {:induction false} AllHitsKeep(c: Cache, t: seq<nat>, envs: seq<Env>)
    requires CanReadAll(c, t, envs)
    requires forall i | 0 <= i < |t| && i < |ReadAll(c, t, envs).1| :: ReadAll(c, t, envs).1[i]
    ensures Members(t) <= c.table.Keys
    decreases |t|
  {
    if t == [] {
    } else {
      var o := Handle(c, Read(t[0]), envs[0]);
      var hits, rest := ReadAll(c, t, envs).1, ReadAll(o.cache, t[1..], envs[1..]).1;
      assert hits == [o.reply.ReadOk? && o.reply.hit] + rest;
      assert hits[0];
      assert t[0] in c.table && o.cache.table.Keys == c.table.Keys;
      forall i | 0 <= i < |t| - 1 && i < |rest| ensures rest[i] {
        assert rest[i] == hits[i + 1];
      }
      AllHitsKeep(o.cache, t[1..], envs[1..]);
      assert Members(t) == {t[0]} + Members(t[1..]) by { assert t == [t[0]] + t[1..]; }
    }
  }

  lemma {:induction false} ReadAllLength(c: Cache, t: seq<nat>, envs: seq<Env>)
    requires CanReadAll(c, t, envs)
    ensures |ReadAll(c, t, envs).1| == |t|
    decreases |t|
  {
    if t == [] {
    } else {
      ReadAllLength(Handle(c, Read(t[0]), envs[0]).cache, t[1..], envs[1..]);
    }
  }

  lemma AllHitsFit(c: Cache, t: seq<nat>, envs: seq<Env>)
    requires CanReadAll(c, t, envs)
    requires forall i | 0 <= i < |t| && i < |ReadAll(c, t, envs).1| :: ReadAll(c, t, envs).1[i]
    ensures |Members(t) + Dirty(c)| <= InUse(c)
  {
    AllHitsKeep(c, t, envs);
    assert Dirty(c) <= c.table.Keys && |c.table.Keys| == |c.table|;
    SubsetSize(Members(t) + Dirty(c), c.table.Keys);
  }

  lemma {:induction false} PassKeepsSlots(c: Cache, t: seq<nat>, envs: seq<Env>)
    requires WellFormed(c) && CanReadAll(c, t, envs)
    ensures WellFormed(ReadAll(c, t, envs).0) && InUse(ReadAll(c, t, envs).0) == InUse(c)
    decreases |t|
  {
    if t == [] {
    } else {
      ReadKeepsShape(c, t[0], envs[0]);
      PassKeepsSlots(Handle(c, Read(t[0]), envs[0]).cache, t[1..], envs[1..]);
    }
  }

  /** Warm replay, exactly: from any state, a trace replayed right after itself gives only hits if and
      only if its distinct LBAs and the blocks dirty after the first pass together fit the slots in
      circulation.  If some slot held no dirty block, the first pass changes neither number. */
  lemma WarmReplay(c: Cache, t: seq<nat>, envs: seq<Env>, envs': seq<Env>)
    requires WellFormed(c) && CanReadAll(c, t, envs) && CanReadAll(ReadAll(c, t, envs).0, t, envs')
    ensures var c1 := ReadAll(c, t, envs).0;
            var hits := ReadAll(c1, t, envs').1;
            && |hits| == |t| && ((forall i | 0 <= i < |t| :: hits[i]) <==> |Members(t) + Dirty(c1)| <= InUse(c1))
            && InUse(c1) == InUse(c) && (HasRoom(c) ==> Dirty(c1) == Dirty(c))
  {
    var c1 := ReadAll(c, t, envs).0;
    PassKeepsSlots(c, t, envs);
    ReadAllLength(c1, t, envs');
    if HasRoom(c) {
      DirtyKept(c, t, envs);
    }
    if |Members(t) + Dirty(c1)| <= InUse(c) {
      FittingIsCached(c, t, envs);
      CachedHits(c1, t, envs');
    } else if forall i | 0 <= i < |t| :: ReadAll(c1, t, envs').1[i] {
      AllHitsFit(c1, t, envs');
    }
  }

  // ---------------------------------------------------------------- sequential scans

  /** The LBAs `0..n` in order. */
  function Scan(n: nat): seq<nat> {
    seq(n, i => i)
  }

  function HitCount(hits: seq<bool>): nat {
    if hits == [] then 0
    else HitCount(hits[..|hits| - 1]) + if hits[|hits| - 1] then 1 else 0
  }

  lemma {:induction false} AllOrNothing(hits: seq<bool>, b: bool)
    requires forall i | 0 <= i < |hits| :: hits[i] == b
    ensures HitCount(hits) == if b then |hits| else 0
    decreases |hits|
  {
    if hits == [] {
    } else {
      AllOrNothing(hits[..|hits| - 1], b);
    }
  }

  lemma {:induction false} ScanSize(n: nat)
    ensures |Members(Scan(n))| == n
  {
    if n == 0 {
    } else {
      ScanSize(n - 1);
      assert Scan(n) == Scan(n - 1) + [n - 1];
      assert Members(Scan(n)) == Members(Scan(n - 1)) + {n - 1};
    }
  }

  lemma {:induction false} SinceOfAbsent(a: seq<nat>, b: seq<nat>, l: nat)
    requires l !in b
    ensures Since(a + b, l) == Since(a, l) + Members(b)
    decreases |b|
  {
    if b == [] {
      assert a + b == a;
    } else {
      var front, last := b[..|b| - 1], b[|b| - 1];
      assert b == front + [last];
      assert a + b == (a + front) + [last];
      SinceAppend(a + front, last, l);
      SinceOfAbsent(a, front, l);
    }
  }

  lemma SinceRest(b: seq<nat>, l: nat)
    requires b != [] && b[0] == l && l !in b[1..]
    ensures Since(b, l) == Members(b) - {l}
  {
    assert b == [l] + b[1..];
    SinceOfAbsent([l], b[1..], l);
    assert Since([l], l) == {};
  }

  /** In a second scan everything but `i` itself has been requested since `i` was. */
  lemma SinceInRescan(n: nat, i: nat)
    requires i < n
    ensures |Since(Scan(n) + Scan(n)[..i], i)| == n - 1
  {
    var a, b := Scan(n)[..i], Scan(n)[i..] + Scan(n)[..i];
    assert Scan(n) + Scan(n)[..i] == a + b;
    assert b[0] == i;
    SinceConcat(a, b, i);
    SinceRest(b, i);
    forall l | l in Scan(n) ensures l in b {
      assert l == if l >= i then b[l - i] else b[n - i + l];
    }
    assert Members(b) == Members(Scan(n));
    ScanSize(n);
  }

  lemma ScanHits(n: nat, capacity: nat, i: nat)
    requires i < n && capacity > 0
    ensures !Recent(Scan(n)[..i], capacity, Scan(n)[i])
    ensures Recent(Scan(n) + Scan(n)[..i], capacity, Scan(n)[i]) <==> n <= capacity
  {
    var t := Scan(n);
    SinceInRescan(n, i);
    assert (t + t[..i])[i] == i;
  }

  lemma ScanCounts(n: nat, capacity: nat, cold: seq<bool>, warm: seq<bool>)
    requires capacity > 0
    requires HitsAre([], Scan(n), {}, capacity, cold) && HitsAre(Scan(n), Scan(n), {}, capacity, warm)
    ensures HitCount(cold) == 0 && HitCount(warm) == if n <= capacity then n else 0
  {
    HitsFromFresh(Scan(n), capacity, cold);
    forall i | 0 <= i < n ensures !cold[i] && warm[i] == (n <= capacity) {
      ScanHits(n, capacity, i);
      WithoutNone(Scan(n) + Scan(n)[..i], {});
      assert warm[i] <==> HitAt(Scan(n), Scan(n), {}, capacity, i);
    }
    AllOrNothing(cold, false);
    AllOrNothing(warm, n <= capacity);
  }

  lemma ScanHitsAre(c: Cache, n: nat, envs: seq<Env>, envs': seq<Env>)
    requires Fresh(c) && |c.pool| > 0
    requires CanReadAll(c, Scan(n), envs) && CanReadAll(ReadAll(c, Scan(n), envs).0, Scan(n), envs')
    ensures HitsAre([], Scan(n), {}, |c.pool|, ReadAll(c, Scan(n), envs).1)
    ensures HitsAre(Scan(n), Scan(n), {}, |c.pool|, ReadAll(ReadAll(c, Scan(n), envs).0, Scan(n), envs').1)
  {
    var t := Scan(n);
    FreshTracks(c);
    ReadAllTracks(c, [], t, envs);
    assert [] + t == t;
    ReadAllHits(ReadAll(c, t, envs).0, t, t, envs');
  }

  /** Scan dichotomy: of two scans of `0..n` on a fresh engine the first never hits, and the second
      hits everywhere if `n` fits the capacity and nowhere if it does not. */
  lemma ScanDichotomy(c: Cache, n: nat, envs: seq<Env>, envs': seq<Env>)
    requires Fresh(c) && |c.pool| > 0
    requires CanReadAll(c, Scan(n), envs) && CanReadAll(ReadAll(c, Scan(n), envs).0, Scan(n), envs')
    ensures var (c1, cold) := ReadAll(c, Scan(n), envs);
            var warm := ReadAll(c1, Scan(n), envs').1;
            && |cold| == |warm| == n
            && HitCount(cold) == 0
            && HitCount(warm) == if n <= |c.pool| then n else 0
  {
    ScanHitsAre(c, n, envs, envs');
    ScanCounts(n, |c.pool|, ReadAll(c, Scan(n), envs).1, ReadAll(ReadAll(c, Scan(n), envs).0, Scan(n), envs').1);
  }
}
