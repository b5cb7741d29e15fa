/**
  The replacement policy without timestamps, slots or a free list: the cached LBAs in one queue, least
  recently used first, and the set of those that are dirty.  Every run of the step machine, with reads,
  writes, failing transfers and flush steps in any order, keeps its table equal to this queue.
 */
module Policy {
  import opened Blocks
  import opened CacheState
  import opened Lru
  import opened Recency
  import opened Requests
  import opened Threads

  /** `capacity` is the number of slots in circulation. */
  datatype Queue = Queue(order: seq<nat>, dirty: set<nat>, capacity: nat)

  function FirstOutside(order: seq<nat>, d: set<nat>): Option<nat> {
    if order == [] then None
    else if order[0] !in d then Some(order[0])
    else FirstOutside(order[1..], d)
  }

  /** Clean LBAs leave first, least recently used first; then dirty ones. */
  function Leaver(q: Queue): nat
    requires q.order != []
  {
    var clean := FirstOutside(q.order, q.dirty);
    if clean.Some? then clean.value else q.order[0]
  }

  function MakeRoom(q: Queue): Queue {
    if q.order == [] || |q.order| < q.capacity then q
    else
      var l := Leaver(q);
      q.(order := Without(q.order, {l}), dirty := q.dirty - {l})
  }

  /** The request makes its LBA the most recently used, and dirty if it writes. */
  function Refer(q: Queue, req: Request): Queue {
    q.(order := Without(q.order, {req.lba}) + [req.lba], dirty := if req.Write? then q.dirty + {req.lba} else q.dirty)
  }

  /** The queue after a request, from how it ended. */
  function Served(q: Queue, req: Request, reply: Reply): Queue {
    match reply
    case Refused(ReadFailed) => MakeRoom(q).(capacity := if q.capacity == 0 then 0 else q.capacity - 1)
    case Refused(_) => q
    case _ => Refer(if req.lba in q.order then q else MakeRoom(q), req)
  }

  // ---------------------------------------------------------------- queue and table

  /** The LBAs are tabled, listed once, and in the order of their last access. */
  ghost predicate InAge(order: seq<nat>, t: map<nat, Entry>) {
    && (forall l | l in order :: l in t)
    && forall i, j | 0 <= i < j < |order| ::
         order[i] != order[j] && t[order[i]].lastAccess <= t[order[j]].lastAccess
  }

  /** The order lists exactly the LBAs tabled. */
  ghost predicate Lines(order: seq<nat>, t: map<nat, Entry>) {
    InAge(order, t) && forall l | l in t :: l in order
  }

  /** The queue is what matters of the cache for replacement. */
  ghost predicate Models(c: Cache, q: Queue) {
    Lines(q.order, c.table) && q.dirty == Dirty(c) && q.capacity == InUse(c)
  }

  lemma InAgeAppend(order: seq<nat>, t: map<nat, Entry>, t': map<nat, Entry>, x: nat)
    requires InAge(order, t) && x !in order && x in t'
    requires forall l | l in order :: l in t' && t'[l].lastAccess == t[l].lastAccess <= t'[x].lastAccess
    ensures InAge(order + [x], t')
  {
    var order' := order + [x];
    forall i, j | 0 <= i < j < |order'|
      ensures order'[i] != order'[j] && t'[order'[i]].lastAccess <= t'[order'[j]].lastAccess
    {
      assert order[i] in order;
      assert j < |order| ==> order[j] in order;
    }
  }

  lemma {:induction false} InAgeWithout(order: seq<nat>, t: map<nat, Entry>, d: set<nat>)
    requires InAge(order, t)
    ensures InAge(Without(order, d), t)
    decreases |order|
  {
    if order == [] {
    } else {
      var front, last := order[..|order| - 1], order[|order| - 1];
      assert order == front + [last];
      InAgeWithout(front, t, d);
      WithoutAppend(front, last, d);
      WithoutMembers(front, d);
      if last !in d {
        forall l | l in Without(front, d) ensures l != last && t[l].lastAccess <= t[last].lastAccess {
          var i :| 0 <= i < |front| && front[i] == l;
          assert order[i] == l;
        }
        InAgeAppend(Without(front, d), t, t, last);
      }
    }
  }

  lemma {:induction false} OrderSize(order: seq<nat>, t: map<nat, Entry>)
    requires InAge(order, t)
    ensures |Members(order)| == |order|
    decreases |order|
  {
    if order == [] {
    } else {
      var front, last := order[..|order| - 1], order[|order| - 1];
      assert order == front + [last];
      assert last !in front;
      OrderSize(front, t);
      assert Members(order) == Members(front) + {last};
    }
  }

  lemma QueueSize(c: Cache, q: Queue)
    requires Models(c, q)
    ensures |q.order| == |c.table|
  {
    OrderSize(q.order, c.table);
    assert Members(q.order) == c.table.Keys;
    assert |c.table.Keys| == |c.table|;
  }

  lemma {:induction false} FirstOutsideIs(order: seq<nat>, t: map<nat, Entry>, d: set<nat>)
    requires InAge(order, t)
    ensures var first := FirstOutside(order, d);
            && (first.None? ==> forall l | l in order :: l in d)
            && (first.Some? ==> first.value in order && first.value !in d &&
                                forall l | l in order && l !in d :: t[first.value].lastAccess <= t[l].lastAccess)
    decreases |order|
  {
    if order == [] || order[0] !in d {
    } else {
      assert order == [order[0]] + order[1..];
      assert InAge(order[1..], t) by {
        assert forall l | l in order[1..] :: l in order;
      }
      FirstOutsideIs(order[1..], t, d);
    }
  }

  /** The policy's choice is one that the timestamps allow. */
  lemma LeaverIsVictim(c: Cache, q: Queue)
    requires Models(c, q) && q.order != []
    ensures IsVictim(c.table, Leaver(q))
  {
    FirstOutsideIs(q.order, c.table, q.dirty);
    var v := Leaver(q);
    assert q.order[0] in q.order;
    forall l | l in c.table ensures NoLaterThan(c.table[v], c.table[l]) {
      assert l in q.order;
      assert l in Dirty(c) <==> c.table[l].dirty;
      assert v in Dirty(c) <==> c.table[v].dirty;
      if v in q.dirty {
        var i :| 0 <= i < |q.order| && q.order[i] == l;
      }
    }
  }

  // ---------------------------------------------------------------- one request

  /** A clock reading no older than any entry's, and a unique victim if one is sought. */
  ghost predicate CanServe(c: Cache, req: Request, e: Env) {
    && VictimOk(c, e)
    && (forall m | m in c.table :: c.table[m].lastAccess <= e.now)
    && (Seeks(c, req) ==> OneVictim(c))
  }

  /** The entry a successful miss, or one that fails in its read, evicts. */
  function Gone(c: Cache, req: Request, e: Env): set<nat> {
    if Seeks(c, req) then {e.victim} else {}
  }

  lemma TableRefused(c: Cache, req: Request, e: Env)
    requires WellFormed(c) && VictimOk(c, e) && Handle(c, req, e).reply.Refused?
    ensures var o := Handle(c, req, e);
            && (o.reply.error == ReadFailed <==> Leaks(c, req, e))
            && o.cache.table == if o.reply.error == ReadFailed then c.table - Gone(c, req, e) else c.table
  {
  }

  lemma TableServed(c: Cache, req: Request, e: Env)
    requires WellFormed(c) && VictimOk(c, e) && !Handle(c, req, e).reply.Refused?
    ensures var o := Handle(c, req, e);
            && req.lba in o.cache.table && !Leaks(c, req, e)
            && o.cache.table == (c.table - Gone(c, req, e))[req.lba := o.cache.table[req.lba]]
            && o.cache.table[req.lba].lastAccess == e.now
            && (o.cache.table[req.lba].dirty <==> req.Write? || req.lba in Dirty(c))
            && (req.lba in c.table ==> Gone(c, req, e) == {})
            && (req.lba !in c.table ==> Misses(c, req))
  {
  }

  /** The queue makes room exactly when the cache evicts, and for the same LBA. */
  lemma RoomMadeAlike(c: Cache, q: Queue, req: Request, e: Env)
    requires Models(c, q) && CanServe(c, req, e) && Misses(c, req)
    ensures MakeRoom(q) ==
            if Seeks(c, req) then q.(order := Without(q.order, {e.victim}), dirty := q.dirty - {e.victim}) else q
  {
    QueueSize(c, q);
    if Seeks(c, req) {
      LeaverIsVictim(c, q);
      assert Leaver(q) == e.victim;
    }
  }

  lemma LinesWithout(order: seq<nat>, t: map<nat, Entry>, v: nat)
    requires Lines(order, t)
    ensures Lines(Without(order, {v}), t - {v})
  {
    WithoutMembers(order, {v});
    InAgeWithout(order, t, {v});
  }

  lemma RoomMade(c: Cache, q: Queue, req: Request, e: Env)
    requires Models(c, q) && CanServe(c, req, e) && Misses(c, req)
    ensures Lines(MakeRoom(q).order, c.table - Gone(c, req, e))
    ensures MakeRoom(q).dirty == Dirty(c) - Gone(c, req, e) && MakeRoom(q).capacity == q.capacity
  {
    RoomMadeAlike(c, q, req, e);
    if Seeks(c, req) {
      LinesWithout(q.order, c.table, e.victim);
    } else {
      assert c.table - {} == c.table;
    }
  }

  /** Referring to `x` when the table does the same to its entry. */
  lemma ReferLines(order: seq<nat>, t: map<nat, Entry>, t': map<nat, Entry>, x: nat)
    requires Lines(order, t)
    requires x in t' && t' == t[x := t'[x]] && forall l | l in t :: t[l].lastAccess <= t'[x].lastAccess
    ensures Lines(Without(order, {x}) + [x], t')
  {
    WithoutMembers(order, {x});
    InAgeWithout(order, t, {x});
    InAgeAppend(Without(order, {x}), t, t', x);
  }

  /** Who is dirty after a request that succeeds. */
  lemma DirtyServed(c: Cache, req: Request, e: Env)
    requires WellFormed(c) && VictimOk(c, e) && !Handle(c, req, e).reply.Refused?
    ensures Dirty(Handle(c, req, e).cache) ==
            if req.Write? then Dirty(c) - Gone(c, req, e) + {req.lba} else Dirty(c) - Gone(c, req, e)
  {
    TableServed(c, req, e);
    var c', rest := Handle(c, req, e).cache, Dirty(c) - Gone(c, req, e);
    forall l ensures l in Dirty(c') <==> l in rest || (req.Write? && l == req.lba) {
      if l == req.lba {
        assert l in Dirty(c) ==> l in c.table;
      }
    }
  }

  /** The queue a successful request refers to its LBA in. */
  lemma RoomServed(c: Cache, q: Queue, req: Request, e: Env)
    requires WellFormed(c) && Models(c, q) && CanServe(c, req, e) && !Handle(c, req, e).reply.Refused?
    ensures var q1 := if req.lba in q.order then q else MakeRoom(q);
            && Lines(q1.order, c.table - Gone(c, req, e)) && q1.dirty == Dirty(c) - Gone(c, req, e)
            && q1.capacity == q.capacity
  {
    TableServed(c, req, e);
    if req.lba in c.table {
      assert c.table - {} == c.table;
    } else {
      RoomMade(c, q, req, e);
    }
  }

  lemma ReferModels(c: Cache, c': Cache, q1: Queue, gone: set<nat>, req: Request)
    requires Lines(q1.order, c.table - gone) && q1.dirty == Dirty(c) - gone && q1.capacity == InUse(c')
    requires req.lba in c'.table && c'.table == (c.table - gone)[req.lba := c'.table[req.lba]]
    requires forall l | l in c.table :: c.table[l].lastAccess <= c'.table[req.lba].lastAccess
    requires Dirty(c') == if req.Write? then Dirty(c) - gone + {req.lba} else Dirty(c) - gone
    ensures Models(c', Refer(q1, req))
  {
    ReferLines(q1.order, c.table - gone, c'.table, req.lba);
  }

  lemma SuccessModels(c: Cache, q: Queue, req: Request, e: Env)
    requires WellFormed(c) && Models(c, q) && CanServe(c, req, e) && !Handle(c, req, e).reply.Refused?
    ensures Models(Handle(c, req, e).cache, Served(q, req, Handle(c, req, e).reply))
  {
    var o, q1 := Handle(c, req, e), if req.lba in q.order then q else MakeRoom(q);
    assert Served(q, req, o.reply) == Refer(q1, req);
    RoomServed(c, q, req, e);
    TableServed(c, req, e);
    DirtyServed(c, req, e);
    HandleConservesSlots(c, req, e);
    ReferModels(c, o.cache, q1, Gone(c, req, e), req);
  }

  lemma DirtyOfRest(c: Cache, c': Cache, gone: set<nat>)
    requires c'.table == c.table - gone
    ensures Dirty(c') == Dirty(c) - gone
  {
  }

  lemma RefusedModels(c: Cache, q: Queue, req: Request, e: Env)
    requires WellFormed(c) && Models(c, q) && CanServe(c, req, e) && Handle(c, req, e).reply.Refused?
    ensures Models(Handle(c, req, e).cache, Served(q, req, Handle(c, req, e).reply))
  {
    var o := Handle(c, req, e);
    TableRefused(c, req, e);
    HandleConservesSlots(c, req, e);
    if Leaks(c, req, e) {
      RoomMade(c, q, req, e);
      DirtyOfRest(c, o.cache, Gone(c, req, e));
    } else {
      assert Served(q, req, o.reply) == q;
      assert Dirty(o.cache) == Dirty(c);
    }
  }

  lemma ServeModels(c: Cache, q: Queue, req: Request, e: Env)
    requires WellFormed(c) && Models(c, q) && CanServe(c, req, e)
    ensures Models(Handle(c, req, e).cache, Served(q, req, Handle(c, req, e).reply))
  {
    if Handle(c, req, e).reply.Refused? {
      RefusedModels(c, q, req, e);
    } else {
      SuccessModels(c, q, req, e);
    }
  }

  // ---------------------------------------------------------------- whole runs

  /** The queue after a step: a request, or a dirty LBA marked clean. */
  ghost function QueueStep(q: Queue, s: Sys, st: Step): Queue
    requires Enabled(s, st)
  {
    match st
    case Serve(req, env) => Served(q, req, Handle(s.cache, req, env).reply)
    case MarkOne => q.(dirty := q.dirty - {s.flusher.lba})
    case _ => q
  }

  lemma LinesAlike(order: seq<nat>, t: map<nat, Entry>, t': map<nat, Entry>)
    requires Lines(order, t) && t'.Keys == t.Keys && forall l | l in t :: t'[l].lastAccess == t[l].lastAccess
    ensures Lines(order, t')
  {
  }

  lemma DirtyMarked(c: Cache, l: nat)
    ensures Dirty(MarkClean(c, l)) == Dirty(c) - {l}
  {
  }

  lemma MarkModels(c: Cache, q: Queue, l: nat)
    requires WellFormed(c) && Models(c, q)
    ensures Models(MarkClean(c, l), q.(dirty := q.dirty - {l}))
  {
    MarkCleanConserves(c, l);
    DirtyMarked(c, l);
    LinesAlike(q.order, c.table, MarkClean(c, l).table);
  }

  lemma StepModels(s: Sys, q: Queue, st: Step)
    requires Sound(s) && Models(s.cache, q) && Enabled(s, st)
    requires st.Serve? ==> CanServe(s.cache, st.req, st.env)
    ensures Models(Next(s, st).cache, QueueStep(q, s, st))
  {
    match st
    case Serve(req, env) => ServeModels(s.cache, q, req, env);
    case MarkOne => MarkModels(s.cache, q, s.flusher.lba);
    case _ =>
      assert Next(s, st).cache.table == s.cache.table;
      assert Dirty(Next(s, st).cache) == Dirty(s.cache);
  }

  ghost function QueueAfter(q: Queue, s: Sys, steps: seq<Step>): Queue
    requires Feasible(s, steps)
    decreases |steps|
  {
    if steps == [] then q else QueueAfter(QueueStep(q, s, steps[0]), Next(s, steps[0]), steps[1..])
  }

  /** The clock never runs backwards, and victims are unique. */
  ghost predicate Orderly(s: Sys, steps: seq<Step>)
    requires Feasible(s, steps)
    decreases |steps|
  {
    steps == [] ||
    ((steps[0].Serve? ==> CanServe(s.cache, steps[0].req, steps[0].env)) && Orderly(Next(s, steps[0]), steps[1..]))
  }

  /** A read that succeeds hits, and a write that succeeds updates, exactly if its LBA is queued. */
  ghost predicate HitFollows(q: Queue, s: Sys, st: Step)
    requires Enabled(s, st)
  {
    st.Serve? ==>
      match Handle(s.cache, st.req, st.env).reply
      case ReadOk(hit, _) => hit <==> st.req.lba in q.order
      case WriteOk(update) => update <==> st.req.lba in q.order
      case Refused(_) => true
  }

  ghost predicate HitsFollow(q: Queue, s: Sys, steps: seq<Step>)
    requires Feasible(s, steps)
    decreases |steps|
  {
    steps == [] ||
    (HitFollows(q, s, steps[0]) && HitsFollow(QueueStep(q, s, steps[0]), Next(s, steps[0]), steps[1..]))
  }

  lemma StepHits(s: Sys, q: Queue, st: Step)
    requires Models(s.cache, q) && Enabled(s, st)
    ensures HitFollows(q, s, st)
  {
  }

  lemma {:induction false} RunModels(s: Sys, q: Queue, steps: seq<Step>)
    requires Sound(s) && Models(s.cache, q) && Feasible(s, steps) && Orderly(s, steps)
    ensures Models(Exec(s, steps).cache, QueueAfter(q, s, steps)) && HitsFollow(q, s, steps)
    decreases |steps|
  {
    if steps == [] {
    } else {
      StepModels(s, q, steps[0]);
      StepConservesSlots(s, steps[0]);
      StepHits(s, q, steps[0]);
      RunModels(Next(s, steps[0]), QueueStep(q, s, steps[0]), steps[1..]);
    }
  }

  /** The policy, for every run of a started engine, whatever is read and written, whatever fails, and
      wherever the flusher's steps fall: the cached LBAs are those queued, the dirty ones those the
      queue has as dirty, their timestamps are in the queue's order, and hits are membership. */
  lemma TableIsQueue(s: Sys, steps: seq<Step>)
    requires Started(s) && Feasible(s, steps) && Orderly(s, steps)
    ensures var q0 := Queue([], {}, |s.cache.pool|);
            var c, q := Exec(s, steps).cache, QueueAfter(q0, s, steps);
            && c.table.Keys == Members(q.order) && Dirty(c) == q.dirty && InUse(c) == q.capacity
            && InAge(q.order, c.table)
            && HitsFollow(q0, s, steps)
  {
    assert Dirty(s.cache) == {};
    RunModels(s, Queue([], {}, |s.cache.pool|), steps);
  }
}
