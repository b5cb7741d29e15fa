/** What one client request keeps, changes and returns, whatever the device does. */
module Requests {
  import opened Blocks
  import opened CacheState

  // ---------------------------------------------------------------- acquiring a slot

  /** Slots in circulation: free, or owned by an entry. */
  function InUse(c: Cache): nat {
    |c.free| + |c.table|
  }

  /** The slot handed out is in range and belongs to nobody. */
  ghost predicate Unowned(c: Cache, i: nat) {
    && i < |c.pool|
    && i !in c.free
    && forall l | l in c.table :: c.table[l].poolIndex != i
  }

  lemma RemoveOne<V>(m: map<nat, V>, k: nat)
    requires k in m
    ensures |m - {k}| == |m| - 1
  {
  }

  lemma AddOne<V>(m: map<nat, V>, k: nat, v: V)
    ensures |m[k := v]| == if k in m then |m| else |m| + 1
  {
  }

  lemma AcquireFree(c: Cache)
    requires WellFormed(c) && c.free != []
    ensures var c1 := c.(free := c.free[..|c.free| - 1]);
            WellFormed(c1) && Unowned(c1, c.free[|c.free| - 1]) && InUse(c1) == InUse(c) - 1
  {
  }

  lemma AcquireVictim(c: Cache, v: nat, device: seq<Block>)
    requires WellFormed(c) && c.free == [] && v in c.table && |device| == |c.device|
    ensures var c1 := c.(device := device, table := c.table - {v});
            WellFormed(c1) && Unowned(c1, c.table[v].poolIndex) && InUse(c1) == InUse(c) - 1
  {
  }

  lemma AcquireTakesOneSlot(c: Cache, e: Env)
    requires WellFormed(c) && VictimOk(c, e)
    ensures WellFormed(Acquire(c, e).cache)
    ensures Acquire(c, e).Slot? ==>
              var c1 := Acquire(c, e).cache;
              && Unowned(c1, Acquire(c, e).index) && InUse(c1) == InUse(c) - 1
              && |c1.device| == |c.device| && c1.table.Keys <= c.table.Keys
    ensures Acquire(c, e).NoSlot? ==>
              Acquire(c, e).cache == c.(device := Acquire(c, e).cache.device)
  {
    if c.free != [] {
      AcquireFree(c);
    } else if c.table != map[] && !c.table[e.victim].dirty {
      AcquireVictim(c, e.victim, c.device);
    } else if c.table != map[] && e.writeIo.Written? {
      AcquireVictim(c, e.victim, Put(c.device, e.victim, At(c.pool, c.table[e.victim].poolIndex)));
    }
  }

  /** Acquiring a slot never changes what a client sees: a clean victim equals its device
      block, a dirty victim is written back, and a failed write-back leaves it cached. */
  lemma AcquireKeepsView(c: Cache, e: Env)
    requires WellFormed(c) && Coherent(c) && VictimOk(c, e)
    ensures Coherent(Acquire(c, e).cache)
    ensures forall l :: View(Acquire(c, e).cache, l) == View(c, l)
  {
  }

  /** Allocation progress: `allocate_or_evict` fails in exactly two ways, a torn write of a
      dirty victim and a pool with neither free nor tabled slots; on the eviction path the
      slot it returns is the victim's. */
  lemma AcquireFailsExactlyWhen(c: Cache, e: Env)
    requires WellFormed(c) && VictimOk(c, e)
    ensures var a := Acquire(c, e);
            && (a == NoSlot(c, Internal) <==> InUse(c) == 0)
            && (a.NoSlot? && a.error != Internal <==>
                  c.free == [] && c.table != map[] && Dirty(c) == c.table.Keys && e.writeIo.Torn?)
            && (a.NoSlot? ==> a.error in {Internal, WriteFailed})
            && (a.Slot? && c.free == [] ==>
                  e.victim in c.table && a.index == c.table[e.victim].poolIndex && e.victim !in a.cache.table)
  {
  }

  // ---------------------------------------------------------------- installing a block

  /** Slot `i` is the one to hold `lba`: its own slot, or one that nobody owns. */
  ghost predicate SlotFor(c: Cache, lba: nat, i: nat) {
    lba < |c.device| && i < |c.pool| && if lba in c.table then c.table[lba].poolIndex == i else Unowned(c, i)
  }

  lemma InstallWellFormed(c: Cache, lba: nat, i: nat, data: Block, dirty: bool, now: nat)
    requires WellFormed(c) && SlotFor(c, lba, i)
    ensures WellFormed(Install(c, lba, i, data, dirty, now))
  {
  }

  lemma InstallView(c: Cache, lba: nat, i: nat, data: Block, dirty: bool, now: nat, l: nat)
    requires WellFormed(c) && SlotFor(c, lba, i)
    ensures View(Install(c, lba, i, data, dirty, now), l) == if l == lba then data else View(c, l)
  {
  }

  lemma InstallInSlot(c: Cache, lba: nat, i: nat, data: Block, dirty: bool, now: nat)
    requires WellFormed(c) && SlotFor(c, lba, i)
    ensures var c' := Install(c, lba, i, data, dirty, now);
            && WellFormed(c')
            && (forall l :: View(c', l) == if l == lba then data else View(c, l))
            && (Coherent(c) && (dirty || At(c.device, lba) == data) ==> Coherent(c'))
  {
    InstallWellFormed(c, lba, i, data, dirty, now);
    var c' := Install(c, lba, i, data, dirty, now);
    forall l ensures View(c', l) == if l == lba then data else View(c, l) {
      InstallView(c, lba, i, data, dirty, now, l);
    }
    forall l | l in c'.table && l != lba ensures View(c', l) == View(c, l) && c'.table[l] == c.table[l] {
    }
  }

  /** Filling an unowned slot: the view changes only by a successful write, and the slot is
      lost exactly when the device read fails. */
  lemma FillSlot(c: Cache, i: nat, req: Request, e: Env)
    requires WellFormed(c) && Unowned(c, i) && req.lba < |c.device| && req.lba !in c.table
    ensures var o := Fill(c, i, req, e);
            && WellFormed(o.cache)
            && InUse(o.cache) == InUse(c) + (if o.reply.Refused? then 0 else 1)
            && (Coherent(c) ==> Coherent(o.cache))
            && (forall l :: View(o.cache, l) == if l == req.lba && o.reply.WriteOk? then req.data else View(c, l))
            && (o.reply.ReadOk? ==> o.reply.data == View(c, req.lba))
  {
    if req.Read? && e.readIo.Unread? {
    } else {
      var data := if req.Write? then req.data else At(c.device, req.lba);
      AddOne(c.table, req.lba, Entry(req.lba, i, req.Write?, e.now));
      InstallInSlot(c, req.lba, i, data, req.Write?, e.now);
    }
  }

  // ---------------------------------------------------------------- whole requests

  lemma HitConservesSlots(c: Cache, req: Request, e: Env)
    requires WellFormed(c) && VictimOk(c, e) && req.lba in c.table
    ensures WellFormed(Handle(c, req, e).cache) && InUse(Handle(c, req, e).cache) == InUse(c)
  {
    match req
    case Read(lba) => AddOne(c.table, lba, c.table[lba].(lastAccess := e.now));
    case Write(lba, data) =>
      AddOne(c.table, lba, Entry(lba, c.table[lba].poolIndex, true, e.now));
      InstallInSlot(c, lba, c.table[lba].poolIndex, data, true, e.now);
  }

  lemma MissConservesSlots(c: Cache, req: Request, e: Env)
    requires WellFormed(c) && VictimOk(c, e) && Misses(c, req)
    ensures WellFormed(Handle(c, req, e).cache)
    ensures InUse(Handle(c, req, e).cache) + (if Leaks(c, req, e) then 1 else 0) == InUse(c)
  {
    AcquireTakesOneSlot(c, e);
    var a := Acquire(c, e);
    if a.Slot? {
      FillSlot(a.cache, a.index, req, e);
    }
  }

  /** Slot conservation: slots are neither duplicated nor shared, and the only way to lose
      one is a miss whose device read fails, which loses exactly one. */
  lemma HandleConservesSlots(c: Cache, req: Request, e: Env)
    requires WellFormed(c) && VictimOk(c, e)
    ensures WellFormed(Handle(c, req, e).cache)
    ensures InUse(Handle(c, req, e).cache) + (if Leaks(c, req, e) then 1 else 0) == InUse(c)
  {
    if req.lba in c.table {
      HitConservesSlots(c, req, e);
    } else if Misses(c, req) {
      MissConservesSlots(c, req, e);
    }
  }

  /** A request changes neither the device's size, nor the pool's, nor the configuration. */
  lemma HandleShape(c: Cache, req: Request, e: Env)
    requires VictimOk(c, e)
    ensures var c' := Handle(c, req, e).cache;
            && |c'.pool| == |c.pool| && |c'.device| == |c.device|
            && c'.readOnly == c.readOnly && c'.watermark == c.watermark
  {
  }

  /** The reference semantics: a plain run of blocks that only a successful write changes. */
  function RefNext(ref: seq<Block>, req: Request, reply: Reply): seq<Block> {
    if req.Write? && reply.WriteOk? then Put(ref, req.lba, req.data) else ref
  }

  /** The cache shows exactly the blocks of `ref`. */
  ghost predicate Shows(c: Cache, ref: seq<Block>) {
    |c.device| == |ref| && forall l: nat | l < |ref| :: View(c, l) == ref[l]
  }

  /** After a request the client sees the same blocks, except its own data after a successful write. */
  lemma HandleKeepsView(c: Cache, req: Request, e: Env)
    requires WellFormed(c) && Coherent(c) && VictimOk(c, e)
    ensures var o := Handle(c, req, e);
            && Coherent(o.cache)
            && (forall l :: View(o.cache, l) == if l == req.lba && o.reply.WriteOk? then req.data else View(c, l))
            && (o.reply.ReadOk? ==> o.reply.data == View(c, req.lba))
  {
    if Misses(c, req) {
      AcquireTakesOneSlot(c, e);
      AcquireKeepsView(c, e);
      var a := Acquire(c, e);
      if a.Slot? {
        FillSlot(a.cache, a.index, req, e);
      }
    } else if req.Write? && req.lba in c.table {
      InstallInSlot(c, req.lba, c.table[req.lba].poolIndex, req.data, true, e.now);
    }
  }

  /** One request refines the reference: it returns what the reference holds, changes the view
      as the reference changes, and a refused request changes no view at all. */
  lemma HandleRefinesReference(c: Cache, req: Request, e: Env, ref: seq<Block>)
    requires WellFormed(c) && Coherent(c) && VictimOk(c, e) && Shows(c, ref)
    ensures var o := Handle(c, req, e);
            && Coherent(o.cache)
            && Shows(o.cache, RefNext(ref, req, o.reply))
            && (o.reply.ReadOk? ==> req.Read? && req.lba < |ref| && o.reply.data == ref[req.lba])
            && (o.reply.Refused? ==> forall l :: View(o.cache, l) == View(c, l))
  {
    HandleKeepsView(c, req, e);
  }

  /** Who is in the table afterwards: everyone but an evicted victim, and at most the request's
      own LBA besides; nobody changes slots. */
  lemma HandleMembers(c: Cache, req: Request, e: Env, l: nat)
    requires WellFormed(c) && VictimOk(c, e)
    ensures var o := Handle(c, req, e);
            && (l in c.table ==> (l !in o.cache.table <==> Evicts(c, req, e) && l == e.victim))
            && (l !in c.table ==> (l in o.cache.table <==> l == req.lba && !o.reply.Refused?))
            && (l in c.table && l in o.cache.table ==> o.cache.table[l].poolIndex == c.table[l].poolIndex)
  {
  }

  /** Filling a slot disturbs no entry of the table. */
  lemma FillBlocks(c: Cache, i: nat, req: Request, e: Env, l: nat)
    requires WellFormed(c) && Unowned(c, i) && l in c.table && l != req.lba
    ensures var c' := Fill(c, i, req, e).cache;
            l in c'.table && c'.table[l] == c.table[l] && View(c', l) == View(c, l)
  {
  }

  /** The blocks and flags of entries the request does not write. */
  lemma HandleBlocks(c: Cache, req: Request, e: Env, l: nat)
    requires WellFormed(c) && VictimOk(c, e) && l in c.table && l in Handle(c, req, e).cache.table
    requires l == req.lba ==> !Handle(c, req, e).reply.WriteOk?
    ensures var c' := Handle(c, req, e).cache;
            View(c', l) == View(c, l) && c'.table[l].dirty == c.table[l].dirty
  {
    var o := Handle(c, req, e);
    if Misses(c, req) {
      AcquireTakesOneSlot(c, e);
      var a := Acquire(c, e);
      if a.Slot? {
        assert l in a.cache.table;
        FillBlocks(a.cache, a.index, req, e, l);
      }
    } else if o.reply.WriteOk? {
      InstallView(c, req.lba, c.table[req.lba].poolIndex, req.data, true, e.now, l);
    }
  }

  /** A successful write ends cached, dirty, and holding its data. */
  lemma HandleWritten(c: Cache, req: Request, e: Env)
    requires WellFormed(c) && VictimOk(c, e) && Handle(c, req, e).reply.WriteOk?
    ensures var c' := Handle(c, req, e).cache;
            req.lba in c'.table && c'.table[req.lba].dirty && View(c', req.lba) == req.data
  {
  }

  /** The device changes only at a dirty victim, to its block or to what a failed write leaves. */
  lemma HandleDevice(c: Cache, req: Request, e: Env)
    requires WellFormed(c) && VictimOk(c, e)
    ensures Handle(c, req, e).cache.device ==
            if Seeks(c, req) && c.table[e.victim].dirty then
              Put(c.device, e.victim, Stored(e.writeIo, View(c, e.victim), At(c.device, e.victim)))
            else c.device
  {
  }

  // ---------------------------------------------------------------- how a request ends

  /** There is a slot to be had: a free one, or that of a victim that is clean or gets written back. */
  ghost predicate SlotAtHand(c: Cache, e: Env)
    requires VictimOk(c, e)
  {
    c.free != [] || (c.table != map[] && (c.table[e.victim].dirty ==> e.writeIo.Written?))
  }

  /** The write will succeed: it is in range and allowed, and its block is cached or finds a slot. */
  ghost predicate Lands(c: Cache, req: Request, e: Env)
    requires VictimOk(c, e)
  {
    req.Write? && req.lba < |c.device| && !c.readOnly && (req.lba in c.table || SlotAtHand(c, e))
  }

  lemma LandsExactly(c: Cache, req: Request, e: Env)
    requires VictimOk(c, e)
    ensures var reply := Handle(c, req, e).reply;
            && (reply.WriteOk? <==> Lands(c, req, e))
            && (reply.WriteOk? ==> (reply.update <==> req.lba in c.table))
  {
  }

  /** A read succeeds exactly if its block is on the device and either cached, or finds a slot and
      arrives; it hits exactly if the block is cached. */
  lemma ReadLandsExactly(c: Cache, l: nat, e: Env)
    requires VictimOk(c, e)
    ensures var reply := Handle(c, Read(l), e).reply;
            && (reply.ReadOk? <==> l < |c.device| && (l in c.table || (SlotAtHand(c, e) && e.readIo.Fetched?)))
            && (reply.ReadOk? ==> (reply.hit <==> l in c.table))
            && !reply.WriteOk?
  {
  }

  /** Which error a refusal carries: the checks come in this order, and there are no other causes. */
  lemma RefusedExactly(c: Cache, req: Request, e: Env)
    requires VictimOk(c, e)
    ensures var reply := Handle(c, req, e).reply;
            var passes := req.lba < |c.device| && !(req.Write? && c.readOnly);
            var misses := passes && req.lba !in c.table;
            && (reply == Refused(LbaOutOfRange(req.lba, |c.device|)) <==> req.lba >= |c.device|)
            && (reply == Refused(Config) <==> req.lba < |c.device| && req.Write? && c.readOnly)
            && (reply == Refused(Internal) <==> misses && c.free == [] && c.table == map[])
            && (reply == Refused(WriteFailed) <==>
                  misses && c.free == [] && c.table != map[] && c.table[e.victim].dirty && e.writeIo.Torn?)
            && (reply == Refused(ReadFailed) <==> misses && SlotAtHand(c, e) && req.Read? && e.readIo.Unread?)
            && (reply.Refused? ==>
                  || reply.error == LbaOutOfRange(req.lba, |c.device|)
                  || reply.error in {Config, Internal, WriteFailed, ReadFailed})
  {
  }

  // ---------------------------------------------------------------- what a request fills

  /** The request puts a block in slot `i`. */
  ghost predicate Fills(c: Cache, req: Request, e: Env, i: nat)
    requires VictimOk(c, e)
  {
    if Misses(c, req) then
      Acquire(c, e).Slot? && Acquire(c, e).index == i
    else
      req.Write? && !c.readOnly && req.lba < |c.device| && req.lba in c.table && c.table[req.lba].poolIndex == i
  }

  /** The block it puts there: a write's data, or as much of the device block as arrives. */
  function Incoming(c: Cache, req: Request, e: Env, i: nat): Block {
    match req
    case Write(_, data) => data
    case Read(lba) =>
      match e.readIo
      case Fetched => At(c.device, lba)
      case Unread(done) => Blend(At(c.device, lba), At(c.pool, i), done)
  }

  lemma AcquireKeepsData(c: Cache, e: Env, l: nat)
    requires WellFormed(c) && VictimOk(c, e) && l !in c.table
    ensures var c1 := Acquire(c, e).cache; c1.pool == c.pool && At(c1.device, l) == At(c.device, l)
    ensures Acquire(c, e).Slot? ==> Acquire(c, e).index < |c.pool|
  {
  }

  lemma FillPool(c: Cache, i: nat, req: Request, e: Env, j: nat)
    requires i < |c.pool|
    ensures At(Fill(c, i, req, e).cache.pool, j) == if j == i then Incoming(c, req, e, i) else At(c.pool, j)
  {
  }

  /** A request changes the pool in the slot it fills and nowhere else. */
  lemma HandlePool(c: Cache, req: Request, e: Env, i: nat)
    requires WellFormed(c) && VictimOk(c, e) && i < |c.pool|
    ensures At(Handle(c, req, e).cache.pool, i) == if Fills(c, req, e, i) then Incoming(c, req, e, i) else At(c.pool, i)
  {
    if Misses(c, req) {
      AcquireKeepsData(c, e, req.lba);
      var a := Acquire(c, e);
      if a.Slot? {
        FillPool(a.cache, a.index, req, e, i);
      }
    }
  }

  lemma WrittenTableNotEmpty(c: Cache, req: Request, e: Env)
    requires VictimOk(c, e) && Handle(c, req, e).reply.WriteOk?
    ensures var c' := Handle(c, req, e).cache;
            |c'.table| > 0 && Dirty(c') <= c'.table.Keys && |c'.table.Keys| == |c'.table|
  {
    var c' := Handle(c, req, e).cache;
    assert req.lba in c'.table;
    assert c'.table != map[];
  }

  lemma RatioAtLeast(dirty: nat, total: nat, watermark: real)
    requires total > 0
    ensures ShouldFlush(dirty, total, watermark) <==> dirty as real >= watermark * total as real
  {
    var d, t := dirty as real, total as real;
    var ratio := d / t;
    assert ratio * t == d;
    assert (ratio - watermark) * t == d - watermark * t;
    assert t > 0.0;
    if ratio >= watermark {
      assert (ratio - watermark) * t >= 0.0;
    } else {
      assert (ratio - watermark) * t < 0.0;
    }
  }

  /** The request writes a dirty victim back and takes its slot. */
  ghost predicate FlushesVictim(c: Cache, req: Request, e: Env)
    requires VictimOk(c, e)
  {
    && req.lba < |c.device| && req.lba !in c.table && !(req.Write? && c.readOnly)
    && c.free == [] && c.table != map[] && c.table[e.victim].dirty && e.writeIo.Written?
  }

  lemma FlushesExactly(c: Cache, req: Request, e: Env)
    requires VictimOk(c, e)
    ensures Evicts(c, req, e) && c.table[e.victim].dirty <==> FlushesVictim(c, req, e)
  {
  }

  lemma WatermarkReached(c: Cache)
    requires |c.table| > 0
    ensures ShouldFlush(|Dirty(c)|, |c.table|, c.watermark) <==> |Dirty(c)| as real >= c.watermark * |c.table| as real
  {
    RatioAtLeast(|Dirty(c)|, |c.table|, c.watermark);
  }

  /** The wake law, for every watermark: a request wakes the flusher exactly if it writes a dirty victim
      back, or is a write that succeeds and leaves at least that share of the cached blocks dirty. */
  lemma WakesExactly(c: Cache, req: Request, e: Env)
    requires VictimOk(c, e)
    ensures var o := Handle(c, req, e);
            Wakes(c, req, e) <==>
            FlushesVictim(c, req, e) ||
            (o.reply.WriteOk? && |Dirty(o.cache)| as real >= c.watermark * |o.cache.table| as real)
  {
    FlushesExactly(c, req, e);
    HandleShape(c, req, e);
    if Handle(c, req, e).reply.WriteOk? {
      WrittenTableNotEmpty(c, req, e);
      WatermarkReached(Handle(c, req, e).cache);
    }
  }

  /** A write that evicts a dirty block found nothing but dirty blocks, and leaves nothing else. */
  lemma DirtyVictimLeavesDirty(c: Cache, req: Request, e: Env)
    requires VictimOk(c, e) && Handle(c, req, e).reply.WriteOk? && Evicts(c, req, e) && c.table[e.victim].dirty
    ensures Dirty(Handle(c, req, e).cache) == Handle(c, req, e).cache.table.Keys
  {
    var c' := Handle(c, req, e).cache;
    forall l | l in c'.table ensures c'.table[l].dirty {
      assert l == req.lba || NoLaterThan(c.table[e.victim], c.table[l]);
    }
  }

  lemma ShareEnds(dirty: nat, total: nat, watermark: real)
    ensures watermark == 0.0 ==> dirty as real >= watermark * total as real
    ensures watermark == 1.0 && dirty <= total ==> (dirty as real >= watermark * total as real <==> dirty == total)
  {
  }

  /** The watermark's ends: at 0 every successful write wakes the flusher; at 1 it does so exactly when
      it leaves every cached block dirty. */
  lemma WatermarkEnds(c: Cache, req: Request, e: Env)
    requires VictimOk(c, e) && Handle(c, req, e).reply.WriteOk?
    ensures c.watermark == 0.0 ==> Wakes(c, req, e)
    ensures c.watermark == 1.0 ==>
              var c' := Handle(c, req, e).cache;
              Wakes(c, req, e) <==> Dirty(c') == c'.table.Keys
  {
    var c' := Handle(c, req, e).cache;
    WakesExactly(c, req, e);
    WrittenTableNotEmpty(c, req, e);
    SubsetSize(Dirty(c'), c'.table.Keys);
    ShareEnds(|Dirty(c')|, |c'.table|, c.watermark);
    FlushesExactly(c, req, e);
    if FlushesVictim(c, req, e) {
      DirtyVictimLeavesDirty(c, req, e);
    }
  }

  /** Timestamps are old ones, or the request's own at its LBA. */
  lemma HandleStamps(c: Cache, req: Request, e: Env)
    requires WellFormed(c) && VictimOk(c, e)
    ensures var c' := Handle(c, req, e).cache;
            forall l | l in c'.table ::
              (l == req.lba && c'.table[l].lastAccess == e.now) ||
              (l in c.table && c'.table[l].lastAccess == c.table[l].lastAccess)
  {
  }

  /** Read-only safety: without dirty entries nothing becomes dirty, nothing is written to the
      device, no eviction needs a flush, and every write is refused. */
  lemma ReadOnlyRequest(c: Cache, req: Request, e: Env)
    requires WellFormed(c) && VictimOk(c, e) && c.readOnly && Dirty(c) == {}
    ensures var o := Handle(c, req, e);
            && Dirty(o.cache) == {} && o.cache.device == c.device
            && (req.Write? ==> o.reply.Refused? && o.cache == c)
            && !Tears(c, req, e)
  {
    assert forall l | l in c.table :: l in Dirty(c) || !c.table[l].dirty;
    var c' := Handle(c, req, e).cache;
    forall l | l in c'.table ensures !c'.table[l].dirty {
    }
  }
}
