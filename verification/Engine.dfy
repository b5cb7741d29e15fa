/**
  The cache engine over real bytes.  Each operation is proved to be a step of the abstract cache:
  `State` before and after are related by `Handle` or `Flush`, for some choice of victim and some
  ending of the device transfers.
 */
module Engine {
  import opened Blocks
  import opened ByteIo
  import opened CacheState
  import opened Requests
  import opened FlushCycle
  import opened Eviction
  import opened Storage
  import opened Table
  import opened Channel
  import T = Threads

  /** A non-empty table has a victim. */
  lemma SomeVictim(table: map<nat, Entry>) returns (v: nat)
    requires table != map[]
    ensures IsVictim(table, v)
    decreases |table|
  {
    var l :| l in table;
    var rest := table - {l};
    RemoveOne(table, l);
    v := l;
    if rest != map[] {
      var w := SomeVictim(rest);
      if !NoLaterThan(table[l], table[w]) {
        v := w;
      }
    }
    forall m | m in table ensures NoLaterThan(table[v], table[m]) {
      assert m == l || m in rest;
    }
  }

  /** How a device write of `size` bytes ends when the kernel answers so. */
  function WriteEnd(pwrites: nat -> int, size: nat): WriteIo {
    var written := Transferred(pwrites, 0, 0, size);
    if written == size then Written else Torn(written)
  }

  /** How a device read ends. */
  function ReadEnd(preads: nat -> int, size: nat): ReadIo {
    var got := Transferred(preads, 0, 0, size);
    if got == size then Fetched else Unread(got)
  }

  /** Each write of a cycle ends as the kernel answers it. */
  ghost predicate EndAs(pwrites: nat -> nat -> int, ios: seq<WriteIo>, size: nat) {
    forall k | 0 <= k < |ios| :: ios[k] == WriteEnd(pwrites(k), size)
  }

  lemma SomeEnv(c: Cache, now: nat, writeIo: WriteIo, readIo: ReadIo) returns (e: Env)
    ensures VictimOk(c, e) && e.now == now && e.writeIo == writeIo && e.readIo == readIo
  {
    var v := 0;
    if c.table != map[] {
      v := SomeVictim(c.table);
    }
    e := Env(now, v, writeIo, readIo);
  }

  /** `Flush` from the front is the loop of `flush_dirty_blocks` run to the last pair. */
  lemma {:induction false} FlushAppend(c: Cache, batch: seq<(nat, nat)>, ios: seq<WriteIo>, p: (nat, nat), io: WriteIo)
    requires |ios| == |batch|
    ensures var (c1, n) := Flush(c, batch, ios);
            Flush(c, batch + [p], ios + [io]) == (FlushOne(c1, p, io), if io.Written? then n + 1 else n)
    decreases |batch|
  {
    if batch == [] {
      assert (batch + [p])[1..] == [] && (ios + [io])[1..] == [];
    } else {
      var c1 := FlushOne(c, batch[0], ios[0]);
      assert (batch + [p])[0] == batch[0] && (ios + [io])[0] == ios[0];
      assert Flush(c1, (batch + [p])[1..], (ios + [io])[1..]) == Flush(c1, batch[1..] + [p], ios[1..] + [io]) by {
        assert (batch + [p])[1..] == batch[1..] + [p] && (ios + [io])[1..] == ios[1..] + [io];
      }
      FlushAppend(c1, batch[1..], ios[1..], p, io);
    }
  }

  /** Every access so far is older than `clock`, and no two happened at once. */
  ghost predicate StampedBefore(c: Cache, clock: nat) {
    DistinctStamps(c) && forall l | l in c.table :: c.table[l].lastAccess < clock
  }

  lemma {:induction false} FlushStamps(c: Cache, batch: seq<(nat, nat)>, ios: seq<WriteIo>, clock: nat)
    requires |ios| == |batch| && StampedBefore(c, clock)
    ensures StampedBefore(Flush(c, batch, ios).0, clock)
    decreases |batch|
  {
    if batch == [] {
    } else {
      FlushStamps(FlushOne(c, batch[0], ios[0]), batch[1..], ios[1..], clock);
    }
  }

  lemma FlushPrefix(c: Cache, batch: seq<(nat, nat)>, ios: seq<WriteIo>, k: nat, c1: Cache, n: nat, io: WriteIo)
    requires |ios| == k < |batch| && (c1, n) == Flush(c, batch[..k], ios)
    ensures Flush(c, batch[..k + 1], ios + [io]) == (FlushOne(c1, batch[k], io), if io.Written? then n + 1 else n)
  {
    FlushAppend(c, batch[..k], ios, batch[k], io);
    assert batch[..k + 1] == batch[..k] + [batch[k]];
  }

  lemma FlushKeepsValid(c: Cache, batch: seq<(nat, nat)>, ios: seq<WriteIo>, clock: nat)
    requires WellFormed(c) && StampedBefore(c, clock) && IsSnapshot(c, batch) && |ios| == |batch|
    ensures WellFormed(Flush(c, batch, ios).0) && StampedBefore(Flush(c, batch, ios).0, clock)
  {
    SnapshotIsPending(c, batch);
    FlushInvisible(c, batch, ios);
    FlushStamps(c, batch, ios, clock);
  }

  lemma RequestKeepsValid(c: Cache, req: Request, e: Env, clock: nat, clock': nat)
    requires WellFormed(c) && VictimOk(c, e) && StampedBefore(c, clock) && clock <= e.now < clock'
    ensures WellFormed(Handle(c, req, e).cache) && StampedBefore(Handle(c, req, e).cache, clock')
  {
    HandleConservesSlots(c, req, e);
    HandleStamps(c, req, e);
  }

  /** Acquiring a slot wrote a dirty victim back. */
  ghost predicate VictimFlushed(c: Cache, e: Env)
    requires VictimOk(c, e)
  {
    Acquire(c, e).Slot? && c.free == [] && c.table[e.victim].dirty
  }

  lemma FlushedIsEvicted(c: Cache, req: Request, e: Env)
    requires VictimOk(c, e)
    ensures Misses(c, req) ==> (VictimFlushed(c, e) <==> Evicts(c, req, e) && c.table[e.victim].dirty)
    ensures !Misses(c, req) ==> !Evicts(c, req, e)
  {
  }

  class CacheEngine {
    const device: BlockDevice
    const pool: MemoryPool
    const table: LbaTable
    const channel: FlushChannel
    const readOnly: bool
    const watermark: real
    var running: bool
    var clock: nat

    /** The abstract cache this engine stands for. */
    ghost function State(): Cache
      reads device.bytes, pool, pool.bytes, table
    {
      Cache(device.Blocks(), pool.Blocks(), pool.freeList, table.inner, readOnly, watermark)
    }

    /** The parts fit together; none of this ever changes. */
    ghost predicate Wired() {
      && pool.Valid() && device.blockSize == pool.blockSize
      && device.bytes != pool.bytes && device.bytes.Length < U64_LIMIT
    }

    ghost predicate Valid()
      reads this, device.bytes, pool, pool.bytes, table
    {
      Wired() && WellFormed(State()) && StampedBefore(State(), clock)
    }

    /** `CacheEngine::new` on a pool and a device of one block size. */
    constructor (device: BlockDevice, pool: MemoryPool, readOnly: bool, watermark: real)
      requires pool.Valid() && device.blockSize == pool.blockSize && device.bytes != pool.bytes
      requires device.bytes.Length < U64_LIMIT
      requires |pool.freeList| == pool.capacity && forall i | 0 <= i < pool.capacity :: pool.freeList[i] == i
      ensures Valid() && Fresh(State()) && !running
      ensures this.device == device && this.pool == pool && this.readOnly == readOnly && this.watermark == watermark
      ensures fresh(table) && fresh(channel) && channel.slot == None && !channel.stop
    {
      this.device, this.pool, this.readOnly, this.watermark := device, pool, readOnly, watermark;
      running, clock := false, 0;
      table := new LbaTable();
      channel := new FlushChannel();
    }

    /** `start`: no flusher in read-only mode, and never a second one. */
    method Start()
      modifies `running
      ensures running == (old(running) || !readOnly)
    {
      if running || readOnly {
        return;
      }
      running := true;
    }

    /** `Instant::now` on a clock that never repeats a reading. */
    method Now() returns (now: nat)
      modifies `clock
      ensures now == old(clock) && clock == now + 1
    {
      now := clock;
      clock := clock + 1;
    }

    /** `wake` through the engine's notifier, which goes nowhere when no flusher runs. */
    method Notify()
      modifies channel
      ensures channel.slot == (if running then T.TrySend(old(channel.slot), T.Wake) else old(channel.slot))
      ensures channel.stop == old(channel.stop)
    {
      if running {
        channel.Wake();
      }
    }

    /** Writes slot `i` back to `l`, as both eviction and the flusher do. */
    method WriteBackBlock(l: nat, i: nat, pwrites: nat -> int) returns (ok: bool, ghost io: WriteIo)
      requires Wired() && l < device.Count() && i < pool.capacity
      modifies device.bytes
      ensures (ok <==> io.Written?) && io == WriteEnd(pwrites, pool.blockSize)
      ensures State() == WriteBack(old(State()), l, i, io)
    {
      var data := pool.GetBlock(i);
      ghost var written;
      ok, written := device.WriteLba(l, data, pwrites);
      io := if ok then Written else Torn(written);
    }

    /** `select_eviction_candidate` on the engine's table. */
    method ChooseVictim() returns (candidate: Option<Candidate>)
      requires forall l | l in table.inner :: table.inner[l].lba == l
      ensures candidate.None? <==> table.inner == map[]
      ensures candidate.Some? ==>
                && IsVictim(table.inner, candidate.value.lba)
                && candidate.value.poolIndex == table.inner[candidate.value.lba].poolIndex
                && candidate.value.needsFlush == table.inner[candidate.value.lba].dirty
    {
      var entries := table.EntriesByLru();
      candidate := SelectCandidate(entries);
      ghost var listed :| Lists(table.inner, listed) && entries == SortByAccess(listed);
      CandidateIsVictim(table.inner, listed);
    }

    /** Drops the victim from the table, returns its slot to the empty free list and takes it again. */
    method Recycle(lba: nat, i: nat) returns (index: Option<nat>)
      requires pool.freeList == []
      modifies pool, table
      ensures index == Some(i) && State() == old(State()).(table := old(State()).table - {lba})
    {
      table.Remove(lba);
      pool.Deallocate(i);
      index := pool.Allocate();
    }

    /** `allocate_or_evict`. */
    method AllocateOrEvict(pwrites: nat -> int) returns (index: Option<nat>, error: CacheError, ghost e: Env)
      requires Wired() && WellFormed(State())
      modifies pool, table, device.bytes, channel
      ensures VictimOk(old(State()), e) && e.writeIo == WriteEnd(pwrites, pool.blockSize)
      ensures Acquire(old(State()), e) == if index.Some? then Slot(State(), index.value) else NoSlot(State(), error)
      ensures channel.slot == if running && VictimFlushed(old(State()), e) then
                                T.TrySend(old(channel.slot), T.Wake)
                              else old(channel.slot)
      ensures channel.stop == old(channel.stop)
    {
      error := Internal;
      e := Env(0, 0, WriteEnd(pwrites, pool.blockSize), Fetched);
      index := pool.Allocate();
      if index.Some? {
        return;
      }
      var candidate := ChooseVictim();
      if candidate.None? {
        return;
      }
      var victim := candidate.value;
      e := e.(victim := victim.lba);
      if victim.needsFlush {
        var ok, io := WriteBackBlock(victim.lba, victim.poolIndex, pwrites);
        if !ok {
          return None, WriteFailed, e;
        }
        Notify();
      }
      index := Recycle(victim.lba, victim.poolIndex);
    }

    /** Wakes the flusher when the dirty ratio has reached the watermark. */
    method MaybeWakeFlusher()
      requires forall l | l in table.inner :: table.inner[l].lba == l
      modifies channel
      ensures channel.slot ==
              if running && ShouldFlush(|Dirty(State())|, |table.inner|, watermark) then
                T.TrySend(old(channel.slot), T.Wake)
              else old(channel.slot)
      ensures channel.stop == old(channel.stop)
    {
      var total, dirty := table.Stats();
      assert (set l | l in table.inner && table.inner[l].dirty) == Dirty(State());
      if ShouldFlush(dirty, total, watermark) {
        Notify();
      }
    }

    /** The client's buffer is a whole block outside the device and the pool. */
    ghost predicate Buffer(user: array<byte>) {
      user.Length == pool.blockSize && user != device.bytes && user != pool.bytes
    }

    /** The hit path of `cached_read`. */
    method ReadHit(lba: nat, user: array<byte>, now: nat) returns (reply: Option<Reply>)
      requires Wired() && WellFormed(State()) && Buffer(user)
      modifies table, user
      ensures lba in old(table.inner) ==>
                && State() == Touch(old(State()), lba, now)
                && reply == Some(ReadOk(true, At(old(State()).pool, old(table.inner)[lba].poolIndex)))
                && user[..] == reply.value.data
      ensures lba !in old(table.inner) ==> reply == None && State() == old(State()) && user[..] == old(user[..])
    {
      var hit := table.GetAndTouch(lba, now);
      if hit.None? {
        return None;
      }
      pool.LoadBlock(hit.value, user);
      reply := Some(ReadOk(true, user[..]));
    }

    /** The rest of a read miss, once it has slot `i`. */
    method FillRead(lba: nat, i: nat, user: array<byte>, now: nat, preads: nat -> int)
      returns (reply: Reply, ghost readIo: ReadIo)
      requires Wired() && lba < device.Count() && i < pool.capacity && Buffer(user)
      modifies table, pool.bytes, user
      ensures forall e: Env | e.now == now && e.readIo == readIo ::
                Outcome(State(), reply) == Fill(old(State()), i, Request.Read(lba), e)
      ensures readIo == ReadEnd(preads, pool.blockSize)
      ensures reply.ReadOk? ==> user[..] == reply.data
      ensures reply.Refused? ==> user[..] == old(user[..])
    {
      var ok, got := pool.FetchBlock(i, device, lba, preads);
      if !ok {
        return Refused(ReadFailed), Unread(got);
      }
      table.Insert(lba, Entry(lba, i, false, now));
      pool.LoadBlock(i, user);
      return ReadOk(false, user[..]), Fetched;
    }

    /** The miss path of `cached_read`. */
    method ReadMiss(lba: nat, user: array<byte>, now: nat, pwrites: nat -> int, preads: nat -> int)
      returns (reply: Reply, ghost e: Env)
      requires Wired() && WellFormed(State()) && Misses(State(), Request.Read(lba)) && Buffer(user)
      modifies pool, pool.bytes, table, device.bytes, channel, user
      ensures VictimOk(old(State()), e) && e.now == now
      ensures e.writeIo == WriteEnd(pwrites, pool.blockSize) && e.readIo == ReadEnd(preads, pool.blockSize)
      ensures Outcome(State(), reply) == Miss(old(State()), Request.Read(lba), e)
      ensures reply.ReadOk? ==> user[..] == reply.data
      ensures reply.Refused? ==> user[..] == old(user[..])
      ensures channel.slot == if running && VictimFlushed(old(State()), e) then
                                T.TrySend(old(channel.slot), T.Wake)
                              else old(channel.slot)
      ensures channel.stop == old(channel.stop)
    {
      ghost var c := State();
      var index, error;
      index, error, e := AllocateOrEvict(pwrites);
      e := e.(now := now, readIo := ReadEnd(preads, pool.blockSize));
      AcquireKeepsData(c, e, lba);
      if index.None? {
        return Refused(error), e;
      }
      ghost var readIo;
      reply, readIo := FillRead(lba, index.value, user, now, preads);
    }

    /** `read`: a step of the abstract cache in which the transfers end as the kernel answers, with the
        reply's data in the client's buffer, the buffer untouched on an error, and the flusher woken
        exactly when the abstract step wakes it. */
    method Read(lba: nat, user: array<byte>, pwrites: nat -> int, preads: nat -> int)
      returns (reply: Reply, ghost e: Env)
      requires Valid() && Buffer(user)
      modifies this, pool, pool.bytes, table, device.bytes, channel, user
      ensures Valid() && running == old(running)
      ensures VictimOk(old(State()), e) && old(clock) <= e.now
      ensures e.writeIo == WriteEnd(pwrites, pool.blockSize) && e.readIo == ReadEnd(preads, pool.blockSize)
      ensures Outcome(State(), reply) == Handle(old(State()), Request.Read(lba), e)
      ensures reply.ReadOk? ==> user[..] == reply.data
      ensures reply.Refused? ==> user[..] == old(user[..])
      ensures channel.slot == if running && Wakes(old(State()), Request.Read(lba), e) then
                                T.TrySend(old(channel.slot), T.Wake)
                              else old(channel.slot)
      ensures channel.stop == old(channel.stop)
    {
      ghost var c, before := State(), clock;
      e := SomeEnv(c, clock, WriteEnd(pwrites, pool.blockSize), ReadEnd(preads, pool.blockSize));
      if lba >= device.Count() {
        return Refused(LbaOutOfRange(lba, device.Count())), e;
      }
      var now := Now();
      var hit := ReadHit(lba, user, now);
      if hit.Some? {
        reply := hit.value;
      } else {
        reply, e := ReadMiss(lba, user, now, pwrites, preads);
      }
      FlushedIsEvicted(c, Request.Read(lba), e);
      RequestKeepsValid(c, Request.Read(lba), e, before, clock);
    }

    /** The update path of `cached_write`: overwrite the slot, then mark dirty. */
    method WriteHit(lba: nat, i: nat, user: array<byte>, now: nat)
      requires Wired() && WellFormed(State()) && Buffer(user)
      requires lba in table.inner && table.inner[lba].poolIndex == i
      modifies table, pool.bytes
      ensures State() == Install(old(State()), lba, i, user[..], true, now)
    {
      pool.StoreBlock(i, user);
      table.MarkDirty(lba, now);
    }

    /** The rest of a write miss, once it has slot `i`: the entry is created clean, then marked dirty. */
    method FillWrite(lba: nat, i: nat, user: array<byte>) returns (now: nat)
      requires Wired() && i < pool.capacity && Buffer(user)
      modifies this`clock, table, pool.bytes
      ensures State() == Install(old(State()), lba, i, user[..], true, now)
      ensures old(clock) <= now < clock
    {
      pool.StoreBlock(i, user);
      var created := Now();
      var entry := Entry(lba, i, false, created);
      now := Now();
      table.Insert(lba, Touched(entry.(dirty := true), now));
    }

    /** The new-entry path of `cached_write`, up to the watermark check. */
    method WriteMiss(lba: nat, user: array<byte>, pwrites: nat -> int) returns (reply: Reply, ghost e: Env)
      requires Wired() && WellFormed(State()) && Misses(State(), Request.Write(lba, user[..])) && Buffer(user)
      modifies this`clock, pool, pool.bytes, table, device.bytes, channel
      ensures VictimOk(old(State()), e) && old(clock) <= e.now < clock && e.writeIo == WriteEnd(pwrites, pool.blockSize)
      ensures Outcome(State(), reply) == Miss(old(State()), Request.Write(lba, user[..]), e)
      ensures channel.slot == if running && VictimFlushed(old(State()), e) then
                                T.TrySend(old(channel.slot), T.Wake)
                              else old(channel.slot)
      ensures channel.stop == old(channel.stop)
    {
      ghost var c := State();
      var index, error;
      index, error, e := AllocateOrEvict(pwrites);
      AcquireKeepsData(c, e, lba);
      var now;
      if index.None? {
        now := Now();
        e := e.(now := now);
        return Refused(error), e;
      }
      now := FillWrite(lba, index.value, user);
      e := e.(now := now);
      reply := WriteOk(false);
    }

    /** `write`: a step of the abstract cache that leaves the client's buffer alone. */
    method Write(lba: nat, user: array<byte>, pwrites: nat -> int) returns (reply: Reply, ghost e: Env)
      requires Valid() && Buffer(user)
      modifies this, pool, pool.bytes, table, device.bytes, channel
      ensures Valid() && running == old(running)
      ensures VictimOk(old(State()), e) && old(clock) <= e.now && e.writeIo == WriteEnd(pwrites, pool.blockSize)
      ensures Outcome(State(), reply) == Handle(old(State()), Request.Write(lba, user[..]), e)
      ensures channel.slot == if running && Wakes(old(State()), Request.Write(lba, user[..]), e) then
                                T.TrySend(old(channel.slot), T.Wake)
                              else old(channel.slot)
      ensures channel.stop == old(channel.stop)
    {
      ghost var c, req, before := State(), Request.Write(lba, user[..]), clock;
      e := SomeEnv(c, clock, WriteEnd(pwrites, pool.blockSize), Fetched);
      if lba >= device.Count() {
        return Refused(LbaOutOfRange(lba, device.Count())), e;
      }
      if readOnly {
        return Refused(Config), e;
      }
      var existing := table.Get(lba);
      if existing.Some? {
        var now := Now();
        WriteHit(lba, existing.value.poolIndex, user, now);
        reply := WriteOk(true);
      } else {
        reply, e := WriteMiss(lba, user, pwrites);
      }
      FlushedIsEvicted(c, req, e);
      RequestKeepsValid(c, req, e, before, clock);
      if reply.WriteOk? {
        MaybeWakeFlusher();
      }
    }

    /** One pair of the flusher's loop. */
    method FlushPair(p: (nat, nat), pwrites: nat -> int) returns (ok: bool, ghost io: WriteIo)
      requires Wired() && p.0 < device.Count() && p.1 < pool.capacity
      modifies table, device.bytes
      ensures (ok <==> io.Written?) && io == WriteEnd(pwrites, pool.blockSize)
      ensures State() == FlushOne(old(State()), p, io)
    {
      ok, io := WriteBackBlock(p.0, p.1, pwrites);
      if ok {
        table.MarkClean(p.0);
      }
    }

    /** The loop of `flush_dirty_blocks` over the listed entries. */
    method FlushListed(batch: seq<(nat, nat)>, pwrites: nat -> nat -> int)
      returns (flushed: nat, ghost ios: seq<WriteIo>)
      requires Wired() && forall k | 0 <= k < |batch| :: batch[k].0 < device.Count() && batch[k].1 < pool.capacity
      modifies table, device.bytes
      ensures EndAs(pwrites, ios, pool.blockSize) && |ios| == |batch|
      ensures (State(), flushed) == Flush(old(State()), batch, ios)
    {
      ghost var c := State();
      ios, flushed := [], 0;
      for k := 0 to |batch|
        invariant |ios| == k && EndAs(pwrites, ios, pool.blockSize)
        invariant (State(), flushed) == Flush(c, batch[..k], ios)
      {
        ghost var c1, n := State(), flushed;
        var ok, io := FlushPair(batch[k], pwrites(k));
        if ok {
          flushed := flushed + 1;
        }
        FlushPrefix(c, batch, ios, k, c1, n, io);
        ios := ios + [io];
      }
      assert batch[..|batch|] == batch;
    }

    /** `flush_dirty_blocks`: a whole cycle over some listing of the dirty entries, each write ending
        as the kernel decides, returning the number flushed. */
    method FlushDirtyBlocks(pwrites: nat -> nat -> int)
      returns (flushed: nat, ghost batch: seq<(nat, nat)>, ghost ios: seq<WriteIo>)
      requires Valid()
      modifies table, device.bytes
      ensures Valid() && IsSnapshot(old(State()), batch) && |ios| == |batch| && EndAs(pwrites, ios, pool.blockSize)
      ensures (State(), flushed) == Flush(old(State()), batch, ios)
    {
      ghost var c := State();
      var dirty := table.DirtyEntries();
      T.SnapshotInRange(c, dirty);
      batch := dirty;
      flushed, ios := FlushListed(dirty, pwrites);
      FlushKeepsValid(c, batch, ios, clock);
    }

    /** One turn of `flush_thread_main` with no other thread interleaving: wait, flush, check for stop. */
    method FlushTurn(pwrites: nat -> nat -> int)
      returns (exit: bool, signal: Option<T.Signal>, ghost batch: seq<(nat, nat)>, ghost ios: seq<WriteIo>)
      requires Valid()
      modifies table, device.bytes, channel
      ensures Valid() && IsSnapshot(old(State()), batch) && |ios| == |batch| && EndAs(pwrites, ios, pool.blockSize)
      ensures State() == Flush(old(State()), batch, ios).0
      ensures signal == old(channel.slot)
      ensures exit <==> old(channel.slot) == Some(T.Shutdown) || old(channel.stop)
      ensures channel.slot == None && channel.stop == old(channel.stop)
    {
      signal := channel.Wait();
      var flushed;
      flushed, batch, ios := FlushDirtyBlocks(pwrites);
      var stopped := channel.IsStopped();
      exit := signal == Some(T.Shutdown) || stopped;
    }

    /** `stop`: stores the flag, sends the message if there is room, and waits for the flusher's end: its
        wait returns what the channel holds, its cycle is whole, and its stop check exits.  Without a
        flusher nothing happens. */
    method Stop(pwrites: nat -> nat -> int)
      returns (joined: bool, signal: Option<T.Signal>, ghost batch: seq<(nat, nat)>, ghost ios: seq<WriteIo>)
      requires Valid()
      modifies `running, table, device.bytes, channel
      ensures Valid() && !running && joined == old(running)
      ensures !joined ==>
                && State() == old(State()) && signal == None && batch == [] && ios == []
                && channel.slot == old(channel.slot) && channel.stop == old(channel.stop)
      ensures joined ==>
                && channel.stop && channel.slot == None && signal == T.TrySend(old(channel.slot), T.Shutdown)
                && IsSnapshot(old(State()), batch) && |ios| == |batch| && EndAs(pwrites, ios, pool.blockSize)
                && State() == Flush(old(State()), batch, ios).0
    {
      joined, signal, batch, ios := false, None, [], [];
      if running {
        channel.Shutdown();
        joined, signal, batch, ios := FlushTurn(pwrites);
        running := false;
      }
    }
  }
}
