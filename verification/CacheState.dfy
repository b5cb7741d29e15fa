/**
  The write-back cache as a value: the device, the pool of slots, the free list
  and the table, together with the operations of `read_path.rs` and `write_path.rs`
  as functions from one state to the next.

  What the outside world decides during an operation is a parameter, `Env`: the
  clock reading, which of several equally good victims the table's iteration order
  puts first, and how the device transfers end.
 */
module CacheState {
  import opened Blocks

  /** Metadata of one cached block (`entry.rs`). */
  datatype Entry = Entry(lba: nat, poolIndex: nat, dirty: bool, lastAccess: nat)

  datatype Cache = Cache(
    device: seq<Block>,
    pool: seq<Block>,
    free: seq<nat>,
    table: map<nat, Entry>,
    readOnly: bool,
    watermark: real)

  datatype CacheError = Config | Internal | WriteFailed | ReadFailed | LbaOutOfRange(lba: nat, maxLba: nat)

  /** How a device write ends: completely, or with an error after `done` bytes. */
  datatype WriteIo = Written | Torn(done: nat)

  /** How a device read ends: completely, or with an error after `done` bytes. */
  datatype ReadIo = Fetched | Unread(done: nat)

  /** What a device write of `data` over `was` leaves there. */
  function Stored(io: WriteIo, data: Block, was: Block): Block {
    if io.Written? then data else Blend(data, was, io.done)
  }

  datatype Env = Env(now: nat, victim: nat, writeIo: WriteIo, readIo: ReadIo)

  datatype Request = Read(lba: nat) | Write(lba: nat, data: Block)

  datatype Reply = ReadOk(hit: bool, data: Block) | WriteOk(update: bool) | Refused(error: CacheError)

  datatype Outcome = Outcome(cache: Cache, reply: Reply)

  // ---------------------------------------------------------------- what a state means

  /** The contents a client sees at `l`: the cached copy if there is one, else the device. */
  function View(c: Cache, l: nat): Block {
    if l in c.table then At(c.pool, c.table[l].poolIndex) else At(c.device, l)
  }

  function Dirty(c: Cache): set<nat> {
    set l | l in c.table && c.table[l].dirty
  }

  /** Every clean cached block equals its device block. */
  ghost predicate Coherent(c: Cache) {
    forall l | l in c.table && !c.table[l].dirty ::
      At(c.pool, c.table[l].poolIndex) == At(c.device, l)
  }

  /** Each key is its entry's LBA, lies on the device and owns a slot of its own. */
  ghost predicate TableOk(c: Cache) {
    && (forall l | l in c.table ::
          c.table[l].lba == l && l < |c.device| && c.table[l].poolIndex < |c.pool|)
    && (forall l, m | l in c.table && m in c.table && l != m ::
          c.table[l].poolIndex != c.table[m].poolIndex)
  }

  /** Free slots are in range, listed once, and owned by no entry. */
  ghost predicate FreeOk(c: Cache) {
    && (forall i | 0 <= i < |c.free| :: c.free[i] < |c.pool|)
    && (forall i, j | 0 <= i < j < |c.free| :: c.free[i] != c.free[j])
    && (forall l | l in c.table :: c.table[l].poolIndex !in c.free)
  }

  ghost predicate WellFormed(c: Cache) {
    TableOk(c) && FreeOk(c)
  }

  /** What a clock that never repeats a reading guarantees. */
  ghost predicate DistinctStamps(c: Cache) {
    forall l, m | l in c.table && m in c.table && l != m :: c.table[l].lastAccess != c.table[m].lastAccess
  }

  /** The state `CacheEngine::new` builds: every slot free, nothing cached. */
  ghost predicate Fresh(c: Cache) {
    && c.table == map[]
    && |c.free| == |c.pool|
    && forall i | 0 <= i < |c.free| :: c.free[i] == i
  }

  // ---------------------------------------------------------------- eviction

  /** The order of `eviction.rs`: clean before dirty, then older before newer. */
  predicate NoLaterThan(a: Entry, b: Entry) {
    if a.dirty == b.dirty then a.lastAccess <= b.lastAccess else b.dirty
  }

  /** `v` may be evicted: it is in the table and least under (dirty, lastAccess). */
  ghost predicate IsVictim(table: map<nat, Entry>, v: nat) {
    v in table && forall l | l in table :: NoLaterThan(table[v], table[l])
  }

  ghost predicate VictimOk(c: Cache, e: Env) {
    c.free == [] && c.table != map[] ==> IsVictim(c.table, e.victim)
  }

  datatype Acquired =
    | Slot(cache: Cache, index: nat)
    | NoSlot(cache: Cache, error: CacheError)

  /** `allocate_or_evict`: pop a free slot, or evict a victim, writing it back first if dirty.
      Popping the slot that eviction has just pushed leaves the free list as it was. */
  ghost function Acquire(c: Cache, e: Env): Acquired
    requires VictimOk(c, e)
  {
    if c.free != [] then
      Slot(c.(free := c.free[..|c.free| - 1]), c.free[|c.free| - 1])
    else if c.table == map[] then
      NoSlot(c, Internal)
    else
      var victim := c.table[e.victim];
      if !victim.dirty then
        Slot(c.(table := c.table - {e.victim}), victim.poolIndex)
      else match e.writeIo
        case Torn(done) =>
          var torn := Blend(At(c.pool, victim.poolIndex), At(c.device, e.victim), done);
          NoSlot(c.(device := Put(c.device, e.victim, torn)), WriteFailed)
        case Written =>
          Slot(c.(device := Put(c.device, e.victim, At(c.pool, victim.poolIndex)),
                  table := c.table - {e.victim}), victim.poolIndex)
  }

  // ---------------------------------------------------------------- requests

  /** Put `data` in slot `i` and table it under `lba`. */
  function Install(c: Cache, lba: nat, i: nat, data: Block, dirty: bool, now: nat): Cache {
    c.(pool := Put(c.pool, i, data), table := c.table[lba := Entry(lba, i, dirty, now)])
  }

  /** `get_and_touch` on a cached LBA. */
  function Touch(c: Cache, lba: nat, now: nat): Cache
    requires lba in c.table
  {
    c.(table := c.table[lba := c.table[lba].(lastAccess := now)])
  }

  /** A miss once it has slot `i`: read the block in and table it clean, or leave the slot
      untabled when the read fails; a write tables its data dirty. */
  function Fill(c: Cache, i: nat, req: Request, e: Env): Outcome {
    match req
    case Write(lba, data) => Outcome(Install(c, lba, i, data, true, e.now), WriteOk(false))
    case Read(lba) =>
      match e.readIo
      case Unread(done) =>
        Outcome(c.(pool := Put(c.pool, i, Blend(At(c.device, lba), At(c.pool, i), done))), Refused(ReadFailed))
      case Fetched =>
        Outcome(Install(c, lba, i, At(c.device, lba), false, e.now), ReadOk(false, At(c.device, lba)))
  }

  ghost function Miss(c: Cache, req: Request, e: Env): Outcome
    requires VictimOk(c, e)
  {
    match Acquire(c, e)
    case NoSlot(c1, error) => Outcome(c1, Refused(error))
    case Slot(c1, i) => Fill(c1, i, req, e)
  }

  ghost function CachedRead(c: Cache, lba: nat, e: Env): Outcome
    requires VictimOk(c, e)
  {
    if lba in c.table then
      Outcome(Touch(c, lba, e.now), ReadOk(true, At(c.pool, c.table[lba].poolIndex)))
    else
      Miss(c, Read(lba), e)
  }

  ghost function CachedWrite(c: Cache, lba: nat, data: Block, e: Env): Outcome
    requires VictimOk(c, e)
  {
    if c.readOnly then
      Outcome(c, Refused(Config))
    else if lba in c.table then
      Outcome(Install(c, lba, c.table[lba].poolIndex, data, true, e.now), WriteOk(true))
    else
      Miss(c, Write(lba, data), e)
  }

  /** `CacheEngine::read` and `CacheEngine::write`: the range check, then the cached path. */
  ghost function Handle(c: Cache, req: Request, e: Env): Outcome
    requires VictimOk(c, e)
  {
    if req.lba >= |c.device| then Outcome(c, Refused(LbaOutOfRange(req.lba, |c.device|)))
    else match req
      case Read(lba) => CachedRead(c, lba, e)
      case Write(lba, data) => CachedWrite(c, lba, data, e)
  }

  // ---------------------------------------------------------------- what a request touches

  /** The request reaches `allocate_or_evict`. */
  predicate Misses(c: Cache, req: Request) {
    req.lba < |c.device| && req.lba !in c.table && (req.Write? ==> !c.readOnly)
  }

  /** The request picks a victim because no slot is free. */
  predicate Seeks(c: Cache, req: Request) {
    Misses(c, req) && c.free == [] && c.table != map[]
  }

  /** The request removes its victim from the table. */
  ghost predicate Evicts(c: Cache, req: Request, e: Env)
    requires VictimOk(c, e)
  {
    Seeks(c, req) && (c.table[e.victim].dirty ==> e.writeIo.Written?)
  }

  /** The request fails in the device write of a dirty victim. */
  ghost predicate Tears(c: Cache, req: Request, e: Env)
    requires VictimOk(c, e)
  {
    Seeks(c, req) && c.table[e.victim].dirty && e.writeIo.Torn?
  }

  /** A miss whose device read fails: the slot it took is neither tabled nor freed. */
  ghost predicate Leaks(c: Cache, req: Request, e: Env)
    requires VictimOk(c, e)
  {
    Misses(c, req) && req.Read? && e.readIo.Unread? && Acquire(c, e).Slot?
  }

  /** `should_flush_immediately`, with the ratio exact. */
  predicate ShouldFlush(dirty: nat, total: nat, watermark: real) {
    total != 0 && dirty as real / total as real >= watermark
  }

  /** The request calls the flusher's `wake`: after writing back a dirty victim, or when a
      successful write leaves the dirty ratio at the watermark or above. */
  ghost predicate Wakes(c: Cache, req: Request, e: Env)
    requires VictimOk(c, e)
  {
    || (Evicts(c, req, e) && c.table[e.victim].dirty)
    || (var o := Handle(c, req, e);
        o.reply.WriteOk? && ShouldFlush(|Dirty(o.cache)|, |o.cache.table|, o.cache.watermark))
  }

  // ---------------------------------------------------------------- flushing

  /** The flusher's device write of slot `i` to `l`. */
  function WriteBack(c: Cache, l: nat, i: nat, io: WriteIo): Cache {
    c.(device := Put(c.device, l, Stored(io, At(c.pool, i), At(c.device, l))))
  }

  /** `LbaTable::mark_clean`: a no-op when `l` is not cached. */
  function MarkClean(c: Cache, l: nat): Cache {
    if l in c.table then c.(table := c.table[l := c.table[l].(dirty := false)]) else c
  }

  ghost predicate DistinctLbas(batch: seq<(nat, nat)>) {
    forall j, k | 0 <= j < k < |batch| :: batch[j].0 != batch[k].0
  }

  /** `batch` is the dirty snapshot, in some iteration order: every dirty LBA once, with its slot. */
  ghost predicate IsSnapshot(c: Cache, batch: seq<(nat, nat)>) {
    && (forall k | 0 <= k < |batch| :: batch[k].0 in Dirty(c) && batch[k].1 == c.table[batch[k].0].poolIndex)
    && DistinctLbas(batch)
    && (forall l | l in Dirty(c) :: exists k :: 0 <= k < |batch| && batch[k].0 == l)
  }
}
