# A verified model of the asm-cache-inject block cache

The repository is a write-back RAM cache for raw block devices: a table from LBA to cache entry, a
pool of block slots with a free list, LRU eviction that prefers clean blocks, cached reads and writes,
and a background flusher that writes dirty blocks back. This project models that cache over a device
whose transfers may fail half-way, and proves what clients and the device can rely on.

## How the model is built

- `CacheState` is the cache as a value (device, pool, free list, table), with the client operations as
  functions. Whatever the outside world decides is a parameter `Env`: the clock reading, which of
  several equally good victims the hash map's order puts first, and how each device transfer ends. A
  failed device write leaves a prefix of the data, never all of it, over the old block, and a failed
  device read the same in its slot; `Threads.BlocksStayWhole` shows that blocks keep their size.
- `Requests` and `FlushCycle` prove what one request and one uninterrupted flush cycle keep.
- `Threads` is a step machine for one client and the flusher. Requests are atomic; the flusher's wait,
  dirty snapshot, device write, `mark_clean` and stop check are separate steps; storing the stop flag
  and sending the shutdown message are separate steps. `Interleaving`, `EvictionFree`, `FlusherExit`,
  `Wakeups` and `ReadOnly` hold the theorems about whole runs, and `Witnesses` runs, for any blocks, in
  which a race shows.
- `Eviction` is the sort and the scan, proved to choose just the least entries. `Recency` defines
  recency from a trace of LBAs alone, and `Lru` proves that on read traces the timestamp-sorting eviction
  implements it on the slots that dirty blocks leave. `Policy` is the replacement policy as one queue and
  a set of dirty LBAs, which every run of `Threads` follows, and `Replay` is warm replay beside a working
  flusher.
- `ByteIo`, `Storage`, `Table`, `Channel`, `Engine` and `Bench` are the imperative code in its own form:
  byte arrays, retry loops, a map updated in place, a one-slot channel, the engine's methods and the
  benchmark loops. Each engine method is proved to be a step of the abstract cache in which the device
  transfers end as the kernel's answers say; reads and writes also leave the channel as the corresponding
  step of `Threads` does. `Session` composes them: a client
  program over bytes, from start to stop, is one run of `Threads` that serves its requests; its reads
  return the bytes last written, and the device holds them in the end if no write of the shutdown fails.

## Where the code does less than it says

- Coherence is not unconditional. No lock spans the flusher's snapshot, write and `mark_clean`
  (`src/flush/flusher.rs:155-169`). `Interleaving.Disturbs` names two kinds of request that endanger it:
  one that spoils a pair the cycle has still to write, which for a cached block means evicting it and
  refilling its slot with a different block (`Interleaving.SpoiltByEviction`), and one that writes new
  data to a block between its write-back and its mark. Failing transfers add no third kind:
  `Interleaving.DisturbanceExact` shows that a request leaves a safe state if and only if it is of
  these kinds, and `Interleaving.SafeRunsExactly` the same of whole runs. `Witnesses.EvictedBlockLost`
  and `Witnesses.LostWrite` are runs in which all device operations succeed and a successful read
  returns the wrong block, one for each kind.
- The shutdown message promises to commit all dirty blocks (`src/cli/commands.rs:60`). A stop that lands
  after a cycle's snapshot can leave later writes unflushed (`Witnesses.StopAfterSnapshotLeavesDirty`);
  `FlusherExit.ShutdownCompleteExactly` says which.
- The benchmark runner's comment that a warm replay gives only hits (`src/bench/runner.rs:184`) holds,
  with nothing flushed meanwhile, exactly when the trace's distinct LBAs and the blocks dirty after the
  first pass together fit the slots in circulation (`Lru.WarmReplay`). After the write benchmarks the
  dirty blocks count. With the flusher at work it still holds if the LBAs and the blocks dirty before the
  first pass fit (`Replay.ReplayBesideFlusher`).
- Eviction is LRU only while the oldest clean entry is unique. With equal clock readings the table's
  order decides, each of the least entries is chosen under some order (`Eviction.ChosenExactly`), and
  some order breaks LRU (`Lru.TrueLruExactly`). `Witnesses.TieEvictsNewer` is such a run.
- The "inconsistent state" error is reachable: each miss whose device read fails loses its slot for good,
  and the error comes back exactly when all slots are lost (`Threads.AllocationProgress`). Every started
  engine has a run that gets there (`Threads.InternalErrorReachable`).
- The watermark comment says that 1.0 means periodic flushing only (`src/flush/scheduler.rs:20`). The
  comparison is `>=`, so at 1.0 a write that leaves every cached block dirty still wakes the flusher
  (`Requests.WatermarkEnds`).
- `write_block` is documented to fail on a short write (`src/io/writer.rs:24`); the loop retries short
  writes and fails only on an error or on no progress. The model follows the loop.

## Model

| member | source | states |
|---|---|---|
| Interleaving.InterleavedCoherence | src/flush/flusher.rs:154-181 | in every interleaved run without a disturbing request all successful reads return the block last written to their LBA, and the run ends coherent and showing exactly the reference |
| Interleaving.DisturbanceExact | src/flush/flusher.rs:163-169 | from any undisturbed state, every continuation without further requests stays consistent with the reference if and only if the request does not disturb the cycle under way, whatever transfers tear |
| Interleaving.SafeExactly | src/flush/flusher.rs:154-181 | a consistent state stays so under every continuation of the flusher if and only if each slot still to be written holds its block and a block about to be marked is on the device; a dangerous continuation needs no failing write |
| Interleaving.SafeRunsExactly | src/flush/flusher.rs:154-181 | every state of an interleaved run is safe if and only if none of its requests disturbs |
| Interleaving.SpoiltByEviction | src/engine/read_path.rs:87-108 | a cached block still to be written is spoiled exactly by evicting it and putting a different block in its slot |
| Interleaving.EvictedPendingOverwritten | src/engine/read_path.rs:103-108 | even with no failing device write, evicting a block the cycle has still to write lets the cycle overwrite it on the device with its slot's new block |
| Interleaving.RefinementWithFailures | src/engine/read_path.rs:28-109 | a started engine whose flush cycles are not interrupted is safe throughout and behaves as a plain run of blocks, whichever device operations fail and whatever they tear |
| Witnesses.LostWrite | src/flush/flusher.rs:167-170 | for any different blocks x and y, a reachable state in which reading block 0 succeeds with x although y was last written, after a write between the flusher's device write and its mark |
| Witnesses.EvictedBlockLost | src/engine/read_path.rs:103-108 | for any blocks, a reachable state in which reading block 0 succeeds with the contents of block 1 although something else was last written, after an eviction between the flusher's snapshot and its device write |
| EvictionFree.EvictionFreeRunsAgree | src/engine/write_path.rs:60-89 | if distinct requested LBAs plus failed miss reads do not exceed the capacity, reads agree with the reference under every interleaving, mid-cycle writes included |
| FlusherExit.ShutdownCompleteExactly | src/flush/flusher.rs:126-147 | without failing writes, the entries dirty at the flusher's exit are exactly those it had passed over when stop was stored; their device blocks stay as they were, every other LBA has the client's view on the device, and the device is complete exactly if it was for those |
| FlusherExit.ShutdownTerminates | src/flush/sync.rs:69-98 | once stop is stored, whatever the channel holds, at most one more wait, one more snapshot and a computed number of steps happen |
| FlusherExit.StoppedNeverStuck | src/flush/sync.rs:89-98 | a stopped flusher that has not exited can always take its next step, without a failing write |
| FlusherExit.ShutdownExits | src/flush/sync.rs:69-98 | after stop every run that the flusher cannot extend ends with the flusher gone, and such a run exists without failing writes |
| Witnesses.StopAfterSnapshotLeavesDirty | src/flush/flusher.rs:131-146 | for any blocks, a reachable state in which the flusher has exited and a successfully written block is neither flushed nor clean |
| Witnesses.TieEvictsNewer | src/cache/eviction.rs:37-50 | for any blocks, after two reads at one clock reading some listing order makes the later one the victim of the third, and the earlier one stays |
| Wakeups.NoLostWake | src/flush/sync.rs:50-71 | after any wake the flusher's next wait returns the message that was pending or else the wake, and a snapshot after it holds each entry dirty at the wake that no step in between cleaned or evicted |
| Wakeups.NoLostShutdown | src/flush/sync.rs:74-77 | the next wait after the shutdown is sent returns the message that was pending or else the shutdown |
| Wakeups.JoinedIsNotified | src/flush/sync.rs:74-98 | in every run, a flusher that waits once the client has sent the shutdown has a message, so its wait does not time out |
| Wakeups.RunsUntilStopped | src/flush/flusher.rs:142-146 | until stop is stored the flusher does not exit and never sees a shutdown message |
| Threads.SlotConservation | src/memory/pool.rs:101-125 | in every interleaving free slots stay distinct, in range and disjoint from the entries' distinct slots, and free plus tabled slots fall by one exactly at each miss whose device read fails |
| Threads.AllocationProgress | src/engine/read_path.rs:71-109 | the inconsistent-state error comes back if and only if every slot has been lost to failed reads; short of that a miss fails only by its victim's write-back or its own read |
| Threads.InternalErrorReachable | src/engine/read_path.rs:49-59 | every started engine on a non-empty device has a run of as many requests as it has slots after which a read is refused with the inconsistent-state error |
| Threads.CycleIsFlush | src/flush/flusher.rs:154-181 | the flusher's single steps, uninterrupted, compute the whole-cycle loop |
| Threads.BlocksStayWhole | src/io/writer.rs:36-63 | device blocks and slots keep one size in every run, whatever transfers tear |
| ReadOnly.ReadOnlySafety | src/engine/write_path.rs:50-54 | in read-only mode no reachable state has a dirty entry, no step writes the device, and every cached block equals its device block |
| Policy.TableIsQueue | src/engine/read_path.rs:28-109 | in every run of a started engine, with reads, writes, failures and flush steps anywhere, the cached LBAs, their dirty flags and their age order are those of a queue from which clean LBAs leave first, least recently used first, then dirty ones; hits and updates are membership; needs a clock that does not run backwards and unique victims |
| Policy.LeaverIsVictim | src/cache/eviction.rs:37-67 | the first clean LBA of the queue, or the first if all are dirty, is least under (dirty, last access) |
| Requests.HandleKeepsView | src/engine/read_path.rs:28-67 | a request changes what clients see only by its own data after a successful write, whatever it evicts or tears, and keeps coherence |
| Requests.HandleRefinesReference | src/engine/write_path.rs:40-89 | one request returns what the reference holds, moves the view as the reference moves, and changes no view when refused |
| Requests.ReadLandsExactly | src/engine/read_path.rs:28-67 | a read succeeds if and only if its block is on the device and either cached or finds a slot and arrives; it hits exactly if cached |
| Requests.LandsExactly | src/engine/write_path.rs:40-89 | a write succeeds if and only if it is in range, not in read-only mode, and its block is cached or finds a slot; it is an update exactly if cached |
| Requests.RefusedExactly | src/engine/read_path.rs:78-108 | for each error the exact condition under which a request is refused with it, with the fields of the range error, and that there are no other errors |
| Requests.HandleConservesSlots | src/engine/read_path.rs:49-59 | a request keeps slots unique and loses one exactly when a miss fails in its device read |
| Requests.AcquireFailsExactlyWhen | src/engine/read_path.rs:78-108 | the two ways a slot request fails, each with its exact condition, and that eviction hands out the victim's slot |
| Requests.WakesExactly | src/flush/scheduler.rs:52-58 | for every watermark, a request wakes the flusher if and only if it writes a dirty victim back or is a successful write that leaves at least that share of the cached blocks dirty |
| Requests.WatermarkEnds | src/flush/scheduler.rs:52-58 | at watermark 0 every successful write wakes the flusher; at 1 it does so exactly when it leaves every cached block dirty |
| FlushCycle.FlushCycleExact | src/flush/flusher.rs:154-181 | a cycle leaves dirty exactly the entries whose write failed, returns the decrease in dirty entries, changes the device only where it was stale, and is invisible to clients |
| FlushCycle.FlushCycleComplete | src/flush/flusher.rs:163-180 | a cycle without failures leaves nothing dirty and the whole view on the device |
| Lru.LruContents | src/cache/eviction.rs:37-67 | after any read-only trace from a fresh engine the cached LBAs are exactly the last capacity distinct ones, and a read hits exactly when fewer than capacity distinct LBAs came since its own; needs a unique victim when one is sought |
| Lru.LruBesideDirty | src/cache/eviction.rs:37-67 | from any state with a slot free of dirty blocks, a read trace keeps the dirty blocks and makes the others cached exactly the last distinct LBAs that fit the remaining slots, with the hits that go with it |
| Lru.TrueLruExactly | src/cache/eviction.rs:43-50 | a read keeps the clean entries the most recent ones whatever order the table is listed in if and only if, when it seeks a victim, only one entry is least |
| Lru.VictimIsOldest | src/cache/eviction.rs:43-50 | a unique victim is clean, and every other clean entry was requested after it |
| Lru.LruInclusion | src/engine/read_path.rs:40-59 | on one trace a larger cache holds and hits whatever a smaller one does |
| Lru.ScanDichotomy | src/bench/sequential.rs:94-123 | of two scans of 0..n the first never hits and the second hits everywhere or nowhere, as n fits the capacity or not |
| Lru.WarmReplay | src/bench/random.rs:111-143 | from any state, a trace replayed right after itself gives only hits if and only if its distinct LBAs and the blocks dirty after the first pass fit the slots in circulation; the first pass changes neither number if some slot held no dirty block |
| Lru.MissMakesRoom | src/engine/read_path.rs:85-108 | in a cache full of dirty blocks a successful miss evicts one of them, leaving the others dirty and the slots as many |
| Replay.ReplayBesideFlusher | src/bench/runner.rs:183-186 | with any flusher steps between the reads, a replay gives only hits if the LBAs and the blocks dirty before the first pass fit the slots, and only if the LBAs and the blocks dirty after it do |
| Lru.ReadTracks | src/engine/read_path.rs:40-66 | beside any dirty blocks, one read hits exactly those and the recent other LBAs, and keeps the clean entries and the timestamp order equal to the trace's recency |
| Eviction.CandidateIsVictim | src/cache/eviction.rs:37-67 | for any listing order the candidate is least under (dirty, last access), has its own slot, and needs a flush exactly when all entries are dirty; there is none exactly for an empty table |
| Eviction.ChosenExactly | src/cache/lba_table.rs:119-124 | an entry is least under (dirty, last access) if and only if some listing of the table makes it the candidate |
| Eviction.SortKeepsListing | src/cache/lba_table.rs:119-124 | sorting by last access keeps the entries and orders them oldest first |
| ByteIo.WriteBlock | src/io/writer.rs:25-66 | for any kernel answers the loop ends, exactly a prefix of the range changes, to the buffer's bytes, and it succeeds exactly when that is the whole buffer |
| ByteIo.ReadBlock | src/io/reader.rs:25-68 | the destination receives exactly a prefix of the range, and the loop succeeds exactly when it is the whole range |
| ByteIo.TransferCompletes | src/io/writer.rs:36-63 | a transfer completes if and only if the kernel offers enough bytes before its first failure |
| ByteIo.TransferExactly | src/io/writer.rs:36-63 | a transfer moves the whole range, or exactly what the kernel offers before its first failure |
| ByteIo.MaxLbaExact | src/io/device_info.rs:74-79 | an LBA is below the maximum if and only if its whole block lies on the device |
| Storage.BlockDevice.CountExact | src/engine/cache_engine.rs:192-199 | an LBA passes the engine's range check if and only if all bytes of its block are on the device |
| ByteIo.SplitAfterWrite | src/io/writer.rs:72-76 | overwriting the first bytes of one block changes that block and no other |
| ByteIo.NtMemcpy | src/asm/nontemporal.rs:51-91 | the chunk loop copies every whole 64-byte chunk of the range and nothing else |
| Storage.BlockDevice.WriteLba | src/io/writer.rs:72-76 | the bytes at lba times the block size become the data, or as much of it as the kernel took; as blocks, the addressed one changes and no other |
| Storage.BlockDevice.ReadLba | src/io/reader.rs:74-78 | the destination receives the bytes at lba times the block size, as many as the kernel gave |
| Storage.MemoryPool.New | src/memory/pool.rs:55-91 | refuses exactly the sizes that do not cut the allocation into whole page-aligned blocks, then reports a failed allocation; otherwise every slot is free |
| Storage.MemoryPool.BufferForIndex | src/memory/pool.rs:173-182 | a slot lies inside the allocation on a page boundary |
| Storage.MemoryPool.StoreBlock | src/engine/write_path.rs:60-64 | streaming a buffer into a slot replaces that slot's block and no other |
| Table.LbaTable.DirtyEntries | src/cache/lba_table.rs:108-115 | every dirty LBA is listed exactly once, with its slot, and nothing else |
| Table.LbaTable.Stats | src/cache/lba_table.rs:127-137 | the counts are the numbers of entries and of dirty entries |
| Engine.CacheEngine.AllocateOrEvict | src/engine/read_path.rs:71-109 | over bytes, a step of the abstract slot request, waking the flusher exactly after a dirty victim's write-back |
| Engine.CacheEngine.Read | src/engine/cache_engine.rs:137-141 | over bytes, a step of the abstract request with the transfers ending as the kernel answers; the buffer holds the reply's block, or is untouched on an error; the flusher is woken exactly when the step wakes it |
| Engine.CacheEngine.Write | src/engine/cache_engine.rs:147-160 | over bytes, a step of the abstract request with the transfers ending as the kernel answers and the same account of the flusher's wake |
| Engine.CacheEngine.FlushDirtyBlocks | src/flush/flusher.rs:154-181 | over bytes, a whole abstract cycle over a listing of the dirty entries, each write ending as the kernel answers, returning its count |
| Engine.CacheEngine.FlushTurn | src/flush/flusher.rs:126-147 | one turn of the flush thread without interleaving: the cycle, the drained channel, and an exit exactly on a shutdown message or a set flag |
| Engine.CacheEngine.Stop | src/engine/cache_engine.rs:113-131 | a running engine stores the flag, sends the shutdown if there is room, and its flusher exits after a whole cycle over the dirty entries; one that is not running is left alone |
| Session.AnswerIsExpected | src/engine/cache_engine.rs:137-160 | a client's answer, success, bytes or error, is a function of the device's size, the mode, what is cached and dirty, the free slots, its view and the ends of the transfers; victim and clock do not matter |
| Session.RunProgram | src/engine/cache_engine.rs:137-160 | over bytes, any program of reads, writes and flush turns, whatever the kernel answers, with or without a flusher: each answer is the expected one, each successful read leaves the bytes last written in the buffer, and the program is one run of the step machine with whole cycles that serves its requests in order |
| Session.RunToStop | src/engine/cache_engine.rs:54-131 | a program from the new engine to its stop is a run from a started state; every whole block of the device's bytes that is not dirty in the end is as last written, and nothing is dirty if the kernel completes the writes of the shutdown or the engine is read-only |
| Session.TurnLeads | src/flush/flusher.rs:126-147 | the steps of one turn of the flusher do the whole cycle and end in exit exactly on a shutdown message or a set flag, else at the wait |
| Bench.BenchSequentialReadCached | src/bench/sequential.rs:94-123 | the loop ends at the first refused read, or else is the abstract replay of 0..n, with its hits counted and hits plus misses equal to n |
| Bench.BenchRandomReadCached | src/bench/random.rs:111-143 | the same for the list of LBAs |
| Bench.UntroubledCompletes | src/bench/sequential.rs:104-111 | a benchmark of blocks on the device, with a slot in circulation and transfers the kernel completes, meets no error |
| Bench.ColdAndWarmScan | src/bench/runner.rs:85-109 | on a fresh engine both scans run to the first refused read; without one the cold scan counts no hit and the warm one all or none |
| Bench.ColdAndWarmReplay | src/bench/runner.rs:163-186 | on any engine both passes run to the first refused read; without one the warm replay has no miss if and only if the trace's distinct LBAs and the blocks dirty after the first pass fit the slots |

## Left out

- Engine.CacheEngine.FlushTurn: has no other thread in it, interleavings being the subject of `Threads`, and no device sync after the cycle.
- Channel.FlushChannel.Wait: a wait on an empty channel is a timeout; messages that arrive while it blocks are earlier steps of `Threads`; a channel whose senders are all dropped does not occur.
- Lru.LruContents: assumes reads that succeed, a clock that never runs backwards, and a unique oldest clean entry whenever one is evicted; `Lru.TrueLruExactly` shows that the last is needed. `CacheEngine` has a clock that never repeats a reading.
- Lru.LruBesideDirty: speaks of traces of reads alone from a cache with a slot free of dirty blocks; for writes, flushes and full caches the contents are given by `Policy.TableIsQueue`, as a queue and not in closed form.
- Policy.TableIsQueue: assumes a clock that never runs backwards and unique victims; which of several least entries goes is known to `Eviction.ChosenExactly` alone.
- Replay.ReplayBesideFlusher: between its two conditions the outcome depends on when each block is flushed.
- Table.LbaTable.Stats: the hit total, a sum of the entries' access counts, is left out with the counts themselves.
- Session.RunProgram: the flusher's turns come between calls, as whole cycles; for other interleavings the theorems are those of `Interleaving`.
- Several client threads: the miss path is not atomic per LBA, so two misses on one LBA could replace each other's entry. All theorems have one client.
- Torn pool bytes while the flusher copies a block the client is overwriting, weak memory ordering, prefetches and fences: a block copy is one step.
- Durability below the device write (`fsync`): the device is one layer.
- The inline assembly of `rep movsb`: a plain copy.
- Opening devices, `ioctl`, sysfs, `O_DIRECT`: the kernel appears only as the answers of `pread` and `pwrite`. The signed file offset is not modelled.
- Floating-point rounding of the watermark ratio: exact reals.
- `CacheConfig::validate` and the overflow of `cache_size_mb * 1024 * 1024`: the pool's own checks are modelled.
- The capacity figures in the pool's error value, which only serve its text.
- Joining the flush thread, panics and `Drop`: `FlusherExit` ends at the flusher's exit.
- The CLI, reports, logging, timing, and the uncached and write benchmarks.
