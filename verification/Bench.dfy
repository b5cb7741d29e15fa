/** The cached read benchmarks: loops of engine reads that count hits and misses. */
module Bench {
  import opened Blocks
  import opened CacheState
  import opened Requests
  import opened Recency
  import opened Lru
  import opened Engine

  lemma ReadOne(c: Cache, x: nat, e: Env)
    requires CanRead(c, x, e)
    ensures CanReadAll(c, [x], [e])
    ensures var o := Handle(c, Read(x), e); ReadAll(c, [x], [e]) == (o.cache, [o.reply.ReadOk? && o.reply.hit])
  {
    var o := Handle(c, Read(x), e);
    var b := o.reply.ReadOk? && o.reply.hit;
    assert [x][1..] == [] && [e][1..] == [];
    assert CanReadAll(o.cache, [], []) && ReadAll(o.cache, [], []) == (o.cache, []);
    assert [b] + [] == [b];
  }

  lemma {:induction false} ReadAllAppend(c: Cache, t: seq<nat>, envs: seq<Env>, x: nat, e: Env)
    requires CanReadAll(c, t, envs) && CanRead(ReadAll(c, t, envs).0, x, e)
    ensures CanReadAll(c, t + [x], envs + [e])
    ensures var (c1, hits) := ReadAll(c, t, envs);
            var o := Handle(c1, Read(x), e);
            ReadAll(c, t + [x], envs + [e]) == (o.cache, hits + [o.reply.ReadOk? && o.reply.hit])
    decreases |t|
  {
    if t == [] {
      assert t + [x] == [x] && envs + [e] == [e];
      ReadOne(c, x, e);
      var b := ReadAll(c, [x], [e]).1;
      assert ReadAll(c, t, envs).1 + b == b;
    } else {
      assert (t + [x])[1..] == t[1..] + [x] && (envs + [e])[1..] == envs[1..] + [e];
      var o := Handle(c, Read(t[0]), envs[0]);
      var (c1, rest) := ReadAll(o.cache, t[1..], envs[1..]);
      var o1 := Handle(c1, Read(x), e);
      var b, b1 := o.reply.ReadOk? && o.reply.hit, o1.reply.ReadOk? && o1.reply.hit;
      assert CanReadAll(o.cache, t[1..] + [x], envs[1..] + [e]) &&
             ReadAll(o.cache, t[1..] + [x], envs[1..] + [e]) == (o1.cache, rest + [b1]) by {
        ReadAllAppend(o.cache, t[1..], envs[1..], x, e);
      }
      assert ReadAll(c, t + [x], envs + [e]) == (o1.cache, [b] + (rest + [b1]));
      assert [b] + (rest + [b1]) == [b] + rest + [b1];
    }
  }

  /** What a completed loop has done: it is `ReadAll` on the trace, and it counted its hits. */
  ghost predicate Replayed(c: Cache, c': Cache, t: seq<nat>, envs: seq<Env>, hits: nat, misses: nat) {
    && CanReadAll(c, t, envs) && ReadAll(c, t, envs).0 == c'
    && hits == HitCount(ReadAll(c, t, envs).1) && hits + misses == |t|
  }

  lemma ReplayedNext(c: Cache, c1: Cache, t: seq<nat>, envs: seq<Env>, hits: nat, misses: nat, x: nat, e: Env)
    requires Replayed(c, c1, t, envs, hits, misses) && CanRead(c1, x, e)
    ensures var o := Handle(c1, Read(x), e);
            var hit := o.reply.ReadOk? && o.reply.hit;
            Replayed(c, o.cache, t + [x], envs + [e],
                     if hit then hits + 1 else hits, if hit then misses else misses + 1)
  {
    ReadAllAppend(c, t, envs, x, e);
    var h := ReadAll(c, t, envs).1;
    var b := Handle(c1, Read(x), e).reply.ReadOk? && Handle(c1, Read(x), e).reply.hit;
    assert (h + [b])[..|h|] == h;
  }

  // ---------------------------------------------------------------- when a loop completes

  /** The transfers of the read end as the kernel answers them. */
  ghost predicate Answered(e: Env, pwrites: nat -> int, preads: nat -> int, size: nat) {
    e.writeIo == WriteEnd(pwrites, size) && e.readIo == ReadEnd(preads, size)
  }

  /** `envs` are the circumstances of the first reads of `t` from `c`, all of which succeed. */
  ghost predicate Succeed(c: Cache, t: seq<nat>, envs: seq<Env>, size: nat,
                          pwrites: nat -> nat -> int, preads: nat -> nat -> int)
  {
    && |envs| <= |t| && CanReadAll(c, t[..|envs|], envs)
    && forall k: nat | k < |envs| :: Answered(envs[k], pwrites(k), preads(k), size)
  }

  ghost predicate RefusedAt(c: Cache, c': Cache, x: nat, size: nat, pwrites: nat -> int, preads: nat -> int) {
    exists e :: Answered(e, pwrites, preads, size) && VictimOk(c, e) &&
                Handle(c, Read(x), e).reply.Refused? && Handle(c, Read(x), e).cache == c'
  }

  /** The loop has read all of `t`, or the first read that is refused is the one after `envs`. */
  ghost predicate Ran(c: Cache, c': Cache, t: seq<nat>, envs: seq<Env>, size: nat,
                      pwrites: nat -> nat -> int, preads: nat -> nat -> int, ok: bool)
  {
    && Succeed(c, t, envs, size, pwrites, preads)
    && var k := |envs|;
       var mid := ReadAll(c, t[..k], envs).0;
       if ok then k == |t| && c' == mid
       else k < |t| && RefusedAt(mid, c', t[k], size, pwrites(k), preads(k))
  }

  /** All of `t` is on the device, there is a slot, and the kernel completes every transfer. */
  ghost predicate Untroubled(c: Cache, t: seq<nat>, size: nat, pwrites: nat -> nat -> int, preads: nat -> nat -> int) {
    && InUse(c) > 0
    && forall k: nat | k < |t| ::
         t[k] < |c.device| && WriteEnd(pwrites(k), size).Written? && ReadEnd(preads(k), size).Fetched?
  }

  lemma {:induction false} ReadsKeepDevice(c: Cache, t: seq<nat>, envs: seq<Env>)
    requires WellFormed(c) && CanReadAll(c, t, envs)
    ensures |ReadAll(c, t, envs).0.device| == |c.device|
    decreases |t|
  {
    if t == [] {
    } else {
      ReadKeepsShape(c, t[0], envs[0]);
      ReadsKeepDevice(Handle(c, Read(t[0]), envs[0]).cache, t[1..], envs[1..]);
    }
  }

  /** A benchmark of blocks on the device whose transfers succeed completes. */
  lemma UntroubledCompletes(c: Cache, c': Cache, t: seq<nat>, envs: seq<Env>, size: nat,
                            pwrites: nat -> nat -> int, preads: nat -> nat -> int, ok: bool)
    requires WellFormed(c) && Ran(c, c', t, envs, size, pwrites, preads, ok) && Untroubled(c, t, size, pwrites, preads)
    ensures ok
  {
    var k := |envs|;
    var mid := ReadAll(c, t[..k], envs).0;
    if !ok {
      PassKeepsSlots(c, t[..k], envs);
      ReadsKeepDevice(c, t[..k], envs);
      var e :| Answered(e, pwrites(k), preads(k), size) && VictimOk(mid, e) &&
               Handle(mid, Read(t[k]), e).reply.Refused?;
      ReadLandsExactly(mid, t[k], e);
      assert false;
    }
  }

  lemma SucceedNext(c: Cache, t: seq<nat>, envs: seq<Env>, size: nat,
                    pwrites: nat -> nat -> int, preads: nat -> nat -> int, e: Env)
    requires Succeed(c, t, envs, size, pwrites, preads) && |envs| < |t|
    requires Answered(e, pwrites(|envs|), preads(|envs|), size)
    requires CanRead(ReadAll(c, t[..|envs|], envs).0, t[|envs|], e)
    ensures Succeed(c, t, envs + [e], size, pwrites, preads)
  {
    ReadAllAppend(c, t[..|envs|], envs, t[|envs|], e);
    assert t[..|envs| + 1] == t[..|envs|] + [t[|envs|]];
  }

  // ---------------------------------------------------------------- the loops

  /** The body of both loops: a successful read extends the replay, a refused one ends it. */
  method ReadCounted(engine: CacheEngine, lba: nat, buf: array<byte>, pwrites: nat -> int, preads: nat -> int,
                     ghost c: Cache, ghost t: seq<nat>, ghost envs: seq<Env>, hits: nat, misses: nat)
    returns (ok: bool, hits': nat, misses': nat, ghost e: Env)
    requires engine.Valid() && engine.Buffer(buf)
    requires Replayed(c, engine.State(), t, envs, hits, misses)
    modifies engine, engine.pool, engine.pool.bytes, engine.table, engine.device.bytes, engine.channel, buf
    ensures engine.Valid() && Answered(e, pwrites, preads, engine.pool.blockSize)
    ensures ok ==>
              && CanRead(old(engine.State()), lba, e)
              && Replayed(c, engine.State(), t + [lba], envs + [e], hits', misses')
    ensures !ok ==> RefusedAt(old(engine.State()), engine.State(), lba, engine.pool.blockSize, pwrites, preads)
  {
    ghost var c1 := engine.State();
    DistinctStampsOneVictim(c1);
    var reply;
    reply, e := engine.Read(lba, buf, pwrites, preads);
    hits', misses', ok := hits, misses, reply.ReadOk?;
    if reply.ReadOk? {
      if reply.hit {
        hits' := hits' + 1;
      } else {
        misses' := misses' + 1;
      }
      ReplayedNext(c, c1, t, envs, hits, misses, lba, e);
    } else {
      ReadLandsExactly(c1, lba, e);
    }
  }

  /** `bench_sequential_read_cached`: reads `0..blockCount`, stopping at the first error. */
  method BenchSequentialReadCached(engine: CacheEngine, blockCount: nat, buf: array<byte>,
                                   pwrites: nat -> nat -> int, preads: nat -> nat -> int)
    returns (ok: bool, hits: nat, misses: nat, ghost envs: seq<Env>)
    requires engine.Valid() && engine.Buffer(buf)
    modifies engine, engine.pool, engine.pool.bytes, engine.table, engine.device.bytes, engine.channel, buf
    ensures engine.Valid()
    ensures Ran(old(engine.State()), engine.State(), Scan(blockCount), envs, engine.pool.blockSize, pwrites, preads, ok)
    ensures ok ==> Replayed(old(engine.State()), engine.State(), Scan(blockCount), envs, hits, misses)
  {
    ghost var c, t := engine.State(), Scan(blockCount);
    hits, misses, envs := 0, 0, [];
    for lba := 0 to blockCount
      invariant engine.Valid() && |envs| == lba
      invariant Succeed(c, t, envs, engine.pool.blockSize, pwrites, preads)
      invariant Replayed(c, engine.State(), t[..lba], envs, hits, misses)
    {
      ghost var e;
      ok, hits, misses, e := ReadCounted(engine, lba, buf, pwrites(lba), preads(lba), c, t[..lba], envs, hits, misses);
      if !ok {
        return;
      }
      SucceedNext(c, t, envs, engine.pool.blockSize, pwrites, preads, e);
      assert t[..lba + 1] == t[..lba] + [lba];
      envs := envs + [e];
    }
    assert t[..blockCount] == t;
    ok := true;
  }

  /** `bench_random_read_cached` on its list of LBAs, stopping at the first error. */
  method BenchRandomReadCached(engine: CacheEngine, lbas: seq<nat>, buf: array<byte>,
                               pwrites: nat -> nat -> int, preads: nat -> nat -> int)
    returns (ok: bool, hits: nat, misses: nat, ghost envs: seq<Env>)
    requires engine.Valid() && engine.Buffer(buf)
    modifies engine, engine.pool, engine.pool.bytes, engine.table, engine.device.bytes, engine.channel, buf
    ensures engine.Valid()
    ensures Ran(old(engine.State()), engine.State(), lbas, envs, engine.pool.blockSize, pwrites, preads, ok)
    ensures ok ==> Replayed(old(engine.State()), engine.State(), lbas, envs, hits, misses)
  {
    ghost var c := engine.State();
    hits, misses, envs := 0, 0, [];
    for i := 0 to |lbas|
      invariant engine.Valid() && |envs| == i
      invariant Succeed(c, lbas, envs, engine.pool.blockSize, pwrites, preads)
      invariant Replayed(c, engine.State(), lbas[..i], envs, hits, misses)
    {
      ghost var e;
      ok, hits, misses, e := ReadCounted(engine, lbas[i], buf, pwrites(i), preads(i), c, lbas[..i], envs, hits, misses);
      if !ok {
        return;
      }
      SucceedNext(c, lbas, envs, engine.pool.blockSize, pwrites, preads, e);
      assert lbas[..i + 1] == lbas[..i] + [lbas[i]];
      envs := envs + [e];
    }
    assert lbas[..|lbas|] == lbas;
    ok := true;
  }

  // ---------------------------------------------------------------- cold and warm

  /** Two loops over `t`, the second of them begun if the first completes. */
  ghost predicate RanTwice(c: Cache, c': Cache, t: seq<nat>, envs: seq<Env>, envs': seq<Env>, size: nat,
                           pwrites: nat -> nat -> int, preads: nat -> nat -> int,
                           pwrites': nat -> nat -> int, preads': nat -> nat -> int, ok: bool)
  {
    if |envs| < |t| then !ok && Ran(c, c', t, envs, size, pwrites, preads, false)
    else CanReadAll(c, t, envs) && var between := ReadAll(c, t, envs).0;
         && Ran(c, between, t, envs, size, pwrites, preads, true)
         && Ran(between, c', t, envs', size, pwrites', preads', ok)
  }

  lemma UntroubledCompletesTwice(c: Cache, c': Cache, t: seq<nat>, envs: seq<Env>, envs': seq<Env>, size: nat,
                                 pwrites: nat -> nat -> int, preads: nat -> nat -> int,
                                 pwrites': nat -> nat -> int, preads': nat -> nat -> int, ok: bool)
    requires WellFormed(c) && RanTwice(c, c', t, envs, envs', size, pwrites, preads, pwrites', preads', ok)
    requires Untroubled(c, t, size, pwrites, preads) && Untroubled(c, t, size, pwrites', preads')
    ensures ok
  {
    if |envs| < |t| {
      UntroubledCompletes(c, c', t, envs, size, pwrites, preads, false);
    } else {
      var between := ReadAll(c, t, envs).0;
      PassKeepsSlots(c, t, envs);
      ReadsKeepDevice(c, t, envs);
      UntroubledCompletes(between, c', t, envs', size, pwrites', preads', ok);
    }
  }

  /** A cold and a warm scan of a fresh engine, as the benchmark runner does them: they end at the first
      error; if there is none, the first counts no hit and the second counts all or none. */
  method ColdAndWarmScan(engine: CacheEngine, blockCount: nat, buf: array<byte>,
                         pwrites: nat -> nat -> int, preads: nat -> nat -> int,
                         pwrites': nat -> nat -> int, preads': nat -> nat -> int)
    returns (ok: bool, cold: nat, warm: nat, ghost envs: seq<Env>, ghost envs': seq<Env>)
    requires engine.Valid() && Fresh(engine.State()) && engine.pool.capacity > 0 && engine.Buffer(buf)
    modifies engine, engine.pool, engine.pool.bytes, engine.table, engine.device.bytes, engine.channel, buf
    ensures engine.Valid()
    ensures RanTwice(old(engine.State()), engine.State(), Scan(blockCount), envs, envs', engine.pool.blockSize,
                     pwrites, preads, pwrites', preads', ok)
    ensures ok ==> cold == 0 && warm == if blockCount <= engine.pool.capacity then blockCount else 0
  {
    ghost var c := engine.State();
    warm, envs' := 0, [];
    var misses;
    ok, cold, misses, envs := BenchSequentialReadCached(engine, blockCount, buf, pwrites, preads);
    if !ok {
      return;
    }
    assert Scan(blockCount)[..blockCount] == Scan(blockCount);
    ok, warm, misses, envs' := BenchSequentialReadCached(engine, blockCount, buf, pwrites', preads');
    if ok {
      ScanDichotomy(c, blockCount, envs, envs');
    }
  }

  lemma {:induction false} AllHit(hits: seq<bool>)
    ensures HitCount(hits) <= |hits|
    ensures HitCount(hits) == |hits| <==> forall i | 0 <= i < |hits| :: hits[i]
    decreases |hits|
  {
    if hits == [] {
    } else {
      AllHit(hits[..|hits| - 1]);
    }
  }

  /** A random trace replayed warm on an engine in whatever state, with no flush meanwhile: the replay
      counts only hits if and only if the trace's distinct LBAs and the blocks dirty after the first
      pass together fit the slots in circulation.  If before it some slot held no dirty block, the
      first pass changes neither which blocks are dirty nor the number of slots. */
  method ColdAndWarmReplay(engine: CacheEngine, lbas: seq<nat>, buf: array<byte>,
                           pwrites: nat -> nat -> int, preads: nat -> nat -> int,
                           pwrites': nat -> nat -> int, preads': nat -> nat -> int)
    returns (ok: bool, warmMisses: nat, ghost envs: seq<Env>, ghost envs': seq<Env>)
    requires engine.Valid() && engine.Buffer(buf)
    modifies engine, engine.pool, engine.pool.bytes, engine.table, engine.device.bytes, engine.channel, buf
    ensures engine.Valid()
    ensures RanTwice(old(engine.State()), engine.State(), lbas, envs, envs', engine.pool.blockSize,
                     pwrites, preads, pwrites', preads', ok)
    ensures ok ==>
              var c := old(engine.State());
              && CanReadAll(c, lbas, envs)
              && var between := ReadAll(c, lbas, envs).0;
                 && (warmMisses == 0 <==> |Members(lbas) + Dirty(between)| <= InUse(between))
                 && InUse(between) == InUse(c) && (HasRoom(c) ==> Dirty(between) == Dirty(c))
  {
    ghost var c := engine.State();
    var hits;
    envs' := [];
    ok, hits, warmMisses, envs := BenchRandomReadCached(engine, lbas, buf, pwrites, preads);
    if !ok {
      return;
    }
    assert lbas[..|lbas|] == lbas;
    ok, hits, warmMisses, envs' := BenchRandomReadCached(engine, lbas, buf, pwrites', preads');
    if ok {
      WarmReplay(c, lbas, envs, envs');
      AllHit(ReadAll(ReadAll(c, lbas, envs).0, lbas, envs').1);
    }
  }
}
