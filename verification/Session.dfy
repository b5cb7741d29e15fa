/**
  A client program on the engine over bytes: any calls of `read` and `write`, turns of the flush thread
  between them, and a stop at the end.  The whole program is one run of the step machine `Threads` that
  serves just the requests made; each successful read leaves in the client's buffer the bytes last
  written to its LBA; and after the stop the device holds those bytes.
 */
module Session {
  import opened Blocks
  import opened ByteIo
  import opened CacheState
  import opened Engine
  import opened FlushCycle
  import opened FlusherExit
  import opened Interleaving
  import opened ReadOnly
  import opened Requests
  import opened Storage
  import opened Threads

  datatype Call = Ask(req: Request) | Turn

  datatype Answer = Bytes(bytes: Block) | Done | Failed(error: CacheError)

  function AnswerOf(reply: Reply): Answer {
    match reply
    case ReadOk(_, data) => Bytes(data)
    case WriteOk(_) => Done
    case Refused(error) => Failed(error)
  }

  /** What a client gets, from what it can know: the device's size, the mode, what is cached and dirty,
      whether a slot is free, the bytes it sees, and how the transfers end.  Neither the clock nor the
      table's order nor the layout of the pool matters. */
  function Expected(c: Cache, req: Request, writeIo: WriteIo, readIo: ReadIo): Answer {
    var l := req.lba;
    if l >= |c.device| then Failed(LbaOutOfRange(l, |c.device|))
    else if req.Write? && c.readOnly then Failed(Config)
    else if l in c.table then if req.Write? then Done else Bytes(View(c, l))
    else if InUse(c) == 0 then Failed(Internal)
    else if c.free == [] && Dirty(c) == c.table.Keys && writeIo.Torn? then Failed(WriteFailed)
    else if req.Write? then Done
    else if readIo.Unread? then Failed(ReadFailed)
    else Bytes(View(c, l))
  }

  /** The victim is dirty exactly if all are. */
  lemma DirtyVictim(c: Cache, e: Env)
    requires VictimOk(c, e) && c.free == [] && c.table != map[]
    ensures c.table[e.victim].dirty <==> Dirty(c) == c.table.Keys
  {
    if c.table[e.victim].dirty {
      forall l | l in c.table ensures l in Dirty(c) {
        assert NoLaterThan(c.table[e.victim], c.table[l]);
      }
    } else {
      assert e.victim !in Dirty(c);
    }
  }

  /** A client gets what it can expect, whatever the victim and the clock reading. */
  lemma AnswerIsExpected(c: Cache, req: Request, e: Env)
    requires WellFormed(c) && Coherent(c) && VictimOk(c, e)
    ensures AnswerOf(Handle(c, req, e).reply) == Expected(c, req, e.writeIo, e.readIo)
  {
    var reply := Handle(c, req, e).reply;
    RefusedExactly(c, req, e);
    HandleKeepsView(c, req, e);
    if c.free == [] && c.table != map[] {
      DirtyVictim(c, e);
    }
    match req
    case Read(l) => ReadLandsExactly(c, l, e);
    case Write(_, _) => LandsExactly(c, req, e);
  }

  predicate Stores(call: Call, answer: Answer, l: nat) {
    call.Ask? && call.req.Write? && call.req.lba == l && answer.Done?
  }

  /** Block `l` after the calls: the data of the last successful write to it, if any, else the block
      that `c` shows there. */
  function LastWritten(c: Cache, calls: seq<Call>, answers: seq<Answer>, l: nat): Block
    requires |answers| == |calls|
    decreases |calls|
  {
    if calls == [] then View(c, l)
    else
      var n := |calls| - 1;
      if Stores(calls[n], answers[n], l) then calls[n].req.data
      else LastWritten(c, calls[..n], answers[..n], l)
  }

  /** If call `k` is a read that succeeded, it returned the bytes last written. */
  predicate ReadsLast(c: Cache, calls: seq<Call>, answers: seq<Answer>, k: nat)
    requires |answers| == |calls| && k < |calls|
  {
    calls[k].Ask? && calls[k].req.Read? && !answers[k].Failed? ==>
      answers[k] == Bytes(LastWritten(c, calls[..k], answers[..k], calls[k].req.lba))
  }

  /** What a program has done so far: its reads returned the bytes last written, and the view is that
      of the calls. */
  ghost predicate Faithful(c: Cache, c': Cache, calls: seq<Call>, answers: seq<Answer>) {
    && |answers| == |calls|
    && (forall k: nat | k < |calls| :: ReadsLast(c, calls, answers, k))
    && forall l :: View(c', l) == LastWritten(c, calls, answers, l)
  }

  lemma FaithfulNext(c: Cache, c1: Cache, c2: Cache, calls: seq<Call>, k: nat, answers: seq<Answer>, answer: Answer)
    requires k < |calls| && Faithful(c, c1, calls[..k], answers)
    requires calls[k].Ask? && calls[k].req.Read? ==> answer.Failed? || answer == Bytes(View(c1, calls[k].req.lba))
    requires forall l :: View(c2, l) == if Stores(calls[k], answer, l) then calls[k].req.data else View(c1, l)
    ensures Faithful(c, c2, calls[..k + 1], answers + [answer])
  {
    var calls', answers' := calls[..k + 1], answers + [answer];
    assert calls'[..k] == calls[..k] && answers'[..k] == answers;
    forall j: nat | j < |calls'| ensures ReadsLast(c, calls', answers', j) {
      if j < k {
        assert calls'[..j] == calls[..k][..j] && answers'[..j] == answers[..j];
        assert ReadsLast(c, calls[..k], answers, j);
      }
    }
    forall l ensures View(c2, l) == LastWritten(c, calls', answers', l) {
    }
  }

  // ---------------------------------------------------------------- runs

  function AskedIn(call: Call): seq<Request> {
    if call.Ask? then [call.req] else []
  }

  /** The requests of a program, in order. */
  function AskedBy(calls: seq<Call>): seq<Request> {
    if calls == [] then [] else AskedBy(calls[..|calls| - 1]) + AskedIn(calls[|calls| - 1])
  }

  function ServedIn(st: Step): seq<Request> {
    if st.Serve? then [st.req] else []
  }

  /** The requests that a run serves, in order. */
  function ServedBy(steps: seq<Step>): seq<Request> {
    if steps == [] then [] else ServedIn(steps[0]) + ServedBy(steps[1..])
  }

  lemma {:induction false} ServedConcat(a: seq<Step>, b: seq<Step>)
    ensures ServedBy(a + b) == ServedBy(a) + ServedBy(b)
    decreases |a|
  {
    if a == [] {
      assert a + b == b;
    } else {
      assert (a + b)[0] == a[0] && (a + b)[1..] == a[1..] + b;
      ServedConcat(a[1..], b);
    }
  }

  /** `steps` lead from `s` to `s'`, serving `reqs`, and every flush cycle among them runs whole. */
  ghost predicate Leads(s: Sys, steps: seq<Step>, s': Sys, reqs: seq<Request>) {
    Feasible(s, steps) && WholeCycles(s, steps) && Exec(s, steps) == s' && ServedBy(steps) == reqs
  }

  lemma {:induction false} WholeCyclesConcat(s: Sys, a: seq<Step>, b: seq<Step>)
    requires Feasible(s, a) && WholeCycles(s, a) && Feasible(Exec(s, a), b) && WholeCycles(Exec(s, a), b)
    ensures Feasible(s, a + b) && WholeCycles(s, a + b)
    decreases |a|
  {
    ExecConcat(s, a, b);
    if a == [] {
      assert a + b == b;
    } else {
      assert (a + b)[0] == a[0] && (a + b)[1..] == a[1..] + b;
      WholeCyclesConcat(Next(s, a[0]), a[1..], b);
    }
  }

  lemma LeadsOn(s: Sys, a: seq<Step>, s1: Sys, asked: seq<Request>, b: seq<Step>, s2: Sys, more: seq<Request>)
    requires Leads(s, a, s1, asked) && Leads(s1, b, s2, more)
    ensures Leads(s, a + b, s2, asked + more)
  {
    WholeCyclesConcat(s, a, b);
    ExecConcat(s, a, b);
    ServedConcat(a, b);
  }

  lemma StepLeads(s: Sys, st: Step)
    requires Enabled(s, st) && (st.Serve? ==> !s.flusher.Flushing? && !s.flusher.Marking?)
    ensures Leads(s, [st], Next(s, st), ServedIn(st))
  {
    ExecOne(s, st);
    assert [st][1..] == [];
    assert WholeCycles(Next(s, st), []);
    assert ServedBy([st]) == ServedIn(st) + ServedBy([]);
  }

  lemma {:induction false} QuietLeads(s: Sys, steps: seq<Step>)
    requires Feasible(s, steps) && NoRequests(steps)
    ensures Leads(s, steps, Exec(s, steps), [])
    decreases |steps|
  {
    if steps == [] {
    } else {
      assert forall k | 0 <= k < |steps| - 1 :: steps[1..][k] == steps[k + 1];
      QuietLeads(Next(s, steps[0]), steps[1..]);
    }
  }

  lemma QuietStepLeads(s: Sys, a: seq<Step>, s1: Sys, st: Step)
    requires Leads(s, a, s1, []) && Enabled(s1, st) && !st.Serve?
    ensures Leads(s, a + [st], Next(s1, st), [])
  {
    StepLeads(s1, st);
    LeadsOn(s, a, s1, [], [st], Next(s1, st), []);
  }

  lemma {:induction false} CycleIsQuiet(ios: seq<WriteIo>)
    ensures NoRequests(CycleSteps(ios))
    decreases |ios|
  {
    if ios == [] {
    } else {
      CycleIsQuiet(ios[1..]);
    }
  }

  /** From its wait to its stop check, the flusher does a whole cycle. */
  lemma CycleLeads(s: Sys, batch: seq<(nat, nat)>, ios: seq<WriteIo>) returns (steps: seq<Step>)
    requires s.flusher.Waiting? && IsSnapshot(s.cache, batch) && |ios| == |batch|
    ensures var c' := Flush(s.cache, batch, ios).0;
            Leads(s, steps, s.(cache := c', slot := None, flusher := Flushing([], s.slot)), [])
  {
    var wait := if s.slot.Some? then Receive else Timeout;
    var s1 := Next(s, wait);
    var s2 := Next(s1, Snapshot(batch));
    CycleIsFlush(s2, ios);
    CycleIsQuiet(ios);
    QuietLeads(s2, CycleSteps(ios));
    StepLeads(s, wait);
    QuietStepLeads(s, [wait], s1, Snapshot(batch));
    steps := [wait] + [Snapshot(batch)];
    LeadsOn(s, steps, s2, [], CycleSteps(ios), Exec(s2, CycleSteps(ios)), []);
    steps := steps + CycleSteps(ios);
  }

  /** A turn of the flusher, from its wait on: it does a whole cycle, and then exits exactly if its wait
      returned the shutdown or the flag was set; else it waits again. */
  lemma TurnLeads(s: Sys, batch: seq<(nat, nat)>, ios: seq<WriteIo>) returns (steps: seq<Step>)
    requires s.flusher.Waiting? && IsSnapshot(s.cache, batch) && |ios| == |batch|
    ensures var exits := s.slot == Some(Shutdown) || s.stop;
            var c' := Flush(s.cache, batch, ios).0;
            Leads(s, steps, s.(cache := c', slot := None, flusher := if exits then Exited else Waiting), [])
  {
    steps := CycleLeads(s, batch, ios);
    QuietStepLeads(s, steps, Exec(s, steps), CheckStop);
    steps := steps + [CheckStop];
  }

  /** Where a run of `shutdown` ends that begins while the flusher waits. */
  function ShutDown(s: Sys, c: Cache): Sys {
    s.(cache := c, slot := None, stop := true, client := Joining, flusher := Exited)
  }

  /** The last turn: `stop` is stored, the message is sent, and the flusher exits with the cycle done. */
  lemma ShutdownLeads(s: Sys, batch: seq<(nat, nat)>, ios: seq<WriteIo>) returns (steps: seq<Step>)
    requires s.client.Serving? && s.flusher.Waiting? && IsSnapshot(s.cache, batch) && |ios| == |batch|
    ensures steps != [] && steps[0] == SetStop && Leads(s, steps, ShutDown(s, Flush(s.cache, batch, ios).0), [])
  {
    var s1 := Next(s, SetStop);
    var s2 := Next(s1, SendShutdown);
    StepLeads(s, SetStop);
    QuietStepLeads(s, [SetStop], s1, SendShutdown);
    var turn := TurnLeads(s2, batch, ios);
    LeadsOn(s, [SetStop] + [SendShutdown], s2, [], turn, Exec(s2, turn), []);
    steps := [SetStop] + [SendShutdown] + turn;
  }

  /** A shutdown none of whose writes fails leaves nothing dirty. */
  lemma ShutdownCleans(s: Sys, steps: seq<Step>, s': Sys)
    requires WellFormed(s.cache) && Coherent(s.cache) && s.client.Serving? && s.flusher.Waiting?
    requires steps != [] && steps[0] == SetStop && Leads(s, steps, s', []) && s'.flusher.Exited? && NoWriteFails(steps)
    ensures Dirty(s'.cache) == {}
  {
    assert forall k | 0 <= k < |steps| - 1 :: steps[1..][k] == steps[k + 1];
    ShutdownCompleteExactly(Next(s, SetStop), steps[1..]);
  }

  // ---------------------------------------------------------------- one call

  /** Between two calls the engine is in state `s` of the step machine, with nobody told to stop.
      Without a flusher nobody looks at the channel. */
  ghost predicate Stands(engine: CacheEngine, s: Sys)
    reads engine, engine.channel, engine.pool, engine.pool.bytes, engine.table, engine.device.bytes
  {
    && s.cache == engine.State() && s.client.Serving? && s.flusher.Waiting? && !s.stop && s.slot != Some(Shutdown)
    && (engine.running ==> s.slot == engine.channel.slot && !engine.channel.stop)
  }

  ghost predicate Ready(engine: CacheEngine)
    reads engine, engine.pool, engine.pool.bytes, engine.table, engine.device.bytes
  {
    engine.Valid() && Coherent(engine.State())
  }

  method PerformRead(engine: CacheEngine, lba: nat, buf: array<byte>, pwrites: nat -> int, preads: nat -> int,
                     ghost s: Sys)
    returns (answer: Answer, ghost steps: seq<Step>, ghost s': Sys)
    requires Ready(engine) && engine.Buffer(buf) && Stands(engine, s)
    modifies engine, engine.pool, engine.pool.bytes, engine.table, engine.device.bytes, engine.channel, buf
    ensures Ready(engine) && Stands(engine, s') && engine.running == old(engine.running)
    ensures Leads(s, steps, s', [Request.Read(lba)])
    ensures forall l :: View(s'.cache, l) == View(s.cache, l)
    ensures answer == Expected(s.cache, Request.Read(lba), WriteEnd(pwrites, buf.Length), ReadEnd(preads, buf.Length))
    ensures buf[..] == if answer.Bytes? then answer.bytes else old(buf[..])
  {
    var reply;
    ghost var e;
    reply, e := engine.Read(lba, buf, pwrites, preads);
    HandleKeepsView(s.cache, Request.Read(lba), e);
    AnswerIsExpected(s.cache, Request.Read(lba), e);
    StepLeads(s, Serve(Request.Read(lba), e));
    steps, s' := [Serve(Request.Read(lba), e)], Next(s, Serve(Request.Read(lba), e));
    answer := if reply.Refused? then Failed(reply.error) else Bytes(buf[..]);
  }

  method PerformWrite(engine: CacheEngine, lba: nat, data: seq<byte>, buf: array<byte>, pwrites: nat -> int,
                      ghost s: Sys)
    returns (answer: Answer, ghost steps: seq<Step>, ghost s': Sys)
    requires Ready(engine) && engine.Buffer(buf) && |data| == buf.Length && Stands(engine, s)
    modifies engine, engine.pool, engine.pool.bytes, engine.table, engine.device.bytes, engine.channel, buf
    ensures Ready(engine) && Stands(engine, s') && engine.running == old(engine.running)
    ensures Leads(s, steps, s', [Request.Write(lba, data)])
    ensures answer == Expected(s.cache, Request.Write(lba, data), WriteEnd(pwrites, buf.Length), Fetched)
    ensures forall l :: View(s'.cache, l) == if l == lba && answer.Done? then data else View(s.cache, l)
  {
    forall i | 0 <= i < buf.Length {
      buf[i] := data[i];
    }
    assert buf[..] == data;
    assert Stands(engine, s);
    var reply;
    ghost var e;
    reply, e := engine.Write(lba, buf, pwrites);
    HandleKeepsView(s.cache, Request.Write(lba, data), e);
    AnswerIsExpected(s.cache, Request.Write(lba, data), e);
    StepLeads(s, Serve(Request.Write(lba, data), e));
    steps, s' := [Serve(Request.Write(lba, data), e)], Next(s, Serve(Request.Write(lba, data), e));
    answer := if reply.Refused? then Failed(reply.error) else Done;
  }

  /** The state after a cycle over the dirty entries whose writes end as the kernel answers them. */
  ghost predicate Cycled(c: Cache, c': Cache, size: nat, pwrites: nat -> nat -> int) {
    exists batch, ios :: IsSnapshot(c, batch) && |ios| == |batch| && EndAs(pwrites, ios, size) &&
                         c' == Flush(c, batch, ios).0
  }

  method PerformTurn(engine: CacheEngine, pwrites: nat -> nat -> int, ghost s: Sys)
    returns (ghost steps: seq<Step>, ghost s': Sys)
    requires Ready(engine) && Stands(engine, s) && engine.running
    modifies engine.table, engine.device.bytes, engine.channel
    ensures Ready(engine) && Stands(engine, s')
    ensures Leads(s, steps, s', []) && Cycled(s.cache, s'.cache, engine.pool.blockSize, pwrites)
    ensures forall l :: View(s'.cache, l) == View(s.cache, l)
  {
    ghost var batch, ios;
    var exit, signal;
    exit, signal, batch, ios := engine.FlushTurn(pwrites);
    FlushCycleExact(s.cache, batch, ios);
    steps := TurnLeads(s, batch, ios);
    s' := Exec(s, steps);
  }

  /** The kernel completes every write. */
  ghost predicate AllWritten(pwrites: nat -> nat -> int, size: nat) {
    forall k: nat :: WriteEnd(pwrites(k), size).Written?
  }

  /** The engine's `stop`, at the end of a program.  With a flusher, the flag is stored in the channel as in
      the step machine, and the flusher is gone. */
  method PerformStop(engine: CacheEngine, pwrites: nat -> nat -> int, ghost s: Sys)
    returns (joined: bool, ghost steps: seq<Step>, ghost s': Sys)
    requires Ready(engine) && Stands(engine, s)
    modifies engine, engine.table, engine.device.bytes, engine.channel
    ensures Ready(engine) && !engine.running && joined == old(engine.running) && s'.cache == engine.State()
    ensures Leads(s, steps, s', [])
    ensures joined ==>
              && steps != [] && steps[0] == SetStop && s'.client.Joining? && s'.flusher.Exited?
              && s'.stop == engine.channel.stop && s'.slot == engine.channel.slot
              && Cycled(s.cache, s'.cache, engine.pool.blockSize, pwrites)
    ensures !joined ==> s' == s
    ensures forall l :: View(s'.cache, l) == View(s.cache, l)
    ensures joined && (NoWriteFails(steps) || AllWritten(pwrites, engine.pool.blockSize)) ==> Dirty(s'.cache) == {}
  {
    ghost var batch, ios;
    var signal;
    joined, signal, batch, ios := engine.Stop(pwrites);
    if joined {
      FlushCycleExact(s.cache, batch, ios);
      steps := ShutdownLeads(s, batch, ios);
      s' := Exec(s, steps);
      if NoWriteFails(steps) {
        ShutdownCleans(s, steps, s');
      }
      if AllWritten(pwrites, engine.pool.blockSize) {
        FlushCycleComplete(s.cache, batch, ios);
      }
    } else {
      steps, s' := [], s;
    }
  }

  // ---------------------------------------------------------------- whole programs

  /** Writes are whole blocks, and only a running flusher takes turns. */
  ghost predicate Fits(call: Call, blockSize: nat, running: bool) {
    match call
    case Ask(Read(_)) => true
    case Ask(Write(_, data)) => |data| == blockSize
    case Turn => running
  }

  /** What one call does between two states: an answer as expected, or a cycle. */
  ghost predicate CallDone(c: Cache, c': Cache, call: Call, answer: Answer, size: nat,
                           pwrites: nat -> nat -> int, preads: nat -> int)
  {
    match call
    case Ask(req) => answer == Expected(c, req, WriteEnd(pwrites(0), size), ReadEnd(preads, size))
    case Turn => answer == Done && Cycled(c, c', size, pwrites)
  }

  /** The call leads on by steps of its own and does what it should. */
  ghost predicate CallLeads(s: Sys, own: seq<Step>, s': Sys, call: Call, answer: Answer, size: nat,
                            pwrites: nat -> nat -> int, preads: nat -> int)
  {
    Leads(s, own, s', AskedIn(call)) && CallDone(s.cache, s'.cache, call, answer, size, pwrites, preads)
  }

  /** The program as a run: each call in turn leads on by steps of its own, and does what it should. */
  ghost predicate Runs(s: Sys, steps: seq<Step>, s': Sys, calls: seq<Call>, answers: seq<Answer>, size: nat,
                       pwrites: nat -> nat -> nat -> int, preads: nat -> nat -> int)
    decreases |calls|
  {
    |answers| == |calls| &&
    if calls == [] then steps == [] && s' == s
    else
      var n := |calls| - 1;
      exists s1, before, own ::
        && steps == before + own && Runs(s, before, s1, calls[..n], answers[..n], size, pwrites, preads)
        && CallLeads(s1, own, s', calls[n], answers[n], size, pwrites(n), preads(n))
  }

  lemma RunsLast(s: Sys, before: seq<Step>, s1: Sys, own: seq<Step>, s': Sys, calls: seq<Call>, answers: seq<Answer>,
                 n: nat, size: nat, pwrites: nat -> nat -> nat -> int, preads: nat -> nat -> int)
    requires |answers| == |calls| == n + 1
    requires Runs(s, before, s1, calls[..n], answers[..n], size, pwrites, preads)
    requires CallLeads(s1, own, s', calls[n], answers[n], size, pwrites(n), preads(n))
    ensures Runs(s, before + own, s', calls, answers, size, pwrites, preads)
  {
  }

  lemma RunsOn(s: Sys, before: seq<Step>, s1: Sys, own: seq<Step>, s': Sys, calls: seq<Call>, k: nat,
               answers: seq<Answer>, answer: Answer, size: nat,
               pwrites: nat -> nat -> nat -> int, preads: nat -> nat -> int)
    requires k < |calls| && |answers| == k && Runs(s, before, s1, calls[..k], answers, size, pwrites, preads)
    requires CallLeads(s1, own, s', calls[k], answer, size, pwrites(k), preads(k))
    ensures Runs(s, before + own, s', calls[..k + 1], answers + [answer], size, pwrites, preads)
  {
    var calls', answers' := calls[..k + 1], answers + [answer];
    assert calls'[..k] == calls[..k] && answers'[..k] == answers;
    assert calls'[k] == calls[k] && answers'[k] == answer;
    RunsLast(s, before, s1, own, s', calls', answers', k, size, pwrites, preads);
  }

  /** A program run call by call is one run of the step machine. */
  lemma {:induction false} RunsLeads(s: Sys, steps: seq<Step>, s': Sys, calls: seq<Call>, answers: seq<Answer>,
                                     size: nat, pwrites: nat -> nat -> nat -> int, preads: nat -> nat -> int)
    requires Runs(s, steps, s', calls, answers, size, pwrites, preads)
    ensures Leads(s, steps, s', AskedBy(calls))
    decreases |calls|
  {
    if calls == [] {
    } else {
      var n := |calls| - 1;
      var s1, before, own :|
        && steps == before + own && Runs(s, before, s1, calls[..n], answers[..n], size, pwrites, preads)
        && CallLeads(s1, own, s', calls[n], answers[n], size, pwrites(n), preads(n));
      RunsLeads(s, before, s1, calls[..n], answers[..n], size, pwrites, preads);
      LeadsOn(s, before, s1, AskedBy(calls[..n]), own, s', AskedIn(calls[n]));
    }
  }

  method Perform(engine: CacheEngine, call: Call, buf: array<byte>, pwrites: nat -> nat -> int, preads: nat -> int,
                 ghost s: Sys)
    returns (answer: Answer, ghost steps: seq<Step>, ghost s': Sys)
    requires Ready(engine) && engine.Buffer(buf) && Stands(engine, s) && Fits(call, buf.Length, engine.running)
    modifies engine, engine.pool, engine.pool.bytes, engine.table, engine.device.bytes, engine.channel, buf
    ensures Ready(engine) && Stands(engine, s') && engine.running == old(engine.running)
    ensures Leads(s, steps, s', AskedIn(call))
    ensures CallDone(s.cache, s'.cache, call, answer, buf.Length, pwrites, preads)
    ensures forall l :: View(s'.cache, l) == if Stores(call, answer, l) then call.req.data else View(s.cache, l)
  {
    match call
    case Ask(Read(lba)) =>
      answer, steps, s' := PerformRead(engine, lba, buf, pwrites(0), preads, s);
    case Ask(Write(lba, data)) =>
      answer, steps, s' := PerformWrite(engine, lba, data, buf, pwrites(0), s);
    case Turn =>
      steps, s' := PerformTurn(engine, pwrites, s);
      answer := Done;
  }

  /** Runs a client program, whatever the kernel answers to each transfer. */
  method RunProgram(engine: CacheEngine, calls: seq<Call>, buf: array<byte>,
                    pwrites: nat -> nat -> nat -> int, preads: nat -> nat -> int, ghost s: Sys)
    returns (answers: seq<Answer>, ghost steps: seq<Step>, ghost s': Sys)
    requires Ready(engine) && engine.Buffer(buf) && Stands(engine, s)
    requires forall k | 0 <= k < |calls| :: Fits(calls[k], buf.Length, engine.running)
    modifies engine, engine.pool, engine.pool.bytes, engine.table, engine.device.bytes, engine.channel, buf
    ensures Ready(engine) && Stands(engine, s') && engine.running == old(engine.running)
    ensures Runs(s, steps, s', calls, answers, buf.Length, pwrites, preads)
    ensures Faithful(s.cache, s'.cache, calls, answers)
    ensures Leads(s, steps, s', AskedBy(calls))
  {
    answers, steps, s' := [], [], s;
    for k := 0 to |calls|
      invariant Ready(engine) && Stands(engine, s') && engine.running == old(engine.running)
      invariant Faithful(s.cache, s'.cache, calls[..k], answers)
      invariant Runs(s, steps, s', calls[..k], answers, buf.Length, pwrites, preads)
    {
      ghost var s1 := s';
      var answer;
      ghost var more;
      answer, more, s' := Perform(engine, calls[k], buf, pwrites(k), preads(k), s1);
      FaithfulNext(s.cache, s1.cache, s'.cache, calls, k, answers, answer);
      RunsOn(s, steps, s1, more, s', calls, k, answers, answer, buf.Length, pwrites, preads);
      answers, steps := answers + [answer], steps + more;
    }
    assert calls[..|calls|] == calls;
    RunsLeads(s, steps, s', calls, answers, buf.Length, pwrites, preads);
  }

  /** A block that is not dirty is on the device. */
  lemma CleanIsOnDevice(c: Cache, l: nat)
    requires Coherent(c) && l !in Dirty(c)
    ensures At(c.device, l) == View(c, l)
  {
  }

  /** The device's blocks are its bytes, those of block `l` at `l * size`. */
  ghost predicate DeviceIs(c: Cache, bytes: seq<byte>, size: nat) {
    forall l: nat :: (l < |c.device| <==> l * size + size <= |bytes|) &&
                     (l < |c.device| ==> c.device[l] == bytes[l * size..l * size + size])
  }

  /** Each whole block of the bytes that is not dirty is the one last written. */
  ghost predicate HoldsClean(c: Cache, bytes: seq<byte>, size: nat, c0: Cache, calls: seq<Call>, answers: seq<Answer>)
    requires |answers| == |calls|
  {
    forall l: nat | l * size + size <= |bytes| && l !in Dirty(c) ::
      bytes[l * size..l * size + size] == LastWritten(c0, calls, answers, l)
  }

  lemma CleanHeld(c: Cache, bytes: seq<byte>, size: nat, c0: Cache, calls: seq<Call>, answers: seq<Answer>)
    requires Coherent(c) && DeviceIs(c, bytes, size) && Faithful(c0, c, calls, answers)
    ensures HoldsClean(c, bytes, size, c0, calls, answers)
  {
    forall l: nat | l * size + size <= |bytes| && l !in Dirty(c)
      ensures bytes[l * size..l * size + size] == LastWritten(c0, calls, answers, l)
    {
      CleanIsOnDevice(c, l);
      assert l < |c.device|;
      assert View(c, l) == LastWritten(c0, calls, answers, l);
    }
  }

  lemma DeviceBytes(device: BlockDevice, c: Cache)
    requires c.device == device.Blocks() && device.blockSize > 0
    ensures DeviceIs(c, device.bytes[..], device.blockSize)
  {
    forall l: nat
      ensures l < |c.device| <==> l * device.blockSize + device.blockSize <= device.bytes.Length
      ensures l < |c.device| ==>
                c.device[l] == device.bytes[l * device.blockSize..l * device.blockSize + device.blockSize]
    {
      device.CountExact(l);
      if l < device.Count() {
        device.BlockBytes(l);
      }
    }
  }

  /** A program on a new engine and its end, over bytes.  `run` is a run of the step machine from its start
      that serves the requests of the program; `last` is the run of the shutdown.  Each block begins as
      its bytes on the device.  All that is not dirty in the end is on the device as last written;
      nothing is dirty if no write of the shutdown fails, or if the engine is read-only. */
  method RunToStop(device: BlockDevice, pool: MemoryPool, readOnly: bool, watermark: real, calls: seq<Call>,
                   buf: array<byte>, pwrites: nat -> nat -> nat -> int, preads: nat -> nat -> int)
    returns (engine: CacheEngine, answers: seq<Answer>, ghost first: Sys, ghost run: seq<Step>, ghost last: seq<Step>)
    requires pool.Valid() && device.blockSize == pool.blockSize && device.bytes != pool.bytes
    requires device.bytes.Length < U64_LIMIT
    requires |pool.freeList| == pool.capacity && forall i | 0 <= i < pool.capacity :: pool.freeList[i] == i
    requires buf.Length == pool.blockSize && buf != device.bytes && buf != pool.bytes
    requires forall k | 0 <= k < |calls| :: Fits(calls[k], pool.blockSize, !readOnly)
    modifies pool, pool.bytes, device.bytes, buf
    ensures Started(first) && first.cache.readOnly == readOnly && first.cache.watermark == watermark
    ensures DeviceIs(first.cache, old(device.bytes[..]), pool.blockSize)
    ensures Feasible(first, run) && Runs(first, run, Exec(first, run), calls, answers, buf.Length, pwrites, preads)
    ensures Feasible(first, run + last) && WholeCycles(first, run + last)
    ensures ServedBy(run) == AskedBy(calls) && ServedBy(last) == [] && Exec(first, run + last).cache == engine.State()
    ensures Faithful(first.cache, engine.State(), calls, answers)
    ensures HoldsClean(engine.State(), device.bytes[..], pool.blockSize, first.cache, calls, answers)
    ensures !readOnly ==> Exec(first, run + last).flusher.Exited?
    ensures readOnly || NoWriteFails(last) || AllWritten(pwrites(|calls|), pool.blockSize) ==>
              Dirty(engine.State()) == {}
  {
    engine := new CacheEngine(device, pool, readOnly, watermark);
    engine.Start();
    first := Sys(engine.State(), None, false, Serving, Waiting);
    DeviceBytes(device, first.cache);
    ghost var s1, s2;
    answers, run, s1 := RunProgram(engine, calls, buf, pwrites, preads, first);
    var joined;
    joined, last, s2 := PerformStop(engine, pwrites(|calls|), s1);
    LeadsOn(first, run, s1, AskedBy(calls), last, s2, []);
    DeviceBytes(device, engine.State());
    CleanHeld(engine.State(), device.bytes[..], pool.blockSize, first.cache, calls, answers);
    if readOnly {
      StartedUntouched(first);
      ReadOnlySafety(first, run + last, first.cache.device);
    }
  }
}
