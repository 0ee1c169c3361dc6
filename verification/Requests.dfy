/**
 A read or write request: the alignment check, the 8 MiB chunks it is cut into, and what all chunks
 together move between user memory and the endpoint.
 */
module Requests {
  import opened Words
  import opened Arith
  import opened Descriptors
  import opened Hardware
  import opened Scatter
  import opened Transfers
  import opened UserTransfers
  import opened Control
  import opened QueueModel
  import opened Engines
  import Pages

  const TRANSFER_MAX_BYTES := 0x80_0000

  // The copy a request asks for

  /** The endpoint address of byte k of a request at `pos`: a fixed address starts anew at the
      position of every chunk. */
  function EpOfByte(pos: u64, k: nat, nonIncrAddr: bool): u64 {
    if nonIncrAddr then Wrap64(pos + TRANSFER_MAX_BYTES * (k / TRANSFER_MAX_BYTES))
    else Wrap64(pos + k)
  }

  /** The first n byte moves of a request. */
  function RequestCopy(
    bus: nat -> u64, start: nat, pos: u64, n: nat, dirToDev: bool, nonIncrAddr: bool)
    : (s: seq<ByteMove>)
    ensures |s| == n
  {
    seq(n, k requires 0 <= k =>
      Orient(bus(start + k), EpOfByte(pos, k, nonIncrAddr), dirToDev))
  }

  lemma RequestLayoutIff(
    bus: nat -> u64, start: nat, pos: u64, n: nat, dirToDev: bool, nonIncrAddr: bool)
    ensures RequestCopy(bus, start, pos, n, dirToDev, nonIncrAddr)
            == PlainCopy(HostOf(bus, start, n), pos, dirToDev, nonIncrAddr)
            <==> (nonIncrAddr ==> n <= TRANSFER_MAX_BYTES)
  {
    var s, t := RequestCopy(bus, start, pos, n, dirToDev, nonIncrAddr),
                PlainCopy(HostOf(bus, start, n), pos, dirToDev, nonIncrAddr);
    if nonIncrAddr && n > TRANSFER_MAX_BYTES {
      var k := TRANSFER_MAX_BYTES;
      assert EpOfByte(pos, k, nonIncrAddr) == Wrap64(pos + TRANSFER_MAX_BYTES) != pos;
      assert s[k] != t[k];
    } else {
      forall k | 0 <= k < n ensures s[k] == t[k] {
      }
    }
  }

  /** The descriptors executed for the first n bytes of a request: laid out chunk by chunk, and of a
      byte each only if the bytes are copied byte by byte. */
  ghost predicate ExecutedFor(
    executed: seq<Desc>, bus: nat -> u64, start: nat, pos: u64, n: nat, c: Config)
  {
    && Meaning(executed, c.dirToDev, c.nonIncrAddr)
       == RequestCopy(bus, start, pos, n, c.dirToDev, c.nonIncrAddr)
    && (AtMostOneByteEach(executed) <==> ByteByByte(bus, start, n))
  }

  /** What the descriptors are laid out for: byte k of the request goes to or comes from the
      endpoint byte k behind the position, or the position at which its chunk of 8 MiB begins. */
  lemma RequestMovesByte(
    executed: seq<Desc>, bus: nat -> u64, start: nat, pos: u64, n: nat, c: Config, k: nat)
    requires ExecutedFor(executed, bus, start, pos, n, c) && k < n
    ensures var moves, behind := Meaning(executed, c.dirToDev, c.nonIncrAddr),
                                 if c.nonIncrAddr then 0x80_0000 * (k / 0x80_0000) else k;
            var dev := (pos + behind) % 0x1_0000_0000_0000_0000;
            && |moves| == n
            && moves[k] == if c.dirToDev then ByteMove(bus(start + k), dev)
                           else ByteMove(dev, bus(start + k))
  {
    var ep := EpOfByte(pos, k, c.nonIncrAddr);
    Wrap64IsMod(pos + k);
    Wrap64IsMod(pos + 0x80_0000 * (k / 0x80_0000));
    assert RequestCopy(bus, start, pos, n, c.dirToDev, c.nonIncrAddr)[k]
           == Orient(bus(start + k), ep, c.dirToDev);
  }

  /** Is a request of n bytes a plain copy? In incremental mode always. With a fixed address it must
      fit one chunk, because the address moves on by 8 MiB with every chunk; and in poll mode, where
      the hardware is not told to leave the address alone, it must be copied byte by byte. */
  predicate PlainRequest(bus: nat -> u64, start: nat, n: nat, c: Config) {
    c.nonIncrAddr ==> n <= TRANSFER_MAX_BYTES && (c.pollMode ==> ByteByByte(bus, start, n))
  }

  /** What the hardware does with a request, in the mode it is started in, is one plain copy exactly
      in these cases. */
  lemma RequestIsPlainCopyIff(
    executed: seq<Desc>, bus: nat -> u64, start: nat, pos: u64, n: nat, c: Config)
    requires ExecutedFor(executed, bus, start, pos, n, c)
    ensures Meaning(executed, c.dirToDev, FixedMode(c))
            == PlainCopy(HostOf(bus, start, n), pos, c.dirToDev, c.nonIncrAddr)
            <==> PlainRequest(bus, start, n, c)
  {
    var host := HostOf(bus, start, n);
    RequestLayoutIff(bus, start, pos, n, c.dirToDev, c.nonIncrAddr);
    if c.nonIncrAddr && c.pollMode {
      if n <= TRANSFER_MAX_BYTES {
        IncrementingEngineIff(executed, host, pos, c.dirToDev);
      } else if Meaning(executed, c.dirToDev, false) == PlainCopy(host, pos, c.dirToDev, true) {
        StaysOnlyIfTiny(executed, host, pos, c.dirToDev);
      }
    }
  }

  /** One page for a fixed address, in poll mode: its descriptor is laid out for the fixed address,
      and the hardware moves the page to or from consecutive ones. */
  lemma PolledPageMoves(d: Desc, c: Config)
    requires c.pollMode && c.nonIncrAddr && d.bytes == PAGE_SIZE
    ensures var host := Span(d.HostAddr(c.dirToDev), PAGE_SIZE);
            && Meaning([d], c.dirToDev, c.nonIncrAddr)
               == PlainCopy(host, d.EpAddr(c.dirToDev), c.dirToDev, true)
            && Meaning([d], c.dirToDev, FixedMode(c))
               == PlainCopy(host, d.EpAddr(c.dirToDev), c.dirToDev, false)
               != PlainCopy(host, d.EpAddr(c.dirToDev), c.dirToDev, true)
  {
    var host := Span(d.HostAddr(c.dirToDev), PAGE_SIZE);
    OneMeans(d, c.dirToDev, true);
    OneMeans(d, c.dirToDev, false);
    IncrementingEngineIff([d], host, d.EpAddr(c.dirToDev), c.dirToDev);
    assert !AtMostOneByteEach([d]) by {
      assert [d][0].bytes > 1;
    }
  }

  lemma OneMeans(d: Desc, dirToDev: bool, fixed: bool)
    ensures Meaning([d], dirToDev, fixed)
            == PlainCopy(Span(d.HostAddr(dirToDev), d.bytes), d.EpAddr(dirToDev), dirToDev, fixed)
  {
    MovesAreCopy(d, dirToDev, fixed);
    MeaningSnoc([], d, dirToDev, fixed);
    assert [] + [d] == [d];
  }

  /** Chunk c continues the request. */
  lemma ChunkContinues(
    bus: nat -> u64, start: nat, pos: u64, c: nat, n: nat, dirToDev: bool, nonIncrAddr: bool)
    requires n <= TRANSFER_MAX_BYTES
    ensures var at := TRANSFER_MAX_BYTES * c;
            RequestCopy(bus, start, pos, at, dirToDev, nonIncrAddr)
            + PlainCopy(HostOf(bus, start + at, n), Wrap64(pos + at), dirToDev, nonIncrAddr)
            == RequestCopy(bus, start, pos, at + n, dirToDev, nonIncrAddr)
  {
    var at := TRANSFER_MAX_BYTES * c;
    var s, t := RequestCopy(bus, start, pos, at, dirToDev, nonIncrAddr)
                + PlainCopy(HostOf(bus, start + at, n), Wrap64(pos + at), dirToDev, nonIncrAddr),
                RequestCopy(bus, start, pos, at + n, dirToDev, nonIncrAddr);
    forall k | 0 <= k < at + n ensures s[k] == t[k] {
      if k >= at {
        ChunkEp(pos, c, k - at, nonIncrAddr);
        assert start + at + (k - at) == start + k;
      }
    }
  }

  lemma ChunkEp(pos: u64, c: nat, j: nat, nonIncrAddr: bool)
    requires j < TRANSFER_MAX_BYTES
    ensures EpAt(Wrap64(pos + TRANSFER_MAX_BYTES * c), j, nonIncrAddr)
            == EpOfByte(pos, TRANSFER_MAX_BYTES * c + j, nonIncrAddr)
  {
    Wrap64Add(pos + TRANSFER_MAX_BYTES * c, j);
    assert (TRANSFER_MAX_BYTES * c + j) / TRANSFER_MAX_BYTES == c;
  }

  // Chunks

  /** What the kernel and the hardware do with one chunk: transfer_create finds no memory; or the
      pages of the chunk are pinned and mapped, its descriptors lie at descBus, transfer_monitor
      returns rc with the transfer in the given state, and, if it failed, the engine had executed
      `done` descriptors, or all but one. */
  datatype ChunkOutcome =
    | NotCreated
    | Monitored(
        pages: seq<nat>,
        dma: nat -> nat,
        mapSg: seq<Pages.PageEntry> -> seq<SgEntry>,
        descBus: u64,
        rc: int,
        state: TransferState,
        done: nat)

  /** The pages of a created chunk can all be pinned, or the source stops in BUG_ON(rc < 0); and an
      uninterrupted wait ends only when the transfer has left the engine. */
  ghost predicate ChunkReady(o: ChunkOutcome, um: UserMemory, start: nat, n: nat) {
    o.Monitored? ==>
      && start + n < 0x1_0000_0000_0000_0000
      && PinnedFor(o.pages, um, start, n) && MapsRange(um, o.dma, start, n)
      && KeepsBytes(o.mapSg, o.dma)
      && o.descBus + DESC_SIZE * |o.pages| <= 0x1_0000_0000_0000_0000
      && (o.rc == 0 ==> o.state != Submitted)
  }

  /** Bytes of chunk c of a request. */
  function ChunkLen(count: int, c: nat): int {
    if count - TRANSFER_MAX_BYTES * c > TRANSFER_MAX_BYTES then TRANSFER_MAX_BYTES
    else count - TRANSFER_MAX_BYTES * c
  }

  ghost predicate RequestReady(
    env: nat -> ChunkOutcome, um: UserMemory, start: nat, count: int)
  {
    forall c: nat :: ChunkLen(count, c) > 0 ==>
      ChunkReady(env(c), um, start + TRANSFER_MAX_BYTES * c, ChunkLen(count, c))
  }

  /** The transfer of the chunk was completed. */
  predicate Succeeds(o: ChunkOutcome) {
    o.Monitored? && o.state == Completed
  }

  /** It may still be on the engine. */
  predicate InFlight(o: ChunkOutcome) {
    o.Monitored? && o.state == Submitted
  }

  /** The error a chunk ends the request with, or 0. */
  function ChunkError(o: ChunkOutcome): (e: int)
    ensures e == 0 <==> o.Monitored? && o.state == Completed
    ensures e == -ERESTARTSYS <==> o.Monitored? && o.state == Submitted
    ensures e in {0, -EIO, -ERESTARTSYS}
  {
    if Succeeds(o) then 0 else if InFlight(o) then -ERESTARTSYS else -EIO
  }

  /** The page references a chunk leaves behind: those of a transfer that is still on the engine. */
  function Held(o: ChunkOutcome): multiset<nat> {
    if InFlight(o) then multiset(o.pages) else multiset{}
  }

  /** The pages a chunk marks dirty: those of a transfer from the device that has left the engine.
      */
  function Dirtied(o: ChunkOutcome, dirToDev: bool): set<nat> {
    if o.Monitored? && o.state != Submitted && !dirToDev then set p | p in o.pages else {}
  }

  /** The transfer is queued and waited for. What the engine did with one that left is what
      AllRunsSafe proves of every run of the queue. */
  method QueueAndWait(t: XdmaTransfer, o: ChunkOutcome, ghost c: Config)
    returns (rc: int, ghost run: HwRun)
    requires o.Monitored? && IsChain(t.Memory(), t.descNum)
    modifies t`state
    ensures t.state == o.state && rc == o.rc
    ensures t.state in {Completed, Failed} ==>
              RunOf(run, Exit(old(JobOf(t)), t.state), FixedMode(c))
  {
    t.state := o.state;
    rc := o.rc;
    ghost var most := if o.state == Completed then t.descNum else t.descNum - 1;
    ghost var done := if o.state != Completed && o.done < most then o.done else most;
    run := HwRun(FixedMode(c), t.desc[..][..done]);
  }

  /** The run of a completed transfer is its whole table. */
  lemma CompletedChunk(
    t: XdmaTransfer, run: HwRun, exit: Exit, um: UserMemory, start: nat, n: nat, pos: u64,
    c: Config)
    requires CopiesRange(t, um, start, n, pos, c)
    requires exit.job == JobOf(t) && RunOf(run, exit, FixedMode(c)) && exit.state == Completed
    ensures ChunkExecuted(run.executed, um.bus, start, pos, n, c)
  {
    assert run.executed == t.desc[..t.descNum];
  }

  /** The same for the transfer of a chunk; `executed` is the run of a completed one. */
  method ExecuteChunk(
    t: XdmaTransfer, o: ChunkOutcome, ghost um: UserMemory, ghost start: nat, ghost n: nat,
    ghost pos: u64, ghost c: Config)
    returns (rc: int, ghost executed: seq<Desc>)
    requires o.Monitored? && CopiesRange(t, um, start, n, pos, c)
    modifies t`state
    ensures t.state == o.state && rc == o.rc
    ensures t.state == Completed ==> ChunkExecuted(executed, um.bus, start, pos, n, c)
  {
    ghost var job := JobOf(t);
    ghost var run;
    rc, run := QueueAndWait(t, o, c);
    executed := run.executed;
    if t.state == Completed {
      CompletedChunk(t, run, Exit(job, Completed), um, start, n, pos, c);
    }
  }

  /** transfer_destroy of a chunk, whose pages were pinned on top of the given references. */
  method ReleaseChunk(
    k: Pages.PageTable, sgm: Pages.SgMapper, dirToDev: bool, ghost pages: seq<nat>,
    ghost refs: multiset<nat>)
    requires sgm.Valid() && sgm.pages[..sgm.mappedPages] == pages
    requires k.refs == refs + multiset(pages)
    modifies k, sgm`mappedPages
    ensures k.refs == refs
    ensures k.dirty == old(k.dirty) + if dirToDev then {} else set p | p in pages
  {
    DestroyUserTransfer(k, sgm, dirToDev);
  }

  /** One turn of the loop of transfer_data: create, queue, wait, and destroy what has left the
      engine; and the descriptors the engine executed for a completed transfer. */
  method RunChunk(
    k: Pages.PageTable, o: ChunkOutcome, ghost um: UserMemory, start: nat, n: nat, pos: u64,
    c: Config)
    returns (res: int, ghost executed: seq<Desc>)
    requires 0 < n <= TRANSFER_MAX_BYTES && ChunkReady(o, um, start, n)
    modifies k
    ensures res == 0 <==> o.Monitored? && o.state == Completed
    ensures res == -ERESTARTSYS <==> o.Monitored? && o.state == Submitted
    ensures res == ChunkError(o)
    ensures res == 0 ==> ChunkExecuted(executed, um.bus, start, pos, n, c)
    ensures k.refs == old(k.refs) + Held(o)
    ensures k.dirty == old(k.dirty) + Dirtied(o, c.dirToDev)
  {
    res, executed := 0, [];
    if o.NotCreated? {
      return -EIO, [];
    }
    ghost var refs := k.refs;
    var sgm, t := CreateUserTransfer(k, o.pages, o.mapSg, o.descBus, start, n, pos, c, um, o.dma);
    var rc;
    rc, executed := ExecuteChunk(t, o, um, start, n, pos, c);
    if t.state != Submitted {
      if t.state != Completed {
        res := -EIO;
      }
      ReleaseChunk(k, sgm, c.dirToDev, o.pages, refs);
    } else if rc != 0 {
      res := -ERESTARTSYS;
    }
  }

  /** What a wait that finds the transfer completed relies on: over every run of the engine queue,
      the hardware made the copy of a transfer for user memory that was completed, if the engine's
      mode allows it at all. */
  lemma CompletedTransferIsCopied(
    s: EngineState, es: seq<Event>, i: nat, entries: seq<Pages.PageEntry>, pages: seq<nat>,
    sgl: seq<SgEntry>, um: UserMemory, dma: nat -> nat, start: u64, n: nat, pos: u64)
    requires Initial(s) && ProperRun(s, es)
    requires Run(s, es).Ok? && i < |Run(s, es).engine.left|
    requires var exit := Run(s, es).engine.left[i];
             && exit.state == Completed && exit.job.descNum <= |exit.job.memory.table|
             && UserTable(exit.job.memory.table[..exit.job.descNum], entries, pages, sgl, um, dma,
                          start, n, pos, s.config)
    ensures var runs, c := Run(s, es).engine.runs, s.config;
            && i < |runs|
            && (Meaning(runs[i].executed, c.dirToDev, runs[i].fixed)
                == PlainCopy(HostOf(um.bus, start, n), pos, c.dirToDev, c.nonIncrAddr)
                <==> (c.nonIncrAddr && c.pollMode ==> ByteByByte(um.bus, start, n)))
  {
    var r := CompletedRunOf(s, es, i);
    var job := r.left[i].job;
    UserRangeIsCopied(job.memory, job.descNum, entries, pages, sgl, um, dma, start, n, pos,
                      s.config);
  }

  lemma CompletedRunOf(s: EngineState, es: seq<Event>, i: nat) returns (r: EngineState)
    requires Initial(s) && ProperRun(s, es)
    requires Run(s, es).Ok? && i < |Run(s, es).engine.left|
    requires Run(s, es).engine.left[i].state == Completed
    ensures r == Run(s, es).engine && i < |r.runs|
    ensures var job := r.left[i].job;
            && IsChain(job.memory, job.descNum)
            && r.runs[i] == HwRun(FixedMode(s.config), job.memory.table[..job.descNum])
  {
    r := Run(s, es).engine;
    EachRun(s, es, i);
  }

  /** Bytes of the first c chunks of a request. */
  function Covered(count: int, c: nat): nat {
    if TRANSFER_MAX_BYTES * c < count then TRANSFER_MAX_BYTES * c
    else if count < 0 then 0
    else count
  }

  /** The first `chunks` chunks are done: `done` bytes, which are still wanted to `remaining`. */
  ghost predicate After(count: int, chunks: nat, done: nat, remaining: int) {
    && done == Covered(count, chunks)
    && remaining == (if count < 0 then count else count - done)
    && (remaining > 0 ==> done == TRANSFER_MAX_BYTES * chunks)
  }

  lemma NextAfter(count: int, chunks: nat, done: nat, remaining: int)
    requires After(count, chunks, done, remaining) && remaining > 0
    ensures var n := ChunkLen(count, chunks);
            && 0 < n <= remaining && done == TRANSFER_MAX_BYTES * chunks
            && n == (if remaining > TRANSFER_MAX_BYTES then TRANSFER_MAX_BYTES else remaining)
            && After(count, chunks + 1, done + n, remaining - n)
  {
  }

  lemma NothingExecuted(bus: nat -> u64, start: nat, pos: u64, c: Config)
    ensures ExecutedFor([], bus, start, pos, 0, c)
  {
  }

  /** One chunk of n bytes from `start`. */
  ghost predicate ChunkExecuted(
    executed: seq<Desc>, bus: nat -> u64, start: nat, pos: u64, n: nat, c: Config)
  {
    && Meaning(executed, c.dirToDev, c.nonIncrAddr)
       == PlainCopy(HostOf(bus, start, n), pos, c.dirToDev, c.nonIncrAddr)
    && (AtMostOneByteEach(executed) <==> ByteByByte(bus, start, n))
  }

  /** One more chunk of n bytes behind the first `chunks` chunks. */
  lemma ExtendRequest(
    executed: seq<Desc>, more: seq<Desc>, bus: nat -> u64, start: nat, pos: u64, chunks: nat,
    at: nat, n: nat, c: Config)
    requires 0 < n <= TRANSFER_MAX_BYTES && at == TRANSFER_MAX_BYTES * chunks
    requires ExecutedFor(executed, bus, start, pos, at, c)
    requires ChunkExecuted(more, bus, start + at, Wrap64(pos + at), n, c)
    ensures ExecutedFor(executed + more, bus, start, pos, at + n, c)
  {
    MeaningConcat(executed, more, c.dirToDev, c.nonIncrAddr);
    ChunkContinues(bus, start, pos, chunks, n, c.dirToDev, c.nonIncrAddr);
    TinyConcat(executed, more);
    assert ByteByByte(bus, start, at + n)
           <==> ByteByByte(bus, start, at) && ByteByByte(bus, start + at, n) by {
      assert at == 0 || at >= TRANSFER_MAX_BYTES;
    }
  }

  lemma TinyConcat(a: seq<Desc>, b: seq<Desc>)
    ensures AtMostOneByteEach(a + b) <==> AtMostOneByteEach(a) && AtMostOneByteEach(b)
  {
    if AtMostOneByteEach(a + b) {
      assert forall j :: 0 <= j < |a| ==> a[j] == (a + b)[j];
      assert forall j :: 0 <= j < |b| ==> b[j] == (a + b)[|a| + j];
    }
  }

  /** Where a request stands behind its first `chunks` chunks, which all succeeded. */
  ghost predicate Progress(
    env: nat -> ChunkOutcome, um: UserMemory, start: nat, count: int, pos: u64, c: Config,
    chunks: nat, done: nat, remaining: int, newPos: u64, executed: seq<Desc>)
  {
    && After(count, chunks, done, remaining)
    && newPos == Wrap64(pos + done)
    && ExecutedFor(executed, um.bus, start, pos, done, c)
    && forall i :: 0 <= i < chunks ==> ChunkError(env(i)) == 0
  }

  lemma ProgressStep(
    env: nat -> ChunkOutcome, um: UserMemory, start: nat, count: int, pos: u64, c: Config,
    chunks: nat, done: nat, remaining: int, newPos: u64, executed: seq<Desc>, more: seq<Desc>,
    n: nat)
    requires Progress(env, um, start, count, pos, c, chunks, done, remaining, newPos, executed)
    requires remaining > 0 && n == ChunkLen(count, chunks) && ChunkError(env(chunks)) == 0
    requires ChunkExecuted(more, um.bus, start + done, newPos, n, c)
    ensures n <= remaining
    ensures Progress(env, um, start, count, pos, c, chunks + 1, done + n, remaining - n,
                     Wrap64(newPos + n), executed + more)
  {
    NextAfter(count, chunks, done, remaining);
    Wrap64Add(pos + done, n);
    ExtendRequest(executed, more, um.bus, start, pos, chunks, done, n, c);
  }

  /** The pages are those the first n chunks mark dirty. */
  ghost predicate AreDirtied(
    env: nat -> ChunkOutcome, n: nat, dirToDev: bool, pages: set<nat>)
  {
    forall p :: p in pages <==> exists i :: 0 <= i < n && p in Dirtied(env(i), dirToDev)
  }

  lemma DirtiedNext(env: nat -> ChunkOutcome, n: nat, dirToDev: bool, pages: set<nat>)
    requires AreDirtied(env, n, dirToDev, pages)
    ensures AreDirtied(env, n + 1, dirToDev, pages + Dirtied(env(n), dirToDev))
  {
  }

  /** A request that was carried out */
  ghost predicate Carried(
    env: nat -> ChunkOutcome, um: UserMemory, start: nat, count: int, pos: u64, c: Config,
    res: int, chunks: nat, newPos: u64, executed: seq<Desc>)
  {
    && res == (if count < 0 then 0 else count) <= 0x80_0000 * chunks
    && newPos == Wrap64(pos + res)
    && ExecutedFor(executed, um.bus, start, pos, res, c)
    && forall i :: 0 <= i < chunks ==> env(i).Monitored? && env(i).state == Completed
  }

  /** A request that stopped at the first chunk whose transfer was not completed */
  ghost predicate Stopped(
    env: nat -> ChunkOutcome, um: UserMemory, start: nat, count: int, pos: u64, c: Config,
    res: int, chunks: nat, newPos: u64, executed: seq<Desc>)
  {
    && 0x80_0000 * chunks < count
    && newPos == Wrap64(pos + 0x80_0000 * chunks)
    && ExecutedFor(executed, um.bus, start, pos, 0x80_0000 * chunks, c)
    && (forall i :: 0 <= i < chunks ==> env(i).Monitored? && env(i).state == Completed)
    && !(env(chunks).Monitored? && env(chunks).state == Completed)
    && res == if InFlight(env(chunks)) then -ERESTARTSYS else -EIO
  }

  lemma Ends(
    env: nat -> ChunkOutcome, um: UserMemory, start: nat, count: int, pos: u64, c: Config,
    chunks: nat, done: nat, remaining: int, newPos: u64, executed: seq<Desc>)
    requires Progress(env, um, start, count, pos, c, chunks, done, remaining, newPos, executed)
    ensures remaining <= 0 ==>
              Carried(env, um, start, count, pos, c, done, chunks, newPos, executed)
    ensures remaining > 0 && ChunkError(env(chunks)) != 0 ==>
              Stopped(env, um, start, count, pos, c, ChunkError(env(chunks)), chunks, newPos,
                      executed)
  {
  }

  /** The next chunk: when it succeeds, the request stands one chunk further on; otherwise it ends
      here. */
  method NextChunk(
    k: Pages.PageTable, env: nat -> ChunkOutcome, ghost um: UserMemory, start: nat,
    ghost count: int, chunks: nat, done: nat, remaining: nat, ghost pos: u64, newPos: u64,
    c: Config, ghost executed: seq<Desc>)
    returns (res: int, done': nat, remaining': nat, newPos': u64, ghost executed': seq<Desc>)
    requires Progress(env, um, start, count, pos, c, chunks, done, remaining, newPos, executed)
    requires remaining > 0 && RequestReady(env, um, start, count)
    modifies k
    ensures k.refs == old(k.refs) + if res < 0 then Held(env(chunks)) else multiset{}
    ensures k.dirty == old(k.dirty) + Dirtied(env(chunks), c.dirToDev)
    ensures res <= 0 && (res == 0 ==> remaining' < remaining)
    ensures res < 0 ==>
              Stopped(env, um, start, count, pos, c, res, chunks, newPos', executed')
    ensures res == 0 ==>
              Progress(env, um, start, count, pos, c, chunks + 1, done', remaining', newPos',
                       executed')
  {
    var transferLen := if remaining > TRANSFER_MAX_BYTES then TRANSFER_MAX_BYTES else remaining;
    NextAfter(count, chunks, done, remaining);
    assert ChunkReady(env(chunks), um, start + done, transferLen);
    ghost var more;
    res, more := RunChunk(k, env(chunks), um, start + done, transferLen, newPos, c);
    if res != 0 {
      Ends(env, um, start, count, pos, c, chunks, done, remaining, newPos, executed);
      return res, done, remaining, newPos, executed;
    }
    HeldNone(env(chunks));
    ProgressStep(env, um, start, count, pos, c, chunks, done, remaining, newPos, executed, more,
                 transferLen);
    executed' := executed + more;
    remaining' := remaining - transferLen;
    done' := done + transferLen;
    newPos' := Wrap64(newPos + transferLen);
  }

  /** One turn of the loop of transfer_data, with an account of the pages marked dirty. */
  method NextTurn(
    k: Pages.PageTable, env: nat -> ChunkOutcome, ghost um: UserMemory, start: nat,
    ghost count: int, chunks: nat, done: nat, remaining: nat, ghost pos: u64, newPos: u64,
    c: Config, ghost executed: seq<Desc>, ghost first: set<nat>, ghost dirtied: set<nat>)
    returns (res: int, done': nat, remaining': nat, newPos': u64,
             ghost executed': seq<Desc>, ghost dirtied': set<nat>)
    requires Progress(env, um, start, count, pos, c, chunks, done, remaining, newPos, executed)
    requires remaining > 0 && RequestReady(env, um, start, count)
    requires k.dirty == first + dirtied && AreDirtied(env, chunks, c.dirToDev, dirtied)
    modifies k
    ensures k.refs == old(k.refs) + if res < 0 then Held(env(chunks)) else multiset{}
    ensures k.dirty == first + dirtied' && AreDirtied(env, chunks + 1, c.dirToDev, dirtied')
    ensures res <= 0 && (res == 0 ==> remaining' < remaining)
    ensures res < 0 ==>
              Stopped(env, um, start, count, pos, c, res, chunks, newPos', executed')
    ensures res == 0 ==>
              Progress(env, um, start, count, pos, c, chunks + 1, done', remaining', newPos',
                       executed')
  {
    DirtiedNext(env, chunks, c.dirToDev, dirtied);
    dirtied' := dirtied + Dirtied(env(chunks), c.dirToDev);
    res, done', remaining', newPos', executed' :=
      NextChunk(k, env, um, start, count, chunks, done, remaining, pos, newPos, c, executed);
  }

  /** transfer_data. The position is the bit pattern of the file offset. Success needs all of the
      request; otherwise it stops at the first chunk whose transfer is not completed. The position
      and the executed descriptors account for exactly the chunks before it; only an interrupted
      chunk, whose transfer may still be in flight, keeps its pages; and the pages of all others are
      dirty if the device wrote them. */
  method TransferData(
    k: Pages.PageTable, env: nat -> ChunkOutcome, ghost um: UserMemory, start: nat, count: int,
    pos: u64, c: Config)
    returns (
      res: int, newPos: u64, chunks: nat, ghost executed: seq<Desc>, ghost dirtied: set<nat>)
    requires RequestReady(env, um, start, count)
    modifies k
    ensures if res >= 0
            then Carried(env, um, start, count, pos, c, res, chunks, newPos, executed)
            else Stopped(env, um, start, count, pos, c, res, chunks, newPos, executed)
    ensures k.refs == old(k.refs) + if res < 0 then Held(env(chunks)) else multiset{}
    ensures k.dirty == old(k.dirty) + dirtied
    ensures AreDirtied(env, if res < 0 then chunks + 1 else chunks, c.dirToDev, dirtied)
  {
    newPos, chunks, executed, dirtied := pos, 0, [], {};
    NothingExecuted(um.bus, start, pos, c);
    var remaining, done := count, 0;
    while remaining > 0
      invariant done >= 0
      invariant Progress(env, um, start, count, pos, c, chunks, done, remaining, newPos, executed)
      invariant k.refs == old(k.refs)
      invariant k.dirty == old(k.dirty) + dirtied
      invariant AreDirtied(env, chunks, c.dirToDev, dirtied)
      decreases remaining
    {
      res, done, remaining, newPos, executed, dirtied :=
        NextTurn(k, env, um, start, count, chunks, done, remaining, pos, newPos, c, executed,
                 old(k.dirty), dirtied);
      if res != 0 {
        return;
      }
      chunks := chunks + 1;
    }
    Ends(env, um, start, count, pos, c, chunks, done, remaining, newPos, executed);
    res := done;
  }

  lemma HeldNone(o: ChunkOutcome)
    requires ChunkError(o) == 0
    ensures Held(o) == multiset{}
  {
  }

  // Alignment

  datatype AlignMode =
    AlignMode(streaming: bool, nonIncrAddr: bool, addrAlign: nat, granularity: nat)

  /** check_transfer_align */
  function CheckTransferAlign(m: AlignMode, buf: u64, count: nat, pos: u64, sync: bool): int
    requires m.addrAlign >= 1 && m.granularity >= 1
  {
    var bufLsb := BitAnd(buf, m.addrAlign - 1);
    var posLsb := BitAnd(pos, m.addrAlign - 1);
    if m.streaming || m.nonIncrAddr then
      var lenLsb := BitAnd(count, m.granularity - 1);
      if bufLsb != 0 then -EINVAL
      else if !m.streaming && posLsb != 0 && sync then -EINVAL
      else if lenLsb != 0 then -EINVAL
      else 0
    else
      if bufLsb != posLsb then -EINVAL else 0
  }

  /** What the check accepts, in terms of residues. */
  lemma AcceptsIff(m: AlignMode, buf: u64, count: nat, pos: u64, sync: bool)
    requires IsPowerOf2(m.addrAlign) && IsPowerOf2(m.granularity)
    ensures CheckTransferAlign(m, buf, count, pos, sync) == 0 <==>
              if m.streaming || m.nonIncrAddr then
                && buf % m.addrAlign == 0 && count % m.granularity == 0
                && (!m.streaming && sync ==> pos % m.addrAlign == 0)
              else
                buf % m.addrAlign == pos % m.addrAlign
    ensures CheckTransferAlign(m, buf, count, pos, sync) in {0, -EINVAL}
  {
    MaskIsMod(buf, m.addrAlign);
    MaskIsMod(pos, m.addrAlign);
    MaskIsMod(count, m.granularity);
  }

  /** The addresses at which descriptor j of a chunk starts are those of one byte of the request. */
  lemma StartOfDescriptor(
    table: seq<Desc>, bus: nat -> u64, buf: nat, pos: u64, at: nat, n: nat, j: nat, dirToDev: bool)
    returns (i: nat)
    requires Meaning(table, dirToDev, false)
             == PlainCopy(HostOf(bus, buf + at, n), Wrap64(pos + at), dirToDev, false)
    requires j < |table| && table[j].bytes > 0
    ensures i < n && table[j].HostAddr(dirToDev) == bus(buf + at + i)
    ensures table[j].EpAddr(dirToDev) == Wrap64(pos + at + i)
  {
    i := MoveOf(table, j, 0, dirToDev, false);
    MovesAreCopy(table[j], dirToDev, false);
    Wrap64Add(pos + at, i);
  }

  lemma WrapKeepsResidue(a: nat, n: nat)
    requires n > 0 && PAGE_SIZE % n == 0
    ensures Wrap64(a) % n == a % n
  {
    Wrap64IsMod(a);
    ModOfMod(a, 0x1_0000_0000_0000_0000, PAGE_SIZE);
    ModOfMod(a, PAGE_SIZE, n);
    ModOfMod(Wrap64(a), PAGE_SIZE, n);
  }

  lemma IncrementalCheck(m: AlignMode, buf: u64, count: nat, pos: u64, sync: bool)
    requires !m.streaming && !m.nonIncrAddr && IsPowerOf2(m.addrAlign) && m.granularity >= 1
    ensures CheckTransferAlign(m, buf, count, pos, sync) == 0
            <==> buf % m.addrAlign == pos % m.addrAlign
  {
    MaskIsMod(buf, m.addrAlign);
    MaskIsMod(pos, m.addrAlign);
  }

  /** The table of n mapped user bytes means their copy, and each descriptor moves some of them. */
  lemma MappedTable(
    entries: seq<Pages.PageEntry>, pages: seq<nat>, start: u64, n: nat, sgl: seq<SgEntry>,
    um: UserMemory, dma: nat -> nat, table: seq<Desc>, ep: u64, j: nat, dirToDev: bool)
    requires 0 < n < 0x1_0000_0000
    requires Pages.DescribesRange(entries, pages, start, n)
    requires PinnedFor(pages, um, start, n) && MapsRange(um, dma, start, n)
    requires IsMapping(sgl, entries, dma)
    requires Coalesced(table, sgl, ep, dirToDev, false, false)
    requires j < |table|
    ensures Meaning(table, dirToDev, false)
            == PlainCopy(HostOf(um.bus, start, n), ep, dirToDev, false)
    ensures table[j].bytes > 0
  {
    PinnedRangeIsMapped(entries, pages, start, n, sgl, um, dma);
    ChunkMeaning(table, sgl, um.bus, start, n, ep, dirToDev, false);
    DescriptorsMove(table, sgl, ep, dirToDev, false, false, j);
  }

  /** The addresses of descriptor j of the chunk at `at`: those of one byte of the request. */
  lemma DescriptorAddresses(
    buf: u64, pos: u64, at: nat, n: nat, entries: seq<Pages.PageEntry>, pages: seq<nat>,
    sgl: seq<SgEntry>, um: UserMemory, dma: nat -> nat, table: seq<Desc>, j: nat, dirToDev: bool)
    returns (i: nat)
    requires 0 < n < 0x1_0000_0000 && buf + at < 0x1_0000_0000_0000_0000
    requires Pages.DescribesRange(entries, pages, buf + at, n)
    requires PinnedFor(pages, um, buf + at, n) && MapsRange(um, dma, buf + at, n)
    requires IsMapping(sgl, entries, dma)
    requires Coalesced(table, sgl, Wrap64(pos + at), dirToDev, false, false)
    requires j < |table|
    ensures i < n && table[j].HostAddr(dirToDev) == um.bus(buf + at + i)
    ensures table[j].EpAddr(dirToDev) == Wrap64(pos + at + i)
  {
    MappedTable(entries, pages, buf + at, n, sgl, um, dma, table, Wrap64(pos + at), j, dirToDev);
    i := StartOfDescriptor(table, um.bus, buf, pos, at, n, j, dirToDev);
  }

  /** In incremental mode, for pages mapped at page boundaries: the check accepts a request if and
      only if the descriptor -- whichever one, in whichever chunk -- has congruent host and endpoint
      addresses. One check at the start covers all of them. */
  lemma OneCheckCoversEveryDescriptor(
    m: AlignMode, buf: u64, count: nat, pos: u64, sync: bool, at: nat, n: nat,
    entries: seq<Pages.PageEntry>, pages: seq<nat>, sgl: seq<SgEntry>, um: UserMemory,
    dma: nat -> nat, table: seq<Desc>, j: nat, dirToDev: bool)
    requires !m.streaming && !m.nonIncrAddr && m.granularity >= 1
    requires IsPowerOf2(m.addrAlign) && PAGE_SIZE % m.addrAlign == 0
    requires 0 < n < 0x1_0000_0000 && buf + at < 0x1_0000_0000_0000_0000
    requires Pages.DescribesRange(entries, pages, buf + at, n)
    requires PinnedFor(pages, um, buf + at, n) && MapsRange(um, dma, buf + at, n)
    requires forall p :: dma(p) % PAGE_SIZE == 0
    requires IsMapping(sgl, entries, dma)
    requires Coalesced(table, sgl, Wrap64(pos + at), dirToDev, false, false)
    requires j < |table|
    ensures CheckTransferAlign(m, buf, count, pos, sync) == 0
            <==> table[j].HostAddr(dirToDev) % m.addrAlign
                 == table[j].EpAddr(dirToDev) % m.addrAlign
  {
    IncrementalCheck(m, buf, count, pos, sync);
    var i := DescriptorAddresses(buf, pos, at, n, entries, pages, sgl, um, dma, table, j, dirToDev);
    OffsetsSurvive(um, dma, buf + at, n, buf + at + i);
    CongruentMoves(m.addrAlign, um.bus(buf + at + i), buf, pos, at + i);
  }

  lemma CongruentMoves(n: nat, host: nat, buf: nat, pos: nat, k: nat)
    requires n > 0 && PAGE_SIZE % n == 0 && host % PAGE_SIZE == (buf + k) % PAGE_SIZE
    ensures host % n == Wrap64(pos + k) % n <==> buf % n == pos % n
  {
    WrapKeepsResidue(pos + k, n);
    ModOfMod(host, PAGE_SIZE, n);
    ModOfMod(buf + k, PAGE_SIZE, n);
    ShiftCongruence(buf, pos, k, n);
  }

  /** The count, a size_t, as the ssize_t that transfer_data takes. */
  function Signed64(count: u64): int {
    if count < 0x8000_0000_0000_0000 then count else count - 0x1_0000_0000_0000_0000
  }

  /** char_sgdma_read_write: nothing happens unless direction and alignment are right, or for a
      count that is negative as an ssize_t. */
  method ReadWrite(
    k: Pages.PageTable, m: AlignMode, c: Config, env: nat -> ChunkOutcome, ghost um: UserMemory,
    buf: u64, count: u64, pos: u64, dirToDev: bool)
    returns (res: int, newPos: u64, ghost chunks: nat, ghost executed: seq<Desc>)
    requires m.addrAlign >= 1 && m.granularity >= 1
    requires m.streaming == c.streaming && m.nonIncrAddr == c.nonIncrAddr
    requires count < 0x8000_0000_0000_0000 ==> RequestReady(env, um, buf, count)
    modifies k
    ensures res == -EINVAL <==>
              dirToDev != c.dirToDev || CheckTransferAlign(m, buf, count, pos, true) != 0
    ensures forall i :: 0 <= i < chunks ==> env(i).Monitored? && env(i).state == Completed
    ensures res >= 0 ==>
              && res == (if count < 0x8000_0000_0000_0000 then count else 0)
              && newPos == Wrap64(pos + res) && k.refs == old(k.refs)
              && ExecutedFor(executed, um.bus, buf, pos, res, c)
              && res <= 0x80_0000 * chunks
    ensures res == -EINVAL ==>
              chunks == 0 && newPos == pos && executed == []
              && k.refs == old(k.refs) && k.dirty == old(k.dirty)
    ensures res < 0 && res != -EINVAL ==>
              && 0x80_0000 * chunks < count < 0x8000_0000_0000_0000
              && newPos == Wrap64(pos + 0x80_0000 * chunks)
              && ExecutedFor(executed, um.bus, buf, pos, 0x80_0000 * chunks, c)
              && !(env(chunks).Monitored? && env(chunks).state == Completed)
              && (if env(chunks).Monitored? && env(chunks).state == Submitted
                  then res == -ERESTARTSYS && k.refs == old(k.refs) + multiset(env(chunks).pages)
                  else res == -EIO && k.refs == old(k.refs))
    ensures res != -EINVAL ==>
              forall p :: p in k.dirty <==>
                p in old(k.dirty)
                || exists i :: 0 <= i < (if res < 0 then chunks + 1 else chunks)
                               && env(i).Monitored? && env(i).state != Submitted && !c.dirToDev
                               && p in env(i).pages
  {
    if dirToDev != c.dirToDev {
      return -EINVAL, pos, 0, [];
    }
    var rc := CheckTransferAlign(m, buf, count, pos, true);
    if rc != 0 {
      return rc, pos, 0, [];
    }
    ghost var dirtied;
    res, newPos, chunks, executed, dirtied :=
      TransferData(k, env, um, buf, Signed64(count), pos, c);
  }
}
