/**
 The engine queue as a state machine: the driver's steps under engine->lock, the steps of the
 hardware, and what holds after every interleaving of them. A BUG_ON that fires is an outcome of its
 own.
 */
module QueueModel {
  import opened Words
  import opened Descriptors
  import opened Hardware
  import opened Scatter
  import opened Transfers
  import opened Control

  /** A queued transfer, as the engine code looks at it, and its descriptors in memory. */
  datatype Job = Job(transfer: XdmaTransfer, memory: DescMemory, descNum: nat, adjacent: nat)

  /** A transfer taken off the queue, and the state it was given. */
  datatype Exit = Exit(job: Job, state: TransferState)

  /** A run of the hardware, from a start to the stop: does it leave the endpoint address alone, and
      which descriptors has it executed? */
  datatype HwRun = HwRun(fixed: bool, executed: seq<Desc>)

  /** The engine in the FPGA: the registers it was programmed with, the memory it finds descriptors
      in, whether it runs, where it fetches the next descriptor (nowhere behind a STOPPED one), what
      it did in this run, how many descriptors of it it counted, and which count it last wrote
      back. */
  datatype Hw = Hw(
    start: u64,
    firstAdjacent: nat,
    control: bv32,
    memory: DescMemory,
    busy: bool,
    at: Option<nat>,
    run: HwRun,
    done: u32,
    written: u32)

  /** struct xdma_engine and its hardware. `submitted`, `left`, `runs` and `dirtyStart` are history:
      all transfers queued and dequeued so far, the runs of the hardware that were stopped, and
      whether the engine was ever started in poll mode with a stale count in the writeback
      buffer. */
  datatype EngineState = EngineState(
    config: Config,
    running: bool,
    dequeued: u32,
    queue: seq<Job>,
    statusBusy: bool,
    writeback: u32,
    hw: Hw,
    submitted: seq<Job>,
    left: seq<Exit>,
    runs: seq<HwRun>,
    dirtyStart: bool)

  datatype Outcome = Ok(engine: EngineState) | Bug

  // Driver steps

  /** The hardware after the register writes of engine_start. */
  function Started(c: Config, job: Job): Hw {
    Hw(job.memory.bus, FirstExtraAdj(job.adjacent), StartWord(c), job.memory, true,
       Some(job.memory.bus), HwRun(FixedMode(c), []), 0, 0)
  }

  /** engine_start */
  function Start(s: EngineState): Outcome {
    if s.running || s.queue == [] then Bug
    else
      Ok(s.(running := true, dequeued := 0, hw := Started(s.config, s.queue[0]),
            dirtyStart := s.dirtyStart || (s.config.pollMode && s.writeback != 0)))
  }

  function Append(s: EngineState, job: Job): EngineState {
    s.(queue := s.queue + [job], submitted := s.submitted + [job])
  }

  /** transfer_queue */
  function Submit(s: EngineState, job: Job): Outcome {
    if job.descNum == 0 then Bug
    else if s.running then Ok(Append(s, job))
    else Start(Append(s, job))
  }

  /** Take the head off the queue. */
  function Remove(s: EngineState, state: TransferState): EngineState
    requires s.queue != []
  {
    s.(queue := s.queue[1..], left := s.left + [Exit(s.queue[0], state)],
       dequeued := Wrap32(s.dequeued + s.queue[0].descNum))
  }

  /** engine_service_transfer_list: c descriptors completed beyond those dequeued. */
  function ServiceList(s: EngineState, c: u32): (r: (EngineState, u32))
    ensures r.0.config == s.config
    decreases |s.queue|
  {
    if s.queue != [] && c > s.queue[0].descNum then
      ServiceList(Remove(s, Completed), c - s.queue[0].descNum)
    else
      (s, c)
  }

  /** engine_service_final_transfer, without error bits in the status. */
  function ServiceFinal(s: EngineState, c: u32): Outcome {
    if s.queue == [] then Bug
    else Ok(Remove(s, if c < s.queue[0].descNum then Failed else Completed))
  }

  function ServiceQueue(s: EngineState, c: u32): Outcome {
    if s.queue == [] then Bug
    else
      var (s', c') := ServiceList(s, c);
      ServiceFinal(s', c')
  }

  /** engine_service_resume */
  function Resume(s: EngineState): Outcome {
    if !s.running && s.queue != [] then Start(s) else Ok(s)
  }

  /** engine_service_shutdown */
  function Stop(s: EngineState): EngineState {
    s.(running := false, hw := s.hw.(busy := false, control := StopWord(s.config)),
       runs := s.runs + [s.hw.run])
  }

  function Minus32(a: u32, b: u32): (d: u32)
    ensures b + d == a || b + d == a + 0x1_0000_0000
  {
    if a >= b then a - b else a + 0x1_0000_0000 - b
  }

  /** The count and error fields of a writeback value. */
  function WbCount(writeback: u32): u32 {
    writeback % 0x100_0000
  }

  function WbError(writeback: u32): bool {
    writeback >= 0x8000_0000
  }

  /** The beginning of engine_service on a running engine: read the status, and shut the engine down
      when it is no longer busy or a count was written back. */
  function Observe(s: EngineState, writeback: u32): EngineState {
    var read := WithStatus(s, writeback);
    if !read.statusBusy || WbCount(writeback) != 0 then Stop(read) else read
  }

  function WithStatus(s: EngineState, writeback: u32): EngineState {
    if WbCount(writeback) == 0 || WbError(writeback) then s.(statusBusy := s.hw.busy) else s
  }

  /** The descriptors completed in this run beyond those dequeued. */
  function NotDequeued(s: EngineState, writeback: u32): u32 {
    var count := WbCount(writeback);
    Minus32(if count == 0 then s.hw.done else count, s.dequeued)
  }

  /** The rest: account for c descriptors, clear the writeback buffer, go on with the next
      transfer. */
  function Account(s: EngineState, c: u32): Outcome {
    match ServiceQueue(s, c)
    case Bug => Bug
    case Ok(s') => Resume(if s'.config.pollMode then s'.(writeback := 0) else s')
  }

  /** engine_service */
  function Service(s: EngineState, writeback: u32): Outcome {
    if !s.running then
      Ok(if writeback == 0 then s.(statusBusy := s.hw.busy) else s)
    else
      Account(Observe(s, writeback), NotDequeued(s, writeback))
  }

  // Hardware steps

  /** The descriptor the hardware executes next, if there is one. */
  function NextDesc(hw: Hw): Option<Desc> {
    match hw.at
    case None => None
    case Some(addr) =>
      match Read(hw.memory, addr)
      case None => None
      case Some(d) => if HasMagic(d.control) then Some(d) else None
  }

  /** It executes d, counts it, and goes on to the next one unless d stops it. */
  function Execute(hw: Hw, d: Desc): Hw
    requires hw.done + 1 < 0x1_0000_0000
  {
    hw.(at := if IsStopped(d.control) then None else Some(d.Next() as nat),
        run := hw.run.(executed := hw.run.executed + [d]), done := hw.done + 1)
  }

  // Runs

  datatype Event =
    | Queue(job: Job)           // transfer_queue
    | DescDone                  // the hardware executes the next descriptor
    | Halt                      // the hardware stops
    | WriteBack(count: u32)     // the hardware writes its count to the writeback buffer
    | Interrupt                 // engine_service from the interrupt handler
    | Poll(k: nat)              // engine_service once the requester of queue[k] finds its count

  /** What can happen when: the hardware works through its chain while it runs, and a polling
      requester gives way to service when the buffer holds the count it expects. */
  predicate Possible(s: EngineState, e: Event) {
    match e
    case Queue(_) => true
    case DescDone => s.hw.busy && NextDesc(s.hw).Some? && s.hw.done + 1 < 0x1_0000_0000
    case Halt => s.hw.busy
    case WriteBack(n) => s.config.pollMode && s.hw.written < n <= s.hw.done
    case Interrupt => !s.config.pollMode
    case Poll(k) => s.config.pollMode && k < |s.queue| && s.queue[k].descNum < 0x100_0000
                    && s.writeback == s.queue[k].descNum
  }

  /** The use the driver is made for: in interrupt mode the engine is serviced when it is not busy,
      and in poll mode one request at a time uses it. */
  predicate Proper(s: EngineState, e: Event) {
    match e
    case Queue(_) => s.config.pollMode ==> s.queue == []
    case Interrupt => !s.hw.busy
    case _ => true
  }

  /** One step; an event that cannot happen changes nothing. */
  function Step(s: EngineState, e: Event): Outcome {
    if !Possible(s, e) then Ok(s)
    else match e
      case Queue(job) => Submit(s, job)
      case DescDone => Ok(s.(hw := Execute(s.hw, NextDesc(s.hw).value)))
      case Halt => Ok(s.(hw := s.hw.(busy := false)))
      case WriteBack(n) => Ok(s.(writeback := n, hw := s.hw.(written := n)))
      case Interrupt => Service(s, 0)
      case Poll(_) => Service(s, s.writeback)
  }

  function Run(s: EngineState, es: seq<Event>): Outcome {
    if es == [] then Ok(s)
    else match Run(s, es[..|es| - 1])
      case Bug => Bug
      case Ok(s') => Step(s', es[|es| - 1])
  }

  ghost predicate ProperAt(s: EngineState, es: seq<Event>, k: nat)
    requires k < |es|
  {
    Run(s, es[..k]).Ok? ==> Proper(Run(s, es[..k]).engine, es[k])
  }

  /** The transfer is a chain that stops at its last descriptor, as transfer_create makes it. */
  ghost predicate Chained(job: Job) {
    IsChain(job.memory, job.descNum)
  }

  /** Every event comes at a proper time, and every transfer queued is a chain. */
  ghost predicate ProperRun(s: EngineState, es: seq<Event>) {
    forall k :: 0 <= k < |es| ==> ProperAt(s, es, k) && (es[k].Queue? ==> Chained(es[k].job))
  }

  /** A new engine, whatever its registers held. */
  predicate Initial(s: EngineState) {
    && !s.running && s.queue == [] && s.submitted == [] && s.left == [] && s.runs == []
    && s.writeback == 0 && !s.hw.busy && s.hw.done == s.hw.written && !s.dirtyStart
  }

  // The invariant

  function Jobs(left: seq<Exit>): (js: seq<Job>)
    ensures |js| == |left|
  {
    seq(|left|, i requires 0 <= i < |left| => left[i].job)
  }

  /** The hardware works on this transfer from its first descriptor, in the given mode. */
  predicate WorksOn(hw: Hw, job: Job, fixed: bool) {
    && hw.start == job.memory.bus && hw.firstAdjacent == FirstExtraAdj(job.adjacent)
    && hw.memory == job.memory
    && hw.done <= job.descNum <= |job.memory.table|
    && hw.run == HwRun(fixed, job.memory.table[..hw.done])
    && hw.at == if hw.done < job.descNum then Some(AddressOf(job.memory, hw.done)) else None
  }

  /** What the hardware did with a transfer that left: it executed a part of the chain from the
      start on, and the whole chain if and only if the transfer was completed. */
  ghost predicate RunOf(run: HwRun, exit: Exit, fixed: bool) {
    var done := |run.executed|;
    && Chained(exit.job)
    && done <= exit.job.descNum <= |exit.job.memory.table|
    && run == HwRun(fixed, exit.job.memory.table[..done])
    && exit.state == if done == exit.job.descNum then Completed else Failed
  }

  ghost predicate Positive(queue: seq<Job>) {
    forall i :: 0 <= i < |queue| ==> queue[i].descNum > 0
  }

  ghost predicate AllChained(queue: seq<Job>) {
    forall i :: 0 <= i < |queue| ==> Chained(queue[i])
  }

  /** One run of the hardware for each transfer that left. */
  ghost predicate RunsMatch(runs: seq<HwRun>, left: seq<Exit>, fixed: bool) {
    |runs| == |left| && forall i :: 0 <= i < |runs| ==> RunOf(runs[i], left[i], fixed)
  }

  /** What the polling requester relies on. */
  ghost predicate PollInv(s: EngineState) {
    && |s.queue| <= 1 && !s.dirtyStart
    && s.hw.written <= s.hw.done
    && (if s.running then s.writeback == s.hw.written
        else s.writeback == 0 && s.hw.written == s.hw.done)
    && (forall i :: 0 <= i < |s.left| ==> s.left[i].state == Completed)
  }

  /** Holds whenever the lock is free: the engine runs exactly while transfers are queued, on the
      head of the queue, with nothing dequeued in this run; what was submitted is what left plus
      what is queued, in order; and for each transfer that left, the hardware made one run. */
  ghost predicate Inv(s: EngineState) {
    && (s.running <==> s.queue != [])
    && (s.running ==> s.dequeued == 0 && WorksOn(s.hw, s.queue[0], FixedMode(s.config)))
    && (s.running ==> s.hw.control == StartWord(s.config))
    && (s.hw.busy ==> s.running)
    && AllChained(s.queue)
    && Jobs(s.left) + s.queue == s.submitted
    && RunsMatch(s.runs, s.left, FixedMode(s.config))
    && (s.config.pollMode ==> PollInv(s))
  }

  lemma SubmitKeepsInv(s: EngineState, job: Job)
    requires Inv(s) && Chained(job) && (s.config.pollMode ==> s.queue == [])
    ensures Submit(s, job).Ok? && Inv(Submit(s, job).engine)
  {
    assert Jobs(s.left) + Append(s, job).queue == Append(s, job).submitted;
  }

  lemma RemoveKeepsOrder(s: EngineState, state: TransferState)
    requires s.queue != [] && Jobs(s.left) + s.queue == s.submitted
    ensures Jobs(Remove(s, state).left) + Remove(s, state).queue == s.submitted
  {
    assert s.queue == [s.queue[0]] + s.queue[1..];
    assert Jobs(s.left + [Exit(s.queue[0], state)]) == Jobs(s.left) + [s.queue[0]];
  }

  lemma ResumeKeepsInv(s: EngineState)
    requires !s.running && !s.hw.busy && AllChained(s.queue)
    requires Jobs(s.left) + s.queue == s.submitted
    requires RunsMatch(s.runs, s.left, FixedMode(s.config))
    requires s.config.pollMode ==> PollInv(s) && s.queue == []
    ensures Resume(s).Ok? && Inv(Resume(s).engine)
  {
  }

  /** The writeback value with which a stopped or matching engine is serviced. */
  predicate Serviceable(s: EngineState, writeback: u32) {
    if s.config.pollMode then WbCount(writeback) == s.hw.done > 0
    else writeback == 0 && !s.hw.busy
  }

  /** Accounting for at most the descriptors of the head takes the head off. */
  lemma AccountForHead(s: EngineState, c: u32)
    requires s.queue != [] && c <= s.queue[0].descNum
    ensures var r := Remove(s, if c < s.queue[0].descNum then Failed else Completed);
            Account(s, c) == Resume(if s.config.pollMode then r.(writeback := 0) else r)
  {
  }

  /** What one service does to a running engine that completed `done` descriptors and stopped: the
      engine is shut down, the head leaves, completed if and only if its last descriptor is done,
      and the next one starts. */
  lemma ServiceStopped(s: EngineState, writeback: u32)
    requires Inv(s) && s.running && Serviceable(s, writeback)
    ensures var r := Remove(Stop(WithStatus(s, writeback)),
                            if s.hw.done < s.queue[0].descNum then Failed else Completed);
            Service(s, writeback)
            == Resume(if s.config.pollMode then r.(writeback := 0) else r)
  {
    AccountForHead(Stop(WithStatus(s, writeback)), s.hw.done);
  }

  /** What that means for the requester. */
  lemma ServiceHead(s: EngineState, writeback: u32)
    requires Inv(s) && s.running && Serviceable(s, writeback)
    ensures
      var state := if s.hw.done == s.queue[0].descNum then Completed else Failed;
      && Service(s, writeback).Ok?
      && Service(s, writeback).engine.left == s.left + [Exit(s.queue[0], state)]
      && Service(s, writeback).engine.runs == s.runs + [s.hw.run]
      && Service(s, writeback).engine.queue == s.queue[1..]
  {
    ServiceStopped(s, writeback);
  }

  lemma RemoveKeepsRuns(s: EngineState, state: TransferState)
    requires s.queue != [] && Chained(s.queue[0])
    requires RunsMatch(s.runs, s.left, FixedMode(s.config))
    requires WorksOn(s.hw, s.queue[0], FixedMode(s.config))
    requires state == if s.hw.done < s.queue[0].descNum then Failed else Completed
    ensures RunsMatch(s.runs + [s.hw.run], s.left + [Exit(s.queue[0], state)], FixedMode(s.config))
  {
  }

  lemma ServiceKeepsInv(s: EngineState)
    requires Inv(s) && !s.config.pollMode && !s.hw.busy
    ensures Service(s, 0).Ok? && Inv(Service(s, 0).engine)
  {
    if s.running {
      var state := if s.hw.done < s.queue[0].descNum then Failed else Completed;
      var stopped := Stop(WithStatus(s, 0));
      ServiceStopped(s, 0);
      RemoveKeepsRuns(s, state);
      RemoveKeepsOrder(stopped, state);
      ResumeKeepsInv(Remove(stopped, state));
    }
  }

  /** A matching poll proves that every descriptor of the transfer is done. */
  lemma PollMatchMeansDone(s: EngineState)
    requires Inv(s) && Possible(s, Poll(0))
    ensures s.hw.done == s.hw.written == s.queue[0].descNum
  {
  }

  lemma PollKeepsInv(s: EngineState)
    requires Inv(s) && Possible(s, Poll(0))
    ensures Service(s, s.writeback).Ok? && Inv(Service(s, s.writeback).engine)
  {
    PollMatchMeansDone(s);
    ServiceStopped(s, s.writeback);
    RemoveKeepsRuns(s, Completed);
    RemoveKeepsOrder(Stop(s), Completed);
    ResumeKeepsInv(Remove(Stop(s), Completed).(writeback := 0));
  }

  /** The hardware executes its chain one descriptor after the other. */
  lemma DescDoneKeepsInv(s: EngineState)
    requires Inv(s) && Possible(s, DescDone)
    ensures Inv(Step(s, DescDone).engine)
  {
    var job, done := s.queue[0], s.hw.done;
    assert Chained(job);
    ReadAt(job.memory, done);
    assert job.memory.table[..done + 1] == job.memory.table[..done] + [job.memory.table[done]];
  }

  /** No step at a proper time fires a BUG_ON or breaks the invariant. */
  lemma StepKeepsInv(s: EngineState, e: Event)
    requires Inv(s) && Proper(s, e) && (e.Queue? ==> Chained(e.job))
    ensures Step(s, e).Ok? && Inv(Step(s, e).engine)
  {
    if Possible(s, e) {
      match e
      case Queue(job) => SubmitKeepsInv(s, job);
      case DescDone => DescDoneKeepsInv(s);
      case Interrupt => ServiceKeepsInv(s);
      case Poll(k) => PollKeepsInv(s);
      case _ =>
    }
  }

  /** Over every interleaving of queueing, service and hardware steps at proper times: no BUG_ON
      fires, and the invariant holds at every lock release. */
  lemma {:induction false} AllRunsSafe(s: EngineState, es: seq<Event>)
    requires Initial(s) && ProperRun(s, es)
    ensures Run(s, es).Ok? && Inv(Run(s, es).engine)
  {
    if es != [] {
      var before, n := es[..|es| - 1], |es| - 1;
      forall k | 0 <= k < n ensures ProperAt(s, before, k) && before[k] == es[k] {
        assert before[..k] == es[..k];
        assert ProperAt(s, es, k);
      }
      AllRunsSafe(s, before);
      assert ProperAt(s, es, n);
      StepKeepsInv(Run(s, before).engine, es[n]);
    }
  }

  // What the hardware moved

  /** The bytes moved in the runs of the transfers that were completed, in order. */
  function CompletedMoves(left: seq<Exit>, runs: seq<HwRun>, dirToDev: bool): seq<ByteMove>
    requires |left| == |runs|
  {
    if left == [] then []
    else
      var n := |left| - 1;
      CompletedMoves(left[..n], runs[..n], dirToDev)
      + if left[n].state == Completed then Meaning(runs[n].executed, dirToDev, runs[n].fixed)
        else []
  }

  /** What following the chain of a transfer from desc_bus means. */
  function ChainMeaning(job: Job, dirToDev: bool, fixed: bool): seq<ByteMove> {
    Meaning(Walk(job.memory, job.memory.bus, job.descNum).executed, dirToDev, fixed)
  }

  /** The same for all completed transfers, in order. */
  function ChainMeanings(left: seq<Exit>, dirToDev: bool, fixed: bool): seq<ByteMove> {
    if left == [] then []
    else
      var n := |left| - 1;
      ChainMeanings(left[..n], dirToDev, fixed)
      + if left[n].state == Completed then ChainMeaning(left[n].job, dirToDev, fixed) else []
  }

  /** Over every such interleaving: a transfer that left was completed or failed; in its run the
      hardware executed its whole chain if it was completed, and otherwise a smaller part of it,
      from its first descriptor on. */
  lemma EachRun(s: EngineState, es: seq<Event>, i: nat)
    requires Initial(s) && ProperRun(s, es)
    requires Run(s, es).Ok? && i < |Run(s, es).engine.left|
    ensures var r := Run(s, es).engine;
            && |r.runs| == |r.left|
            && var exit, executed := r.left[i], r.runs[i].executed;
               && IsChain(exit.job.memory, exit.job.descNum)
               && r.runs[i].fixed == (s.config.nonIncrAddr && !s.config.pollMode)
               && |executed| <= exit.job.descNum
               && executed == exit.job.memory.table[..|executed|]
               && exit.state == (if |executed| == exit.job.descNum then Completed else Failed)
               && (s.config.pollMode ==> exit.state == Completed)
  {
    AllRunsSafe(s, es);
    ConfigStays(s, es);
    var r := Run(s, es).engine;
    assert RunOf(r.runs[i], r.left[i], FixedMode(s.config));
  }

  lemma CompletedRun(run: HwRun, exit: Exit, dirToDev: bool, fixed: bool)
    requires RunOf(run, exit, fixed) && exit.state == Completed
    ensures Meaning(run.executed, dirToDev, run.fixed) == ChainMeaning(exit.job, dirToDev, fixed)
  {
    ChainWalk(exit.job.memory, exit.job.descNum, 0, exit.job.descNum);
  }

  lemma {:induction false} MatchingRunsMove(
    left: seq<Exit>, runs: seq<HwRun>, dirToDev: bool, fixed: bool)
    requires RunsMatch(runs, left, fixed)
    ensures CompletedMoves(left, runs, dirToDev) == ChainMeanings(left, dirToDev, fixed)
  {
    if left != [] {
      var n := |left| - 1;
      MatchingRunsMove(left[..n], runs[..n], dirToDev, fixed);
      assert RunOf(runs[n], left[n], fixed);
      if left[n].state == Completed {
        CompletedRun(runs[n], left[n], dirToDev, fixed);
      }
    }
  }

  lemma AccountKeepsConfig(s: EngineState, c: u32)
    ensures Account(s, c).Ok? ==> Account(s, c).engine.config == s.config
  {
    if s.queue != [] {
      var (s', c') := ServiceList(s, c);
      assert s'.config == s.config;
    }
  }

  lemma StepKeepsConfig(s: EngineState, e: Event)
    ensures Step(s, e).Ok? ==> Step(s, e).engine.config == s.config
  {
    var writeback := if e.Interrupt? then 0 else s.writeback;
    AccountKeepsConfig(Observe(s, writeback), NotDequeued(s, writeback));
  }

  lemma {:induction false} ConfigStays(s: EngineState, es: seq<Event>)
    ensures Run(s, es).Ok? ==> Run(s, es).engine.config == s.config
  {
    if es != [] {
      ConfigStays(s, es[..|es| - 1]);
      if Run(s, es[..|es| - 1]).Ok? {
        StepKeepsConfig(Run(s, es[..|es| - 1]).engine, es[|es| - 1]);
      }
    }
  }

  /** Over every such interleaving: what the hardware moved for completed transfers is what their
      chains mean in the mode the engine was started in, whole, once each, and in the order in which
      they were submitted. */
  lemma CompletedMeansMoved(s: EngineState, es: seq<Event>)
    requires Initial(s) && ProperRun(s, es)
    ensures var r := Run(s, es);
            && r.Ok? && |r.engine.left| == |r.engine.runs|
            && Jobs(r.engine.left) + r.engine.queue == r.engine.submitted
            && CompletedMoves(r.engine.left, r.engine.runs, s.config.dirToDev)
               == ChainMeanings(r.engine.left, s.config.dirToDev, FixedMode(s.config))
  {
    AllRunsSafe(s, es);
    ConfigStays(s, es);
    var r := Run(s, es).engine;
    MatchingRunsMove(r.left, r.runs, s.config.dirToDev, FixedMode(s.config));
  }

  /** Servicing a running engine keeps the invariant exactly when the engine is not busy. */
  lemma BusyServiceBreaksInv(s: EngineState)
    requires Inv(s) && !s.config.pollMode && s.running && s.queue[0].descNum < 0x1_0000_0000
    ensures Service(s, 0).Ok?
    ensures Inv(Service(s, 0).engine) <==> !s.hw.busy
    ensures s.hw.busy && |s.queue| == 1 ==> Service(Service(s, 0).engine, 0) == Bug
  {
    if s.hw.busy {
      var read := s.(statusBusy := true);
      var r := Remove(read, if s.hw.done < s.queue[0].descNum then Failed else Completed);
      assert Service(s, 0) == Ok(r);
    } else {
      ServiceKeepsInv(s);
    }
  }

  /** What poll service makes of the head, for a count the hardware wrote back: completed if and
      only if the count is the head's own. A requester further back whose smaller count matches
      first fails the head. */
  lemma PollVerdictIff(s: EngineState)
    requires s.config.pollMode && s.running && s.dequeued == 0 && Positive(s.queue)
    requires s.queue != [] && s.hw.done <= s.queue[0].descNum
    requires 0 < s.writeback <= s.hw.done && s.writeback < 0x100_0000
    ensures Service(s, s.writeback).Ok?
    ensures Service(s, s.writeback).engine.left
            == s.left + [Exit(s.queue[0],
                              if s.writeback == s.queue[0].descNum then Completed else Failed)]
  {
    var head := s.queue[0];
    var r := Remove(Stop(s), if s.writeback < head.descNum then Failed else Completed);
    assert ServiceQueue(Observe(s, s.writeback), s.writeback).engine.left == r.left;
  }

  // Where it goes wrong

  function NewEngine(c: Config): EngineState {
    EngineState(c, false, 0, [], false, 0,
                Hw(0, 0, 0, DescMemory(0, []), false, None, HwRun(false, []), 0, 0), [], [], [],
                false)
  }

  lemma RunSnoc(s: EngineState, es: seq<Event>, e: Event, s1: EngineState, r: Outcome)
    requires Run(s, es) == Ok(s1) && Step(s1, e) == r
    ensures Run(s, es + [e]) == r
  {
    assert (es + [e])[..|es + [e]| - 1] == es;
  }

  /** A new engine that was given the queue and has executed `done` descriptors of its head. */
  function Working(c: Config, queue: seq<Job>, done: u32, wb: u32): EngineState
    requires queue != [] && done < queue[0].descNum <= |queue[0].memory.table|
  {
    var head := queue[0];
    EngineState(c, true, 0, queue, false, wb,
                Started(c, head).(at := Some(AddressOf(head.memory, done)),
                                  run := HwRun(FixedMode(c), head.memory.table[..done]),
                                  done := done, written := wb),
                queue, [], [], false)
  }

  lemma FirstSubmit(c: Config, j: Job)
    requires Chained(j)
    ensures Submit(NewEngine(c), j) == Ok(Working(c, [j], 0, 0))
  {
    assert [] + [j] == [j];
    assert j.memory.table[..0] == [];
  }

  lemma FirstJobRun(c: Config, j: Job)
    requires Chained(j)
    ensures Run(NewEngine(c), [Queue(j)]) == Ok(Working(c, [j], 0, 0))
    ensures Inv(Working(c, [j], 0, 0))
  {
    FirstSubmit(c, j);
    RunSnoc(NewEngine(c), [], Queue(j), NewEngine(c), Ok(Working(c, [j], 0, 0)));
    SubmitKeepsInv(NewEngine(c), j);
  }

  /** Any transfer is queued, and the engine is serviced twice while it is still busy with it: the
      first service fails the transfer and leaves an empty queue, the second one runs into
      BUG_ON(!transfer). */
  lemma BusyServiceRun(c: Config, j: Job)
    requires !c.pollMode && Chained(j) && j.descNum < 0x1_0000_0000
    ensures var r := Run(NewEngine(c), [Queue(j)] + [Interrupt]);
            r.Ok? && r.engine.left == [Exit(j, Failed)] && r.engine.queue == []
    ensures Run(NewEngine(c), [Queue(j)] + [Interrupt] + [Interrupt]) == Bug
  {
    var s1 := Working(c, [j], 0, 0);
    var s2 := Service(s1, 0);
    FirstJobRun(c, j);
    BusyServiceBreaksInv(s1);
    RunSnoc(NewEngine(c), [Queue(j)], Interrupt, s1, s2);
    RunSnoc(NewEngine(c), [Queue(j)] + [Interrupt], Interrupt, s2.engine, Bug);
  }

  lemma SecondPollerSteps(c: Config, a: Job, b: Job)
    requires c.pollMode && Chained(a) && a.descNum > 1 && b.descNum == 1
    ensures Step(Working(c, [a], 0, 0), Queue(b)) == Ok(Working(c, [a, b], 0, 0))
    ensures Step(Working(c, [a, b], 0, 0), DescDone) == Ok(Working(c, [a, b], 1, 0))
    ensures Step(Working(c, [a, b], 1, 0), WriteBack(1)) == Ok(Working(c, [a, b], 1, 1))
  {
    assert [a] + [b] == [a, b];
    ReadAt(a.memory, 0);
    assert a.memory.table[..1] == a.memory.table[..0] + [a.memory.table[0]];
  }

  lemma SecondPoll(c: Config, a: Job, b: Job) returns (r: Outcome)
    requires c.pollMode && Chained(a) && a.descNum > 1 && b.descNum == 1
    ensures Step(Working(c, [a, b], 1, 1), Poll(1)) == r
    ensures r.Ok? && r.engine.left == [Exit(a, Failed)]
  {
    var s := Working(c, [a, b], 1, 1);
    PollVerdictIff(s);
    r := Step(s, Poll(1));
  }

  /** Two requesters poll one engine, and the hardware writes back a count in the middle of the
      first transfer, of several descriptors: the second requester, of one descriptor, finds its own
      smaller count there, and service fails the first transfer while the engine is at work on
      it. */
  lemma SecondPollerRun(c: Config, a: Job, b: Job)
    requires c.pollMode && Chained(a) && a.descNum > 1 && b.descNum == 1
    ensures var r := Run(NewEngine(c),
                         [Queue(a)] + [Queue(b)] + [DescDone] + [WriteBack(1)] + [Poll(1)]);
            r.Ok? && r.engine.left == [Exit(a, Failed)]
  {
    var es := [Queue(a)];
    FirstJobRun(c, a);
    SecondPollerSteps(c, a, b);
    var r := SecondPoll(c, a, b);
    RunSnoc(NewEngine(c), es, Queue(b), Working(c, [a], 0, 0), Ok(Working(c, [a, b], 0, 0)));
    RunSnoc(NewEngine(c), es + [Queue(b)], DescDone, Working(c, [a, b], 0, 0),
            Ok(Working(c, [a, b], 1, 0)));
    RunSnoc(NewEngine(c), es + [Queue(b)] + [DescDone], WriteBack(1), Working(c, [a, b], 1, 0),
            Ok(Working(c, [a, b], 1, 1)));
    RunSnoc(NewEngine(c), es + [Queue(b)] + [DescDone] + [WriteBack(1)], Poll(1),
            Working(c, [a, b], 1, 1), r);
  }

  // Accounting

  function DescTotal(queue: seq<Job>): nat {
    if queue == [] then 0 else queue[0].descNum + DescTotal(queue[1..])
  }

  function Exits(queue: seq<Job>, state: TransferState): (es: seq<Exit>)
    ensures |es| == |queue|
  {
    seq(|queue|, i requires 0 <= i < |queue| => Exit(queue[i], state))
  }

  /** The longest prefix of the queue with at most c descriptors has k transfers. */
  ghost predicate LongestPrefix(queue: seq<Job>, c: nat, k: nat) {
    && k <= |queue| && DescTotal(queue[..k]) <= c
    && (k < |queue| ==> c < DescTotal(queue[..k + 1]))
  }

  /** How many transfers are taken off: one more than completed, if some descriptors of the next
      were done, or none were at all. */
  function Removed(queue: seq<Job>, c: nat, k: nat): (r: nat)
    requires k <= |queue|
    ensures k <= r <= k + 1
  {
    if k > 0 && DescTotal(queue[..k]) == c then k else k + 1
  }

  /** s after the first k transfers completed and those up to `removed` failed. */
  function AccountedState(s: EngineState, k: nat, removed: nat): EngineState
    requires k <= removed <= |s.queue|
  {
    s.(queue := s.queue[removed..],
       left := s.left + Exits(s.queue[..k], Completed) + Exits(s.queue[k..removed], Failed),
       dequeued := Wrap32(s.dequeued + DescTotal(s.queue[..removed])))
  }

  /** s' is s after the first k transfers completed, and at most one more failed. */
  ghost predicate Accounted(s: EngineState, c: nat, s': EngineState, k: nat)
    requires k <= |s.queue|
  {
    && Removed(s.queue, c, k) <= |s.queue|
    && s' == AccountedState(s, k, Removed(s.queue, c, k))
  }

  lemma TotalOfTail(queue: seq<Job>, k: nat)
    requires 0 < k <= |queue|
    ensures DescTotal(queue[..k]) == queue[0].descNum + DescTotal(queue[1..][..k - 1])
  {
    assert queue[..k][1..] == queue[1..][..k - 1];
  }

  lemma RemovedBehindHead(queue: seq<Job>, c: nat, k: nat)
    requires queue != [] && queue[0].descNum < c && k < |queue|
    ensures Removed(queue, c, k + 1) == Removed(queue[1..], c - queue[0].descNum, k) + 1
  {
    TotalOfTail(queue, k + 1);
  }

  lemma ExitsBehindHead(queue: seq<Job>, k: nat, removed: nat)
    requires k <= removed < |queue|
    ensures Exits(queue[..k + 1], Completed) + Exits(queue[k + 1..removed + 1], Failed)
            == [Exit(queue[0], Completed)]
               + (Exits(queue[1..][..k], Completed) + Exits(queue[1..][k..removed], Failed))
  {
    assert queue[1..][k..removed] == queue[k + 1..removed + 1];
  }

  lemma AppendAssoc(a: seq<Exit>, b: seq<Exit>, c: seq<Exit>, d: seq<Exit>, e: seq<Exit>)
    requires d + e == a + (b + c)
    ensures forall l :: l + a + b + c == l + d + e
  {
    forall l ensures l + a + b + c == l + d + e {
      assert l + a + b + c == l + (a + (b + c));
    }
  }

  lemma LeftBehindHead(left: seq<Exit>, queue: seq<Job>, k: nat, removed: nat)
    requires k <= removed < |queue|
    ensures left + [Exit(queue[0], Completed)] + Exits(queue[1..][..k], Completed)
            + Exits(queue[1..][k..removed], Failed)
            == left + Exits(queue[..k + 1], Completed) + Exits(queue[k + 1..removed + 1], Failed)
  {
    ExitsBehindHead(queue, k, removed);
    AppendAssoc([Exit(queue[0], Completed)],
                Exits(queue[1..][..k], Completed), Exits(queue[1..][k..removed], Failed),
                Exits(queue[..k + 1], Completed), Exits(queue[k + 1..removed + 1], Failed));
  }

  lemma DequeuedBehindHead(dequeued: u32, queue: seq<Job>, removed: nat)
    requires removed < |queue|
    ensures Wrap32(Wrap32(dequeued + queue[0].descNum) + DescTotal(queue[1..][..removed]))
            == Wrap32(dequeued + DescTotal(queue[..removed + 1]))
  {
    TotalOfTail(queue, removed + 1);
    Wrap32Add(dequeued + queue[0].descNum, DescTotal(queue[1..][..removed]));
  }

  lemma StateBehindHead(s: EngineState, k: nat, removed: nat)
    requires k <= removed < |s.queue|
    ensures AccountedState(Remove(s, Completed), k, removed)
            == AccountedState(s, k + 1, removed + 1)
  {
    LeftBehindHead(s.left, s.queue, k, removed);
    DequeuedBehindHead(s.dequeued, s.queue, removed);
    assert s.queue[1..][removed..] == s.queue[removed + 1..];
  }

  /** The accounting of the tail of the queue, put back behind its completed head. */
  lemma AccountedBehindHead(s: EngineState, c: nat, s': EngineState, k: nat)
    requires s.queue != [] && s.queue[0].descNum < c && k < |s.queue|
    requires Accounted(Remove(s, Completed), c - s.queue[0].descNum, s', k)
    ensures Accounted(s, c, s', k + 1)
  {
    RemovedBehindHead(s.queue, c, k);
    StateBehindHead(s, k, Removed(s.queue[1..], c - s.queue[0].descNum, k));
  }

  lemma LongestBehindHead(queue: seq<Job>, c: nat, k: nat)
    requires queue != [] && queue[0].descNum <= c
    requires LongestPrefix(queue[1..], c - queue[0].descNum, k)
    ensures LongestPrefix(queue, c, k + 1)
  {
    TotalOfTail(queue, k + 1);
    if k + 1 < |queue| {
      TotalOfTail(queue, k + 2);
    }
  }

  lemma HeadIsLongest(queue: seq<Job>, c: nat, k: nat)
    requires queue != [] && Positive(queue) && c <= queue[0].descNum
    requires k == if c < queue[0].descNum then 0 else 1
    ensures LongestPrefix(queue, c, k)
    ensures Removed(queue, c, k) == 1 && DescTotal(queue[..1]) == queue[0].descNum
  {
    TotalOfTail(queue, 1);
    assert queue[1..][..0] == [] && queue[..0] == [];
    if k == 1 && |queue| > 1 {
      TotalOfTail(queue, 2);
      assert DescTotal(queue[1..][..1]) >= queue[1..][..1][0].descNum == queue[1].descNum;
    }
  }

  /** The final transfer alone. */
  lemma AccountedHead(s: EngineState, c: u32) returns (k: nat)
    requires s.queue != [] && Positive(s.queue) && c <= s.queue[0].descNum
    ensures LongestPrefix(s.queue, c, k)
    ensures Accounted(s, c, ServiceFinal(s, c).engine, k)
  {
    var q := s.queue;
    k := if c < q[0].descNum then 0 else 1;
    HeadIsLongest(q, c, k);
    assert Exits(q[..k], Completed) + Exits(q[k..1], Failed)
           == [Exit(q[0], if k == 0 then Failed else Completed)];
    assert s.left + Exits(q[..k], Completed) + Exits(q[k..1], Failed)
           == s.left + (Exits(q[..k], Completed) + Exits(q[k..1], Failed));
  }

  lemma ServiceBehindHead(s: EngineState, c: u32)
    requires s.queue != [] && s.queue[0].descNum < c
    ensures ServiceQueue(s, c) == ServiceQueue(Remove(s, Completed), c - s.queue[0].descNum)
  {
    assert ServiceList(s, c) == ServiceList(Remove(s, Completed), c - s.queue[0].descNum);
  }

  /** BUG_ON(!transfer) fires exactly when the queue is empty or the count exceeds all its
      descriptors. */
  lemma {:induction false} ServiceBugIff(s: EngineState, c: u32)
    ensures ServiceQueue(s, c) == Bug <==> s.queue == [] || c > DescTotal(s.queue)
    decreases |s.queue|
  {
    if s.queue != [] && c > s.queue[0].descNum {
      ServiceBugIff(Remove(s, Completed), c - s.queue[0].descNum);
      ServiceBehindHead(s, c);
    }
  }

  /** Service accounts for the largest completed prefix: for any queue of non-empty transfers and
      any count of at most all its descriptors, exactly the longest prefix of transfers with at most
      c descriptors completes, at most one more fails, the rest stays in order, and the dequeued
      count rises by what was removed. */
  lemma {:induction false} ServiceAccounts(s: EngineState, c: u32) returns (k: nat)
    requires Positive(s.queue) && s.queue != [] && c <= DescTotal(s.queue)
    ensures LongestPrefix(s.queue, c, k)
    ensures ServiceQueue(s, c).Ok? && Accounted(s, c, ServiceQueue(s, c).engine, k)
    decreases |s.queue|
  {
    ServiceBugIff(s, c);
    if c > s.queue[0].descNum {
      var s1, c1 := Remove(s, Completed), c - s.queue[0].descNum;
      k := ServiceAccounts(s1, c1);
      ServiceBehindHead(s, c);
      AccountedBehindHead(s, c, ServiceQueue(s1, c1).engine, k);
      LongestBehindHead(s.queue, c, k);
      k := k + 1;
    } else {
      k := AccountedHead(s, c);
    }
  }
}
