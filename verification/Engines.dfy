/**
 struct xdma_engine: the queue of transfers, the registers of its hardware, and the functions that
 run under engine->lock. Each one is proved to take the step of the state machine; the asserts are
 the BUG_ONs of the source, and the preconditions leave out only the states in which one fires.
 */
module Engines {
  import opened Words
  import opened Descriptors
  import opened Hardware
  import opened Transfers
  import opened Control
  import opened QueueModel

  ghost function JobOf(t: XdmaTransfer): Job
    reads t, t.desc
  {
    Job(t, t.Memory(), t.descNum, t.descAdjacent)
  }

  /** A transfer on the list: queued as it lies in memory, submitted, and not cyclic. */
  ghost predicate Queued(t: XdmaTransfer, job: Job)
    reads t, t.desc
  {
    job == JobOf(t) && t.state == Submitted && !t.cyclic
  }

  /** Transfers on the list are distinct. */
  ghost predicate AllQueued(ts: seq<XdmaTransfer>, jobs: seq<Job>)
    reads ts, set t <- ts :: t.desc
  {
    && |jobs| == |ts|
    && (forall i, j :: 0 <= i < j < |ts| ==> ts[i] != ts[j])
    && forall i :: 0 <= i < |ts| ==> Queued(ts[i], jobs[i])
  }

  /** Mark a transfer as submitted. */
  method Submitting(t: XdmaTransfer)
    requires !t.cyclic
    modifies t`state
    ensures Queued(t, old(JobOf(t)))
  {
    t.state := Submitted;
    assert t.Memory() == old(t.Memory());
  }

  /** The engine in the FPGA: its registers, and what it is doing. */
  class EngineHw {
    var control: bv32
    var firstDescLo: u32
    var firstDescHi: u32
    var firstDescAdjacent: nat
    var busy: bool
    var completedDescCount: u32
    ghost var memory: DescMemory
    ghost var at: Option<nat>
    ghost var run: HwRun
    ghost var written: u32

    constructor ()
      ensures !busy && completedDescCount == written
    {
      busy, completedDescCount, written := false, 0, 0;
    }

    ghost function State(): Hw
      reads this
    {
      Hw(JoinWords(firstDescLo, firstDescHi), firstDescAdjacent, control, memory, busy, at, run,
         completedDescCount, written)
    }

    /** RUN_STOP is set: a run begins at the descriptor the engine was pointed to. */
    method Begin(word: bv32, ghost memory: DescMemory)
      modifies this`control, this`memory, this`at, this`run, this`busy, this`completedDescCount,
               this`written
      ensures var first := JoinWords(firstDescLo, firstDescHi);
              State() == Hw(first, firstDescAdjacent, word, memory, true, Some(first),
                            HwRun(Has(word, NON_INCR_ADDR), []), 0, 0)
    {
      control, busy, completedDescCount, written := word, true, 0, 0;
      this.memory, at := memory, Some(JoinWords(firstDescLo, firstDescHi));
      run := HwRun(Has(word, NON_INCR_ADDR), []);
    }

    /** RUN_STOP is cleared. */
    method End(word: bv32)
      modifies this`control, this`busy
      ensures State() == old(State()).(control := word, busy := false)
    {
      control, busy := word, false;
    }
  }

  class XdmaEngine {
    const pollMode: bool
    const streaming: bool
    const dirToDev: bool
    const nonIncrAddr: bool
    var running: bool
    var descDequeued: u32
    var transferList: seq<XdmaTransfer>
    var statusBusy: bool
    var writeback: u32
    const hw: EngineHw
    // what transferList holds, and history
    ghost var jobs: seq<Job>
    ghost var submitted: seq<Job>
    ghost var left: seq<Exit>
    ghost var runs: seq<HwRun>
    ghost var dirtyStart: bool

    /** An engine with an idle hardware and no transfers. */
    constructor (c: Config, hw: EngineHw)
      requires !hw.busy && hw.completedDescCount == hw.written
      ensures Valid() && Initial(Abs()) && Setup() == c && this.hw == hw
    {
      pollMode, streaming, dirToDev, nonIncrAddr :=
        c.pollMode, c.streaming, c.dirToDev, c.nonIncrAddr;
      running, descDequeued, transferList, statusBusy, writeback := false, 0, [], false, 0;
      this.hw := hw;
      jobs, submitted, left, runs, dirtyStart := [], [], [], [], false;
    }

    function Setup(): Config {
      Config(pollMode, streaming, dirToDev, nonIncrAddr)
    }

    ghost function Abs(): EngineState
      reads this, hw
    {
      EngineState(Setup(), running, descDequeued, jobs, statusBusy, writeback, hw.State(),
                  submitted, left, runs, dirtyStart)
    }

    ghost predicate Valid()
      reads this, transferList, set t <- transferList :: t.desc
    {
      AllQueued(transferList, jobs)
    }

    /** The transfers that left since then were on the list, are no longer, and are in the state
        recorded for them. */
    ghost predicate NewExits(before: seq<XdmaTransfer>, since: nat)
      reads this, before
    {
      && since <= |left|
      && forall i :: since <= i < |left| ==>
           && left[i].job.transfer in before && left[i].job.transfer !in transferList
           && left[i].job.transfer.state == left[i].state
    }

    /** engine_start_mode_config, without the performance test: what it writes to the control
        register. The addressing mode is set only when interrupts are used. */
    method StartModeConfig() returns (w: bv32)
      ensures w == StartWord(Setup())
      ensures Has(w, RUN_STOP)
      ensures Has(w, NON_INCR_ADDR) <==> nonIncrAddr && !pollMode
    {
      w := RUN_STOP;
      w := w | IE_READ_ERROR;
      w := w | IE_DESC_ERROR;
      w := w | IE_DESC_ALIGN_MISMATCH;
      w := w | IE_MAGIC_STOPPED;
      if pollMode {
        w := w | POLL_MODE_WB;
      } else {
        w := w | IE_DESC_STOPPED;
        w := w | IE_DESC_COMPLETED;
        if streaming && !dirToDev {
          w := w | IE_IDLE_STOPPED;
        }
        if nonIncrAddr {
          w := w | NON_INCR_ADDR;
        }
      }
    }

    /** xdma_engine_stop, without the performance test */
    method EngineStop() returns (w: bv32)
      ensures w == StopWord(Setup())
      ensures !Has(w, RUN_STOP)
    {
      w := IE_DESC_ALIGN_MISMATCH;
      w := w | IE_MAGIC_STOPPED;
      w := w | IE_READ_ERROR;
      w := w | IE_DESC_ERROR;
      if pollMode {
        w := w | POLL_MODE_WB;
      } else {
        w := w | IE_DESC_STOPPED;
        w := w | IE_DESC_COMPLETED;
        if streaming && !dirToDev {
          w := w | IE_IDLE_STOPPED;
        }
      }
    }

    /** The register writes of engine_start */
    method Program(transfer: XdmaTransfer, ghost job: Job)
      requires job == JobOf(transfer)
      modifies hw
      ensures JoinWords(hw.firstDescLo, hw.firstDescHi) == transfer.descBus
      ensures hw.firstDescAdjacent == FirstExtraAdj(transfer.descAdjacent)
      ensures hw.State() == Started(Setup(), job)
    {
      SplitJoin(transfer.descBus);
      hw.firstDescLo := LowWord(transfer.descBus);
      hw.firstDescHi := HighWord(transfer.descBus);
      var extraAdj := 0;
      if transfer.descAdjacent > 0 {
        extraAdj := transfer.descAdjacent - 1;
        if extraAdj > MAX_EXTRA_ADJ {
          extraAdj := MAX_EXTRA_ADJ;
        }
      }
      hw.firstDescAdjacent := extraAdj;
      var w := StartModeConfig();
      hw.Begin(w, job.memory);
    }

    /** engine_start */
    method EngineStart()
      requires Valid() && Start(Abs()).Ok?
      modifies this`running, this`descDequeued, this`dirtyStart, hw
      ensures Valid()
      ensures Ok(Abs()) == Start(old(Abs()))
      ensures running && descDequeued == 0
      ensures JoinWords(hw.firstDescLo, hw.firstDescHi) == transferList[0].descBus
      ensures dirtyStart == (old(dirtyStart) || (pollMode && writeback != 0))
    {
      assert !running;
      assert transferList != [];
      dirtyStart := dirtyStart || (pollMode && writeback != 0);
      descDequeued := 0;
      Program(transferList[0], jobs[0]);
      running := true;
    }

    /** Mark the transfer as submitted and add it to the tail of the list. */
    method AddTail(t: XdmaTransfer)
      requires Valid() && t !in transferList && !t.cyclic
      modifies this`transferList, this`jobs, this`submitted, t`state
      ensures Valid() && t.state == Submitted && transferList == old(transferList) + [t]
      ensures Abs() == Append(old(Abs()), old(JobOf(t)))
    {
      ghost var job := JobOf(t);
      Submitting(t);
      transferList := transferList + [t];
      jobs := jobs + [job];
      submitted := submitted + [job];
    }

    /** transfer_queue */
    method TransferQueue(t: XdmaTransfer)
      requires Valid() && t !in transferList && !t.cyclic
      requires Submit(Abs(), JobOf(t)).Ok?
      modifies this, hw, t`state
      ensures Valid() && t.state == Submitted && transferList == old(transferList) + [t]
      ensures Ok(Abs()) == Submit(old(Abs()), old(JobOf(t)))
    {
      assert t.descNum != 0;
      AddTail(t);
      if !running {
        EngineStart();
      }
    }

    /** Take the head off the list and give it its final state. */
    method Dequeue(transfer: XdmaTransfer, state: TransferState)
      requires Valid() && transferList != [] && transfer == transferList[0]
      modifies this`transferList, this`jobs, this`descDequeued, this`left, transfer`state
      ensures Valid() && transferList == old(transferList[1..])
      ensures transfer.state == state
      ensures Abs() == Remove(old(Abs()), state)
      ensures descDequeued == Wrap32(old(descDequeued) + transfer.descNum)
    {
      transferList := transferList[1..];
      jobs := jobs[1..];
      descDequeued := Wrap32(descDequeued + transfer.descNum);
      transfer.state := state;
      left := left + [Exit(old(jobs[0]), state)];
    }

    /** One turn of the loop of engine_service_transfer_list. */
    method CompleteHead(head: XdmaTransfer, c: u32, ghost all: seq<XdmaTransfer>, ghost since: nat)
      returns (c': u32)
      requires Valid() && transferList != [] && head == transferList[0] && c > head.descNum
      requires NewExits(all, since) && forall t :: t in transferList ==> t in all
      modifies this`transferList, this`jobs, this`descDequeued, this`left, head`state
      ensures Valid() && transferList == old(transferList[1..])
      ensures ServiceList(Abs(), c') == ServiceList(old(Abs()), c)
      ensures NewExits(all, since)
    {
      c' := c - head.descNum;
      Dequeue(head, Completed);
    }

    /** engine_service_transfer_list: everything but the last transfer; `found` is false when no
        transfer is left. */
    method ServiceTransferList(descCompleted: u32) returns (c: u32, found: bool)
      requires Valid() && transferList != []
      modifies this`transferList, this`jobs, this`descDequeued, this`left, transferList`state
      ensures Valid() && found == (transferList != [])
      ensures (Abs(), c) == ServiceList(old(Abs()), descCompleted)
      ensures NewExits(old(transferList), |old(left)|)
      ensures forall t :: t in transferList ==> t in old(transferList)
    {
      c := descCompleted;
      found := true;
      ghost var all, since := transferList, |left|;
      while found && !transferList[0].cyclic && c > transferList[0].descNum
        invariant Valid() && found == (transferList != [])
        invariant ServiceList(Abs(), c) == ServiceList(old(Abs()), descCompleted)
        invariant NewExits(all, since) && forall t :: t in transferList ==> t in all
        decreases |transferList|
      {
        assert transferList[0] in all;
        c := CompleteHead(transferList[0], c, all, since);
        found := |transferList| > 0;
      }
    }

    /** engine_service_final_transfer, for a status without error bits */
    method ServiceFinalTransfer(
      transfer: XdmaTransfer, c: u32, ghost all: seq<XdmaTransfer>, ghost since: nat)
      requires Valid() && transferList != [] && transfer == transferList[0]
      requires NewExits(all, since) && forall t :: t in transferList ==> t in all
      modifies this`transferList, this`jobs, this`descDequeued, this`left, transfer`state
      ensures Valid()
      ensures Ok(Abs()) == ServiceFinal(old(Abs()), c)
      ensures transfer.state == if c < transfer.descNum then Failed else Completed
      ensures NewExits(all, since)
    {
      if c < transfer.descNum {
        Dequeue(transfer, Failed);
      } else {
        Dequeue(transfer, Completed);
      }
    }

    /** Both steps; the asserts are BUG_ON(!transfer). */
    method ServiceTransfers(descCount: u32)
      requires Valid() && ServiceQueue(Abs(), descCount).Ok?
      modifies this`transferList, this`jobs, this`descDequeued, this`left, transferList`state
      ensures Valid()
      ensures Ok(Abs()) == ServiceQueue(old(Abs()), descCount)
      ensures NewExits(old(transferList), |old(left)|)
    {
      ghost var all, since := transferList, |left|;
      assert transferList != [];
      var c, found := ServiceTransferList(descCount);
      assert found;
      assert transferList[0] in all;
      ServiceFinalTransfer(transferList[0], c, all, since);
    }

    /** engine_service_shutdown: clears RUN_STOP, which ends the run of the hardware. */
    method ServiceShutdown()
      modifies this`running, this`runs, hw`busy, hw`control
      ensures Abs() == Stop(old(Abs()))
    {
      var w := EngineStop();
      hw.End(w);
      runs := runs + [hw.run];
      running := false;
    }

    /** engine_service_resume */
    method ServiceResume()
      requires Valid() && Resume(Abs()).Ok?
      modifies this, hw
      ensures Valid() && transferList == old(transferList) && left == old(left)
      ensures Ok(Abs()) == Resume(old(Abs()))
    {
      if !running {
        if transferList != [] {
          EngineStart();
        }
      }
    }

    /** The status part of engine_service. */
    method ReadStatus(descWriteback: u32)
      modifies this`running, this`runs, this`statusBusy, hw`busy, hw`control
      requires running
      ensures Abs() == Observe(old(Abs()), descWriteback)
      ensures running == (statusBusy && descWriteback % 0x100_0000 == 0)
      ensures statusBusy
              == if descWriteback % 0x100_0000 == 0 || descWriteback >= 0x8000_0000
                 then old(hw.busy) else old(statusBusy)
    {
      if WbCount(descWriteback) == 0 || WbError(descWriteback) {
        statusBusy := hw.busy;
      }
      if (running && !statusBusy) || WbCount(descWriteback) != 0 {
        ServiceShutdown();
      }
    }

    method ClearWriteback()
      modifies this`writeback
      ensures Abs() == old(Abs()).(writeback := 0)
    {
      writeback := 0;
    }

    /** The queue part of engine_service. */
    method AccountFor(descCount: u32)
      requires Valid() && Account(Abs(), descCount).Ok?
      modifies this, hw, transferList`state
      ensures Valid()
      ensures Ok(Abs()) == Account(old(Abs()), descCount)
      ensures NewExits(old(transferList), |old(left)|)
    {
      ServiceTransfers(descCount);
      if pollMode {
        ClearWriteback();
      }
      ServiceResume();
    }

    /** engine_service */
    method EngineService(descWriteback: u32) returns (rc: int)
      requires Valid() && Service(Abs(), descWriteback).Ok?
      modifies this, hw, transferList`state
      ensures Valid()
      ensures Ok(Abs()) == Service(old(Abs()), descWriteback)
      ensures NewExits(old(transferList), |old(left)|)
      ensures rc == if old(running) && descWriteback >= 0x8000_0000 then -1 else 0
      ensures !old(running) ==>
                Abs() == old(Abs()).(statusBusy := if descWriteback == 0 then old(hw.busy)
                                                   else old(statusBusy))
    {
      rc := if WbError(descWriteback) then -1 else 0;
      if !running {
        if descWriteback == 0 {
          statusBusy := hw.busy;
        }
        return 0;
      }
      ReadStatus(descWriteback);
      var count := WbCount(descWriteback);
      if count == 0 {
        count := hw.completedDescCount;
      }
      AccountFor(Minus32(count, descDequeued));
    }
  }
}
