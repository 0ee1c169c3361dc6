/**
 The control register of an SG DMA engine: what the driver writes there to start and to stop the
 engine, and the addressing mode the hardware then runs in.
 */
module Control {

  const RUN_STOP: bv32 := 0x1
  const IE_DESC_STOPPED: bv32 := 0x2
  const IE_DESC_COMPLETED: bv32 := 0x4
  const IE_DESC_ALIGN_MISMATCH: bv32 := 0x8
  const IE_MAGIC_STOPPED: bv32 := 0x10
  const IE_IDLE_STOPPED: bv32 := 0x40
  const IE_READ_ERROR: bv32 := 0x1F << 9
  const IE_DESC_ERROR: bv32 := 0x1F << 19
  const NON_INCR_ADDR: bv32 := 1 << 25
  const POLL_MODE_WB: bv32 := 1 << 26

  const IE_ERRORS: bv32 :=
    IE_READ_ERROR | IE_DESC_ERROR | IE_DESC_ALIGN_MISMATCH | IE_MAGIC_STOPPED

  /** The module parameter poll_mode, and what an engine was set up for. */
  datatype Config = Config(pollMode: bool, streaming: bool, dirToDev: bool, nonIncrAddr: bool)

  predicate Has(w: bv32, bits: bv32) {
    w & bits == bits
  }

  function OnlyIf(condition: bool, bits: bv32): bv32 {
    if condition then bits else 0
  }

  /** The word engine_start_mode_config writes. */
  function StartWord(c: Config): bv32 {
    RUN_STOP | IE_ERRORS
    | if c.pollMode then POLL_MODE_WB
      else IE_DESC_STOPPED | IE_DESC_COMPLETED
           | OnlyIf(c.streaming && !c.dirToDev, IE_IDLE_STOPPED)
           | OnlyIf(c.nonIncrAddr, NON_INCR_ADDR)
  }

  /** The word xdma_engine_stop writes. */
  function StopWord(c: Config): bv32 {
    IE_ERRORS
    | if c.pollMode then POLL_MODE_WB
      else IE_DESC_STOPPED | IE_DESC_COMPLETED
           | OnlyIf(c.streaming && !c.dirToDev, IE_IDLE_STOPPED)
  }

  /** A started engine leaves the endpoint address alone if and only if it was set up so and
      interrupts are used: in poll mode the addressing mode is not programmed. */
  predicate FixedMode(c: Config)
    ensures FixedMode(c) <==> Has(StartWord(c), NON_INCR_ADDR)
  {
    c.nonIncrAddr && !c.pollMode
  }

  /** It runs, and reports by writeback or by interrupts; as the word in the register. */
  lemma StartedWith(c: Config)
    ensures StartWord(c) == if c.pollMode then 0x4F8_3E19
                            else 0x0F8_3E1F
                                 + (if c.streaming && !c.dirToDev then 0x40 else 0)
                                 + (if c.nonIncrAddr then 0x200_0000 else 0)
    ensures Has(StartWord(c), RUN_STOP) && Has(StartWord(c), IE_ERRORS)
    ensures Has(StartWord(c), POLL_MODE_WB) <==> c.pollMode
    ensures Has(StartWord(c), IE_DESC_STOPPED | IE_DESC_COMPLETED) <==> !c.pollMode
  {
  }

  /** A stop clears RUN_STOP and the addressing mode, and nothing else of what the start wrote. */
  lemma StoppedWith(c: Config)
    ensures !Has(StopWord(c), RUN_STOP)
    ensures StopWord(c) == StartWord(c) & !(RUN_STOP | NON_INCR_ADDR)
  {
  }
}
