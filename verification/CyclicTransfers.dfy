/**
 The endless receive transfer of an AXI-ST C2H engine: one descriptor per buffer page, whose source
 address is the slot of the result buffer it reports to, linked into a ring.
 */
module CyclicTransfers {
  import opened Words
  import opened Arith
  import opened Descriptors
  import opened Hardware
  import opened Scatter
  import opened Transfers
  import opened UserTransfers
  import Pages

  const RX_BUF_PAGES := 256
  const RX_BUF_SIZE := RX_BUF_PAGES * PAGE_SIZE
  const RESULT_SIZE := 32
  const RING_CONTROL: bv32 := EOP | COMPLETED

  // One descriptor per entry

  lemma {:induction false} StartsAreAllEntries(sgl: seq<SgEntry>, i: nat)
    requires i < |sgl|
    ensures Starts(sgl, i, true) == seq(i + 1, k => k)
  {
    if i > 0 {
      StartsAreAllEntries(sgl, i - 1);
    }
  }

  /** In one-per-entry mode descriptor i carries exactly entry i. */
  lemma OneDescriptorPerEntry(
    table: seq<Desc>, sgl: seq<SgEntry>, ep: u64, dirToDev: bool, fixed: bool)
    requires |sgl| > 0 && Coalesced(table, sgl, ep, dirToDev, fixed, true)
    ensures |table| == |sgl|
    ensures forall i :: 0 <= i < |sgl| ==>
              table[i].HostAddr(dirToDev) == sgl[i].addr && table[i].bytes == sgl[i].len
  {
    var cuts := Cuts(sgl, true);
    StartsAreAllEntries(sgl, |sgl| - 1);
    var next: u64 :| Laid(table, sgl, cuts, ep, next, dirToDev, fixed);
    forall i | 0 <= i < |sgl|
      ensures table[i].HostAddr(dirToDev) == sgl[i].addr && table[i].bytes == sgl[i].len
    {
      assert LaidAt(table, sgl, cuts, next, dirToDev, fixed, i);
      assert RunLen(sgl, i, i) == 0;
    }
  }

  // Setup

  /** Descriptor i fills data page i and reports to result slot i. */
  ghost predicate Receives(d: Desc, e: SgEntry, resultBus: u64, i: nat) {
    d.Dst() == e.addr && d.bytes == e.len && d.Src() == resultBus + RESULT_SIZE * i
  }

  /** transfer_set_result_addresses */
  method SetResultAddresses(desc: array<Desc>, n: nat, resultBus: u64)
    requires n <= desc.Length
    requires resultBus + RESULT_SIZE * n <= 0x1_0000_0000_0000_0000
    modifies desc
    ensures SameLinks(old(desc[..]), desc[..])
    ensures forall k :: 0 <= k < n ==>
              desc[k].Src() == resultBus + RESULT_SIZE * k
              && desc[k].Dst() == old(desc[k].Dst()) && desc[k].bytes == old(desc[k].bytes)
  {
    var i, bus := 0, resultBus as int;
    while i < n
      invariant 0 <= i <= n && bus == resultBus + RESULT_SIZE * i
      invariant SameLinks(old(desc[..]), desc[..])
      invariant forall k :: i <= k < n ==> desc[k] == old(desc[k])
      invariant forall k :: 0 <= k < i ==>
                  desc[k].Src() == resultBus + RESULT_SIZE * k
                  && desc[k].Dst() == old(desc[k].Dst()) && desc[k].bytes == old(desc[k].bytes)
    {
      DescSetSource(desc, i, bus);
      bus := bus + RESULT_SIZE;
      i := i + 1;
    }
  }

  /** d' is d with another control byte. */
  ghost predicate Recontrolled(d: Desc, d': Desc, control: bv32) {
    && d.SameMove(d') && d'.SameNext(d)
    && LowByte(d'.control) == control
    && ExtraAdj(d'.control) == ExtraAdj(d.control)
    && HasMagic(d'.control) == HasMagic(d.control)
  }

  lemma ReplacedByte(c: bv32, control: bv32)
    ensures (LowByte(c) & !0xFF) | control == control
  {
  }

  /** The two updates of one descriptor in transfer_set_all_control. */
  method ReplaceControl(desc: array<Desc>, i: nat, control: bv32)
    requires i < desc.Length && control & 0xFFFF_FF00 == 0
    modifies desc
    ensures OnlyAt(old(desc[..]), desc[..], i)
    ensures Recontrolled(old(desc[i]), desc[i], control)
  {
    ReplacedByte(desc[i].control, control);
    DescControlClear(desc, i, 0xFF);
    DescControlSet(desc, i, control);
  }

  /** transfer_set_all_control */
  method SetAllControl(desc: array<Desc>, n: nat, control: bv32)
    requires n <= desc.Length && control & 0xFFFF_FF00 == 0
    modifies desc
    ensures forall k :: 0 <= k < n ==> Recontrolled(old(desc[k]), desc[k], control)
    ensures forall k :: n <= k < desc.Length ==> desc[k] == old(desc[k])
  {
    var i := 0;
    while i < n
      invariant 0 <= i <= n
      invariant forall k :: 0 <= k < i ==> Recontrolled(old(desc[k]), desc[k], control)
      invariant forall k :: i <= k < desc.Length ==> desc[k] == old(desc[k])
    {
      ReplaceControl(desc, i, control);
      i := i + 1;
    }
  }

  /** Descriptor i of the receive ring. */
  ghost predicate RingDesc(d: Desc, i: nat, n: nat, descBus: u64) {
    && HasMagic(d.control) && LowByte(d.control) == RING_CONTROL
    && d.Next() == (if i + 1 < n then descBus + DESC_SIZE * (i + 1) else descBus)
    && ExtraAdj(d.control) == if i + 1 < n then CappedExtraAdj(d.nextLo, n - 1 - i) else 0
  }

  ghost predicate ReceiveRing(m: DescMemory, sgl: seq<SgEntry>, resultBus: u64) {
    && 0 < |sgl| == |m.table|
    && (forall i :: 0 <= i < |sgl| ==> RingDesc(m.table[i], i, |sgl|, m.bus))
    && (forall i :: 0 <= i < |sgl| ==> Receives(m.table[i], sgl[i], resultBus, i))
  }

  /** d' is d linked to descBus, with no adjacent descriptors announced. */
  ghost predicate Closes(d: Desc, d': Desc, descBus: u64) {
    && d.SameMove(d') && d'.Next() == descBus
    && HasMagic(d'.control) && ExtraAdj(d'.control) == 0
    && LowByte(d'.control) == LowByte(d.control)
  }

  /** xdma_transfer_cyclic */
  method TransferCyclic(t: XdmaTransfer)
    requires 0 < t.descNum <= t.desc.Length
    modifies t.desc, t`cyclic
    ensures t.cyclic
    ensures OnlyAt(old(t.desc[..]), t.desc[..], t.descNum - 1)
    ensures Closes(old(t.desc[t.descNum - 1]), t.desc[t.descNum - 1], t.descBus)
  {
    DescLink(t.desc, t.descNum - 1, t.descBus);
    t.cyclic := true;
  }

  /** From the finished chain over the entries of sgl (before), by way of the result addresses and
      the control bits, to the ring (after). */
  lemma SetupMakesRing(
    before: seq<Desc>, withResults: seq<Desc>, controlled: seq<Desc>, after: seq<Desc>,
    sgl: seq<SgEntry>, descBus: u64, resultBus: u64)
    requires 0 < |sgl| == |before| == |withResults| == |controlled| == |after|
    requires forall i :: 0 <= i < |sgl| ==> Finished(before[i], i, |sgl|, descBus)
    requires SameLinks(before, withResults)
    requires forall i :: 0 <= i < |sgl| ==> Receives(withResults[i], sgl[i], resultBus, i)
    requires forall i :: 0 <= i < |sgl| ==>
               Recontrolled(withResults[i], controlled[i], RING_CONTROL)
    requires OnlyAt(controlled, after, |sgl| - 1)
    requires Closes(controlled[|sgl| - 1], after[|sgl| - 1], descBus)
    ensures ReceiveRing(DescMemory(descBus, after), sgl, resultBus)
  {
    var n := |sgl|;
    forall i | 0 <= i < n
      ensures RingDesc(after[i], i, n, descBus) && Receives(after[i], sgl[i], resultBus, i)
    {
      assert Finished(before[i], i, n, descBus) && before[i].SameLink(withResults[i]);
      assert Receives(withResults[i], sgl[i], resultBus, i);
      assert Recontrolled(withResults[i], controlled[i], RING_CONTROL);
    }
  }

  /** The success path of cyclic_transfer_setup after the buffers are allocated: transfer_create
      in one-descriptor-per-entry mode for a device-to-host engine, result addresses, control
      bits, ring. */
  method CyclicSetup(sgl: seq<SgEntry>, descBus: u64, resultBus: u64) returns (t: XdmaTransfer)
    requires |sgl| >= 1
    requires descBus + DESC_SIZE * |sgl| <= 0x1_0000_0000_0000_0000
    requires resultBus + RESULT_SIZE * |sgl| <= 0x1_0000_0000_0000_0000
    ensures fresh(t) && fresh(t.desc) && t.cyclic && t.descNum == t.descAdjacent == |sgl|
    ensures ReceiveRing(t.Memory(), sgl, resultBus)
    ensures t.descBus == descBus
  {
    t := new XdmaTransfer.Create(sgl, descBus, 0, false, false, true, false);
    OneDescriptorPerEntry(t.desc[..t.descNum], sgl, 0, false, false);
    ghost var before := t.desc[..];
    SetResultAddresses(t.desc, t.descNum, resultBus);
    ghost var withResults := t.desc[..];
    SetAllControl(t.desc, t.descNum, RING_CONTROL);
    ghost var controlled := t.desc[..];
    TransferCyclic(t);
    SetupMakesRing(before, withResults, controlled, t.desc[..], sgl, descBus, resultBus);
  }

  /** Entry i of the mapped list is page i of the buffer, whole. */
  ghost predicate IsPage(
    e: SgEntry, lookup: nat -> Pages.Lookup, first: nat, i: nat, dma: nat -> nat)
  {
    && lookup(first + i).At?
    && e.addr == dma(lookup(first + i).page) && e.len == PAGE_SIZE
  }

  /** The receive buffer, a page-aligned vmalloc()ed one, as a mapped list: its pages are looked up
      and mapped one by one. */
  method MapReceiveBuffer(lookup: nat -> Pages.Lookup, start: u64, dma: nat -> nat)
    returns (sgl: seq<SgEntry>)
    requires start % PAGE_SIZE == 0 && start + RX_BUF_SIZE < 0x1_0000_0000_0000_0000
    requires Pages.AllMapped(lookup, Pages.FirstFrame(start), RX_BUF_PAGES)
    requires forall p :: dma(p) + PAGE_SIZE <= 0x1_0000_0000_0000_0000
    ensures |sgl| == RX_BUF_PAGES
    ensures forall i :: 0 <= i < |sgl| ==> IsPage(sgl[i], lookup, Pages.FirstFrame(start), i, dma)
  {
    var sgm := new Pages.SgMapper.Create(RX_BUF_SIZE);
    var rc := sgm.KernelPages(lookup, start, RX_BUF_SIZE);
    assert rc == RX_BUF_PAGES;
    ghost var pages := sgm.pages[..rc];
    var entries := sgm.sgl[..rc];
    sgl := MapEach(entries, dma);
    forall i | 0 <= i < |sgl| ensures IsPage(sgl[i], lookup, Pages.FirstFrame(start), i, dma) {
      Pages.WholePages(entries, pages, start, i);
      assert Pages.IsFrame(lookup, Pages.FirstFrame(start), i, pages[i]);
    }
  }

  /** From the allocated receive buffer to the ring: descriptor i fills page i of the buffer and
      reports to slot i. The k-th descriptor executed is that of page k mod RX_BUF_PAGES by
      EndlessExecution. */
  method ReceiveSetup(
    lookup: nat -> Pages.Lookup, start: u64, dma: nat -> nat, descBus: u64, resultBus: u64)
    returns (t: XdmaTransfer, ghost sgl: seq<SgEntry>)
    requires start % PAGE_SIZE == 0 && start + RX_BUF_SIZE < 0x1_0000_0000_0000_0000
    requires Pages.AllMapped(lookup, Pages.FirstFrame(start), RX_BUF_PAGES)
    requires forall p :: dma(p) + PAGE_SIZE <= 0x1_0000_0000_0000_0000
    requires descBus + DESC_SIZE * RX_BUF_PAGES <= 0x1_0000_0000_0000_0000
    requires resultBus + RESULT_SIZE * RX_BUF_PAGES <= 0x1_0000_0000_0000_0000
    ensures fresh(t) && fresh(t.desc) && t.cyclic && t.descNum == t.desc.Length == 256
    ensures ReceiveRing(t.Memory(), sgl, resultBus) && t.descBus == descBus
    ensures forall i :: 0 <= i < 256 ==>
              FillsPage(t.desc[i], lookup, Pages.FirstFrame(start), i, dma, resultBus)
  {
    var mapped := MapReceiveBuffer(lookup, start, dma);
    t := CyclicSetup(mapped, descBus, resultBus);
    sgl := mapped;
    forall i | 0 <= i < RX_BUF_PAGES
      ensures FillsPage(t.desc[i], lookup, Pages.FirstFrame(start), i, dma, resultBus)
    {
      assert IsPage(sgl[i], lookup, Pages.FirstFrame(start), i, dma);
      assert Receives(t.Memory().table[i], sgl[i], resultBus, i);
    }
  }

  ghost predicate FillsPage(
    d: Desc, lookup: nat -> Pages.Lookup, first: nat, i: nat, dma: nat -> nat, resultBus: u64)
  {
    && lookup(first + i).At?
    && d.Dst() == dma(lookup(first + i).page) && d.bytes == 4096
    && d.Src() == resultBus + 32 * i
  }

  // Execution

  lemma RingControlRuns()
    ensures RING_CONTROL & STOPPED == 0
  {
  }

  /** The control words of the ring, bit by bit: magic, EOP and COMPLETED without STOPPED, and the
      adjacent count in bits 8 to 11, which is 0 on the last descriptor. */
  lemma RingControl(d: Desc, i: nat, n: nat, descBus: u64)
    requires RingDesc(d, i, n, descBus)
    ensures d.control >> 16 == 0xAD4B && d.control & 0xFF == 0x12
    ensures ((d.control >> 8) & 0xF) as nat
            == if i + 1 < n then CappedExtraAdj(d.nextLo, n - 1 - i) else 0
  {
  }

  lemma ReceiveRingIsRing(m: DescMemory, sgl: seq<SgEntry>, resultBus: u64)
    requires ReceiveRing(m, sgl, resultBus)
    ensures IsRing(m, |sgl|)
    ensures forall i :: 0 <= i < |sgl| ==> !IsStopped(m.table[i].control)
  {
    var n := |sgl|;
    RingControlRuns();
    forall i | 0 <= i < n
      ensures HasMagic(m.table[i].control) && !IsStopped(m.table[i].control)
      ensures i < n - 1 ==> m.table[i].Next() == AddressOf(m, i + 1)
      ensures i < n - 1 ==> ExtraAdj(m.table[i].control) <= n - 2 - i
      ensures i == n - 1 ==> m.table[i].Next() == m.bus && ExtraAdj(m.table[i].control) == 0
    {
      assert RingDesc(m.table[i], i, n, m.bus);
    }
  }

  /** The engine never stops, and the k-th descriptor it executes writes data page k mod n and
      result slot k mod n, for every k. */
  lemma EndlessExecution(m: DescMemory, sgl: seq<SgEntry>, resultBus: u64, fuel: nat, k: nat)
    requires ReceiveRing(m, sgl, resultBus)
    requires k < fuel
    ensures var t := Walk(m, m.bus, fuel);
            && t.ending == Running && |t.executed| == fuel
            && var i, d := k % |sgl|, t.executed[k];
               d.Dst() == sgl[i].addr && d.bytes == sgl[i].len && d.Src() == resultBus + 32 * i
  {
    ReceiveRingIsRing(m, sgl, resultBus);
    RingWalk(m, |sgl|, 0, fuel);
    SlotIsMod(|sgl|, 0, k);
  }

  /** The prefetching engine, started as engine_start does, executes the same. */
  lemma EndlessPrefetch(m: DescMemory, sgl: seq<SgEntry>, resultBus: u64, fuel: nat)
    requires ReceiveRing(m, sgl, resultBus)
    ensures PrefetchFrom(m, m.bus, FirstExtraAdj(|sgl|), fuel) == Walk(m, m.bus, fuel)
  {
    ReceiveRingIsRing(m, sgl, resultBus);
    var q := FirstExtraAdj(|sgl|) + 1;
    FetchBlockInTable(m, 0, q);
    PrefetchRefinesWalk(m, |sgl|, 0, q, fuel);
  }

  // Stopping

  /** m' is the ring m after the stop: its last descriptor stops, the others are untouched. */
  ghost predicate StoppedRing(m: DescMemory, m': DescMemory, n: nat) {
    && IsRing(m, n) && IsChain(m', n) && m'.bus == m.bus
    && (forall k :: 0 <= k < n ==> !IsStopped(m.table[k].control))
    && forall k :: 0 <= k < n - 1 ==> m'.table[k] == m.table[k]
  }

  /** The descriptor update of engine_cyclic_stop: STOPPED on the last descriptor of the ring. */
  method CyclicStop(t: XdmaTransfer, ghost sgl: seq<SgEntry>, ghost resultBus: u64)
    requires t.cyclic && t.descNum == |sgl| && ReceiveRing(t.Memory(), sgl, resultBus)
    modifies t.desc
    ensures StoppedRing(old(t.Memory()), t.Memory(), |sgl|)
    ensures t.desc[|sgl| - 1].control & 0xFF == 0x03
    ensures SameMoves(old(t.desc[..]), t.desc[..])
  {
    ghost var m := t.Memory();
    ReceiveRingIsRing(m, sgl, resultBus);
    DescControl(t.desc, t.descNum - 1, COMPLETED | STOPPED);
    ghost var n := |sgl|;
    ghost var m' := t.Memory();
    forall i | 0 <= i < n
      ensures HasMagic(m'.table[i].control)
      ensures i < n - 1 ==> m'.table[i] == m.table[i]
      ensures i == n - 1 ==> IsStopped(m'.table[i].control)
    {
    }
  }

  /** After that, an engine that has nothing prefetched halts within n descriptors, wherever in the
      ring it was. */
  lemma StopsWithinOneRound(m: DescMemory, m': DescMemory, n: nat, i: nat)
    requires StoppedRing(m, m', n) && i < n
    ensures Walk(m', AddressOf(m', i), n) == Trace(m'.table[i..n], Halted)
  {
    ChainWalk(m', n, i, n);
  }

  /** A queue of descriptors that do not stop, behind which the engine fetches from the chain m,
      at slot j. */
  ghost predicate LeadsTo(m: DescMemory, n: nat, queue: seq<Desc>, j: nat) {
    && IsChain(m, n) && queue != [] && AllContinue(queue)
    && var last := queue[|queue| - 1];
       && j + ExtraAdj(last.control) + 1 <= n
       && BlockBehind(m, last) == m.table[j..j + ExtraAdj(last.control) + 1]
  }

  lemma {:induction false} RingContinues(m: DescMemory, n: nat, i: nat, q: nat)
    requires IsRing(m, n) && i + q <= n
    requires forall k :: 0 <= k < n ==> !IsStopped(m.table[k].control)
    ensures AllContinue(m.table[i..i + q])
    decreases q
  {
    if q > 0 {
      RingContinues(m, n, i + 1, q - 1);
      assert m.table[i..i + q][1..] == m.table[i + 1..i + 1 + (q - 1)];
    }
  }

  lemma BlockBehindSlot(m: DescMemory, m': DescMemory, n: nat, i: nat, d: Desc)
    requires StoppedRing(m, m', n) && i < n && d == m.table[i]
    ensures NextSlot(n, i) + ExtraAdj(d.control) + 1 <= n
    ensures BlockBehind(m', d) == m'.table[NextSlot(n, i)..NextSlot(n, i) + ExtraAdj(d.control) + 1]
  {
    FetchBlockInTable(m', NextSlot(n, i), ExtraAdj(d.control) + 1);
  }

  /** Descriptors i..i+q fetched before the stop lead to the slot behind them, around the ring. */
  lemma FetchedBeforeStop(
    m: DescMemory, m': DescMemory, n: nat, i: nat, queue: seq<Desc>)
    requires StoppedRing(m, m', n)
    requires queue != [] && i + |queue| <= n && queue == m.table[i..i + |queue|]
    ensures LeadsTo(m', n, queue, NextSlot(n, i + |queue| - 1))
  {
    RingContinues(m, n, i, |queue|);
    LeadsToBlock(m, m', n, i + |queue| - 1, queue);
  }

  lemma LeadsToBlock(m: DescMemory, m': DescMemory, n: nat, i: nat, queue: seq<Desc>)
    requires StoppedRing(m, m', n) && AllContinue(queue)
    requires queue != [] && i < n && queue[|queue| - 1] == m.table[i]
    ensures LeadsTo(m', n, queue, NextSlot(n, i))
  {
    BlockBehindSlot(m, m', n, i, queue[|queue| - 1]);
  }

  lemma RestOfChain(m: DescMemory, n: nat, i: nat, q: nat, fuel: nat)
    requires IsChain(m, n) && 0 < q && i + q <= n && fuel >= n - i
    ensures PrefetchWalk(m, m.table[i..i + q], fuel) == Trace(m.table[i..n], Halted)
  {
    PrefetchRefinesWalk(m, n, i, q, fuel);
    ChainWalk(m, n, i, fuel);
  }

  /** A prefetching engine drains what it had fetched before the stop, and then halts at the end of
      the chain: in this round, or, when it had already fetched the old last descriptor, so that the
      queue leads to slot 0, after n more. */
  lemma PrefetchingEngineStops(m: DescMemory, n: nat, queue: seq<Desc>, j: nat, fuel: nat)
    requires LeadsTo(m, n, queue, j) && fuel >= |queue| + n
    ensures PrefetchWalk(m, queue, fuel) == Trace(m.table[j..n], Halted).PrependAll(queue)
  {
    var q := ExtraAdj(queue[|queue| - 1].control) + 1;
    RestOfChain(m, n, j, q, fuel - |queue|);
    DrainQueue(m, queue, fuel, m.table[j..j + q], Trace(m.table[j..n], Halted));
  }
}
