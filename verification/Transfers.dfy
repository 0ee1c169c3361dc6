/**
 struct xdma_transfer: the descriptor array in coherent memory and its bookkeeping, built in place
 from a mapped scatter list.
 */
module Transfers {
  import opened Words
  import opened Descriptors
  import opened Hardware
  import opened Scatter
  import opened Arith

  datatype TransferState = New | Submitted | Completed | Failed

  const LAST_CONTROL: bv32 := STOPPED | EOP | COMPLETED

  /** The extra_adj of descriptor i of a fresh chain of `number`: the largest count that the field
      and the chain allow. */
  function ChainExtraAdj(i: nat, number: nat): (n: nat)
    ensures n <= 15 && (n == 0 || i + 2 + n <= number)
    ensures n == 15 || i + 3 + n > number
  {
    if i + 2 > number then 0
    else if number - i - 2 > MAX_EXTRA_ADJ then MAX_EXTRA_ADJ
    else number - i - 2
  }

  /** What xdma_desc_alloc leaves in descriptor i of `number` at desc_bus. */
  ghost predicate Allocated(d: Desc, i: nat, number: nat, descBus: u64) {
    && HasMagic(d.control) && LowByte(d.control) == 0
    && ExtraAdj(d.control) == ChainExtraAdj(i, number)
    && d.Next() == if i + 1 < number then descBus + DESC_SIZE * (i + 1) else 0
  }

  /** Descriptor i of a finished chain of n at desc_bus: linked to its neighbour, only the last one
      stops the engine, and the adjacent count is capped by the chain, the field and the page. */
  ghost predicate Finished(d: Desc, i: nat, n: nat, descBus: u64) {
    && HasMagic(d.control)
    && LowByte(d.control) == (if i + 1 == n then LAST_CONTROL else 0)
    && ExtraAdj(d.control) == CappedExtraAdj(d.nextLo, n - 1 - i)
    && d.Next() == if i + 1 < n then descBus + DESC_SIZE * (i + 1) else 0
  }

  /** The same before the adjacent numbers are filled in. */
  ghost predicate Terminated(d: Desc, i: nat, n: nat, descBus: u64) {
    && LowByte(d.control) == (if i + 1 == n then LAST_CONTROL else 0)
    && d.Next() == if i + 1 < n then descBus + DESC_SIZE * (i + 1) else 0
  }

  ghost predicate FinishedChain(table: seq<Desc>, n: nat, descBus: u64) {
    0 < n <= |table| && forall i :: 0 <= i < n ==> Finished(table[i], i, n, descBus)
  }

  /** Only links and control words of descriptors differ. */
  ghost predicate SameMoves(before: seq<Desc>, after: seq<Desc>) {
    |after| == |before| && forall k :: 0 <= k < |before| ==> before[k].SameMove(after[k])
  }

  /** Only addresses and lengths of descriptors differ. */
  ghost predicate SameLinks(before: seq<Desc>, after: seq<Desc>) {
    |after| == |before| && forall k :: 0 <= k < |before| ==> before[k].SameLink(after[k])
  }

  /** Locals of transfer_build: the descriptor being filled and the contiguous block so far. */
  datatype Block = Block(j: nat, ep: u64, contAddr: u64, contLen: u32)

  /** Before entry i, the block holds the entries from the last start up to i. */
  ghost predicate IsOpen(
    b: Block, sgl: seq<SgEntry>, cuts: seq<nat>, i: nat, onePerEntry: bool)
  {
    && i < |sgl| && cuts == Starts(sgl, i, onePerEntry)
    && |cuts| == b.j + 1
    && b.contAddr == sgl[cuts[b.j]].addr
    && b.contLen == RunLen(sgl, cuts[b.j], i)
  }

  class XdmaTransfer {
    var desc: array<Desc>
    var descBus: u64
    var descAdjacent: nat
    var descNum: nat
    var dirToDev: bool
    var sgl: seq<SgEntry>     // mapped entries: sgl_nents of them
    var userspace: bool
    var state: TransferState
    var cyclic: bool

    /** The descriptor array as the device sees it. */
    ghost function Memory(): DescMemory
      reads this, desc
    {
      DescMemory(descBus, desc[..])
    }

    /** xdma_desc_alloc; the array comes uninitialised from the coherent allocator. */
    static method DescAlloc(number: nat, descBus: u64) returns (desc: array<Desc>)
      requires number >= 1
      requires descBus + DESC_SIZE * number <= 0x1_0000_0000_0000_0000
      ensures fresh(desc) && desc.Length == number
      ensures forall i :: 0 <= i < number ==> Allocated(desc[i], i, number, descBus)
    {
      desc := new Desc[number];
      var bus, adj := descBus as int, number - 1;
      var i := 0;
      while i < number - 1
        invariant 0 <= i <= number - 1
        invariant bus == descBus + DESC_SIZE * i && adj == number - 1 - i
        invariant forall k :: 0 <= k < i ==> Allocated(desc[k], k, number, descBus)
      {
        bus := bus + DESC_SIZE;
        var extraAdj := 0;
        if adj > 0 {
          extraAdj := adj - 1;
          if extraAdj > MAX_EXTRA_ADJ {
            extraAdj := MAX_EXTRA_ADJ;
          }
          adj := adj - 1;
        }
        assert extraAdj == ChainExtraAdj(i, number);
        DescInit(desc, i, bus, extraAdj);
        i := i + 1;
      }
      DescInit(desc, i, 0, 0);
    }

    /** Does the current descriptor, which started at entry s, end with entry i? */
    static method MustEnd(
      sgl: seq<SgEntry>, ghost s: nat, i: nat, addr: u64, len: u32, contLen: u32,
      forceNewDesc: bool, userspace: bool)
      returns (newDesc: bool)
      requires s <= i && i + 1 < |sgl|
      requires addr == sgl[i].addr && len == sgl[i].len
      requires contLen == RunLen(sgl, s, i + 1)
      ensures newDesc == StartsNew(sgl, s, i + 1, forceNewDesc && !userspace)
    {
      newDesc := false;
      if sgl[i + 1].addr != Wrap64(addr + len) {
        newDesc := true;
      } else if contLen > DESC_MAX_BYTES - PAGE_SIZE {
        newDesc := true;
      }
      if forceNewDesc && !userspace {
        newDesc := true;
      }
    }

    /** Proceed the endpoint address, except in non-incremental mode for user buffers. */
    static method NextEp(ep: u64, contLen: u32, nonIncrAddr: bool, userspace: bool) returns (r: u64)
      ensures r == EpAt(ep, contLen, userspace && nonIncrAddr)
    {
      r := ep;
      if userspace {
        if !nonIncrAddr {
          r := Wrap64(ep + contLen);
        }
      } else {
        r := Wrap64(ep + contLen);
      }
    }

    /** Fill in descriptor j for the entries from cuts[j] up to hi; returns the endpoint address of
        the next block. */
    static method Lay(
      desc: array<Desc>, j: nat, contAddr: u64, ep: u64, contLen: u32, dirToDev: bool,
      nonIncrAddr: bool, userspace: bool,
      ghost sgl: seq<SgEntry>, ghost cuts: seq<nat>, ghost hi: nat, ghost ep0: u64)
      returns (next: u64)
      requires j < desc.Length && |cuts| == j + 1 && cuts[j] < hi <= |sgl|
      requires contAddr == sgl[cuts[j]].addr && contLen == RunLen(sgl, cuts[j], hi)
      requires Laid(desc[..j], sgl, cuts, ep0, ep, dirToDev, userspace && nonIncrAddr)
      modifies desc
      ensures Laid(desc[..j + 1], sgl, cuts + [hi], ep0, next, dirToDev, userspace && nonIncrAddr)
      ensures SameLinks(old(desc[..]), desc[..])
    {
      ghost var table := desc[..j];
      DescSet(desc, j, contAddr, ep, contLen, dirToDev);
      LayDescriptor(table, desc[j], sgl, cuts, hi, ep0, ep, dirToDev, userspace && nonIncrAddr);
      assert desc[..j + 1] == table + [desc[j]];
      next := NextEp(ep, contLen, nonIncrAddr, userspace);
    }

    /** One turn of the loop of transfer_build: adds entry i to the current block and closes the
        block with descriptor j if it must end there. */
    static method AddEntry(
      sgl: seq<SgEntry>, desc: array<Desc>, i: nat, addr: u64, b: Block, dirToDev: bool,
      nonIncrAddr: bool, forceNewDesc: bool, userspace: bool, ghost ep0: u64, ghost cuts: seq<nat>)
      returns (b': Block, ghost cuts': seq<nat>)
      requires i + 1 < |sgl| && desc.Length == |sgl| && addr == sgl[i].addr
      requires IsOpen(b, sgl, cuts, i, forceNewDesc && !userspace)
      requires Laid(desc[..b.j], sgl, cuts, ep0, b.ep, dirToDev, userspace && nonIncrAddr)
      modifies desc
      ensures IsOpen(b', sgl, cuts', i + 1, forceNewDesc && !userspace)
      ensures Laid(desc[..b'.j], sgl, cuts', ep0, b'.ep, dirToDev, userspace && nonIncrAddr)
      ensures SameLinks(old(desc[..]), desc[..])
    {
      var next, len := sgl[i + 1].addr, sgl[i].len;
      var contLen := Wrap32(b.contLen + len);
      var newDesc := MustEnd(sgl, cuts[b.j], i, addr, len, contLen, forceNewDesc, userspace);
      if newDesc {
        var ep := Lay(desc, b.j, b.contAddr, b.ep, contLen, dirToDev, nonIncrAddr, userspace,
                      sgl, cuts, i + 1, ep0);
        b', cuts' := Block(b.j + 1, ep, next, 0), cuts + [i + 1];
      } else {
        b', cuts' := b.(contLen := contLen), cuts;
      }
    }

    /** transfer_build: one descriptor for each group of contiguous entries; returns the index of
        the last one. */
    static method Build(
      sgl: seq<SgEntry>, desc: array<Desc>, epAddr: u64, dirToDev: bool, nonIncrAddr: bool,
      forceNewDesc: bool, userspace: bool)
      returns (last: nat)
      requires |sgl| >= 1 && desc.Length == |sgl|
      modifies desc
      ensures last < |sgl|
      ensures Coalesced(desc[..last + 1], sgl, epAddr, dirToDev,
                        userspace && nonIncrAddr, forceNewDesc && !userspace)
      ensures SameLinks(old(desc[..]), desc[..])
    {
      ghost var fixed, onePerEntry := userspace && nonIncrAddr, forceNewDesc && !userspace;
      var b := Block(0, epAddr, sgl[0].addr, 0);
      var i := 0;
      ghost var cuts := [0];
      while i < |sgl| - 1
        invariant 0 <= i <= |sgl| - 1
        invariant IsOpen(b, sgl, cuts, i, onePerEntry)
        invariant Laid(desc[..b.j], sgl, cuts, epAddr, b.ep, dirToDev, fixed)
        invariant SameLinks(old(desc[..]), desc[..])
      {
        b, cuts := AddEntry(sgl, desc, i, sgl[i].addr, b, dirToDev, nonIncrAddr, forceNewDesc,
                            userspace, epAddr, cuts);
        i := i + 1;
      }
      last := b.j;
      var next := Lay(desc, last, b.contAddr, b.ep, Wrap32(b.contLen + sgl[i].len), dirToDev,
                      nonIncrAddr, userspace, sgl, cuts, |sgl|, epAddr);
      assert Laid(desc[..last + 1], sgl, Cuts(sgl, onePerEntry), epAddr, next, dirToDev, fixed);
    }

    /** Fill in the adjacent numbers of the first n descriptors. */
    static method FillAdjacent(desc: array<Desc>, n: nat, ghost descBus: u64)
      requires n <= desc.Length
      requires forall i :: 0 <= i < n ==> Terminated(desc[i], i, n, descBus)
      modifies desc
      ensures forall i :: 0 <= i < n ==> Finished(desc[i], i, n, descBus)
      ensures SameMoves(old(desc[..]), desc[..])
    {
      var i := 0;
      while i < n
        invariant 0 <= i <= n
        invariant forall k :: 0 <= k < i ==> Finished(desc[k], k, n, descBus)
        invariant forall k :: i <= k < n ==> desc[k] == old(desc[k])
        invariant SameMoves(old(desc[..]), desc[..])
      {
        DescAdjacent(desc, i, n - i - 1);
        i := i + 1;
      }
    }

    /** The end of transfer_create: terminate descriptor `last`, stop the engine and raise EOP and
        an interrupt there, and fill in the adjacent numbers. */
    static method FinishChain(desc: array<Desc>, last: nat, descBus: u64)
      requires last < desc.Length
      requires forall i :: 0 <= i < desc.Length ==> Allocated(desc[i], i, desc.Length, descBus)
      modifies desc
      ensures FinishedChain(desc[..], last + 1, descBus)
      ensures SameMoves(old(desc[..]), desc[..])
    {
      DescLink(desc, last, 0);
      DescControl(desc, last, LAST_CONTROL);
      FillAdjacent(desc, last + 1, descBus);
    }

    /** transfer_create, from the mapped scatter list on. */
    constructor Create(
      sgl: seq<SgEntry>, descBus: u64, epAddr: u64, dirToDev: bool, nonIncrAddr: bool,
      forceNewDesc: bool, userspace: bool)
      requires |sgl| >= 1
      requires descBus + DESC_SIZE * |sgl| <= 0x1_0000_0000_0000_0000
      ensures fresh(desc) && desc.Length == |sgl| && this.sgl == sgl && this.descBus == descBus
      ensures this.dirToDev == dirToDev && this.userspace == userspace
      ensures 1 <= descNum <= |sgl| && descAdjacent == descNum
      ensures FinishedChain(desc[..], descNum, descBus) && IsChain(Memory(), descNum)
      ensures Coalesced(desc[..descNum], sgl, epAddr, dirToDev,
                        userspace && nonIncrAddr, forceNewDesc && !userspace)
      ensures state == New && !cyclic
    {
      this.dirToDev := dirToDev;
      this.userspace := userspace;
      this.sgl := sgl;
      this.descBus := descBus;
      this.state := New;
      this.cyclic := false;
      var d := DescAlloc(|sgl|, descBus);
      var last := Build(sgl, d, epAddr, dirToDev, nonIncrAddr, forceNewDesc, userspace);
      ghost var built := d[..];
      FinishChain(d, last, descBus);
      FinishedIsChain(DescMemory(descBus, d[..]), last + 1);
      SameMovesKeepCoalesced(built[..last + 1], d[..last + 1], sgl, epAddr, dirToDev,
                             userspace && nonIncrAddr, forceNewDesc && !userspace);
      this.desc := d;
      this.descNum := last + 1;
      this.descAdjacent := last + 1;
    }
  }

  lemma SameMovesKeepCoalesced(
    before: seq<Desc>, after: seq<Desc>, sgl: seq<SgEntry>, ep: u64,
    dirToDev: bool, fixed: bool, onePerEntry: bool)
    requires |sgl| > 0 && SameMoves(before, after)
    requires Coalesced(before, sgl, ep, dirToDev, fixed, onePerEntry)
    ensures Coalesced(after, sgl, ep, dirToDev, fixed, onePerEntry)
  {
    var cuts := Cuts(sgl, onePerEntry);
    var next: u64 :| Laid(before, sgl, cuts, ep, next, dirToDev, fixed);
    forall j | 0 <= j < |after| ensures LaidAt(after, sgl, cuts, next, dirToDev, fixed, j) {
      assert LaidAt(before, sgl, cuts, next, dirToDev, fixed, j);
    }
    assert Laid(after, sgl, cuts, ep, next, dirToDev, fixed);
  }

  // What the finished chain means to the hardware

  lemma LastControlStops()
    ensures LAST_CONTROL & STOPPED != 0
  {
  }

  lemma FinishedIsChain(m: DescMemory, n: nat)
    requires FinishedChain(m.table, n, m.bus)
    ensures IsChain(m, n)
  {
    forall i | 0 <= i < n
      ensures HasMagic(m.table[i].control)
      ensures i < n - 1 ==> m.table[i].Next() == AddressOf(m, i + 1)
      ensures i < n - 1 ==> ExtraAdj(m.table[i].control) <= n - 2 - i
      ensures IsStopped(m.table[i].control) <==> i == n - 1
    {
      assert Finished(m.table[i], i, n, m.bus);
      LastControlStops();
    }
  }

  /** The main result: whatever the scatter list, walking the finished chain from desc_bus by `next`
      executes exactly its desc_num descriptors and halts at the STOPPED one, and what they do is
      one plain copy between the bytes of the list and the endpoint, byte i at ep_addr + i, if and
      only if no 32-bit running length overflowed. */
  lemma ChainMeansPlainCopy(
    m: DescMemory, n: nat, sgl: seq<SgEntry>, ep: u64,
    dirToDev: bool, fixed: bool, onePerEntry: bool, fuel: nat)
    requires |sgl| > 0 && IsChain(m, n)
    requires Coalesced(m.table[..n], sgl, ep, dirToDev, fixed, onePerEntry)
    requires fuel >= n
    ensures var t := Walk(m, m.bus, fuel);
            && t == Trace(m.table[..n], Halted)
            && (Meaning(t.executed, dirToDev, fixed)
                == PlainCopy(HostBytes(sgl), ep, dirToDev, fixed)
                <==> NoOverflow(sgl, Cuts(sgl, onePerEntry)))
  {
    ChainWalk(m, n, 0, fuel);
    MeaningPreservedIff(m.table[..n], sgl, ep, dirToDev, fixed, onePerEntry);
  }

  /** The same without an abstraction: byte k of entry i goes to or comes from the endpoint byte
      that is as many bytes behind ep as the entries before it have, or ep itself in fixed mode. */
  lemma ChainMovesByte(
    m: DescMemory, n: nat, sgl: seq<SgEntry>, ep: u64,
    dirToDev: bool, fixed: bool, onePerEntry: bool, i: nat, k: nat)
    requires |sgl| > 0 && IsChain(m, n)
    requires Coalesced(m.table[..n], sgl, ep, dirToDev, fixed, onePerEntry)
    requires NoOverflow(sgl, Cuts(sgl, onePerEntry))
    requires i < |sgl| && k < sgl[i].len
    ensures var moves, at := Meaning(Walk(m, m.bus, n).executed, dirToDev, fixed),
                             SumLen(sgl, 0, i) + k;
            var host, dev := (sgl[i].addr + k) % 0x1_0000_0000_0000_0000,
                             if fixed then ep as int else (ep + at) % 0x1_0000_0000_0000_0000;
            && at < |moves|
            && moves[at] == if dirToDev then ByteMove(host, dev) else ByteMove(dev, host)
  {
    ChainMeansPlainCopy(m, n, sgl, ep, dirToDev, fixed, onePerEntry, n);
    HostByteAt(sgl, |sgl|, i, k);
    CopyDirection(HostBytes(sgl), ep, dirToDev, fixed, SumLen(sgl, 0, i) + k);
  }

  /** The control words of a finished chain, bit by bit: magic, STOPPED, EOP and COMPLETED on the
      last descriptor and none of them before it, and the adjacent count in bits 8 to 11. */
  lemma FinishedControl(d: Desc, i: nat, n: nat, descBus: u64)
    requires Finished(d, i, n, descBus)
    ensures d.control >> 16 == 0xAD4B
    ensures d.control & 0xFF == if i + 1 == n then 0x13 else 0
    ensures ((d.control >> 8) & 0xF) as nat == CappedExtraAdj(d.nextLo, n - 1 - i)
    ensures i + 1 == n ==> (d.control >> 8) & 0xF == 0
  {
  }

  /** first_desc_adjacent as engine_start computes it from desc_adjacent: the largest count that the
      register field and the chain allow. */
  function FirstExtraAdj(descAdjacent: nat): (extra: nat)
    ensures extra <= 15 && (extra == 0 || extra < descAdjacent)
    ensures extra == 15 || extra + 1 >= descAdjacent
  {
    if descAdjacent > 0 then
      if descAdjacent - 1 > MAX_EXTRA_ADJ then MAX_EXTRA_ADJ else descAdjacent - 1
    else
      0
  }

  /** Prefetching changes nothing: started as engine_start does, the prefetching engine executes
      the same descriptors as the one that follows `next` one at a time, after any number of
      steps. */
  lemma PrefetchIsInvisible(m: DescMemory, n: nat, fuel: nat)
    requires IsChain(m, n)
    ensures PrefetchFrom(m, m.bus, FirstExtraAdj(n), fuel) == Walk(m, m.bus, fuel)
  {
    var q := FirstExtraAdj(n) + 1;
    FetchBlockInTable(m, 0, q);
    PrefetchRefinesWalk(m, n, 0, q, fuel);
  }

  lemma AlignedStaysInPage(bus: nat, i: nat)
    requires bus % 32 == 0
    ensures WithinPage(bus + 32 * i, 1)
  {
    var q := bus / 32 + i;
    assert bus + 32 * i == q / 128 * BOUNDARY + 32 * (q % 128);
    DivModUnique(bus + 32 * i, BOUNDARY, q / 128, 32 * (q % 128));
  }

  /** Every block prefetched along a chain stays within a 4 KiB page exactly when the descriptor at
      its start does; a 32-byte aligned desc_bus is enough for that. */
  lemma PrefetchStaysInPage(m: DescMemory, n: nat, i: nat)
    requires FinishedChain(m.table, n, m.bus)
    requires i < n - 1
    ensures WithinPage(m.table[i].Next(), ExtraAdj(m.table[i].control) + 1)
            <==> WithinPage(AddressOf(m, i + 1), 1)
    ensures m.bus % 32 == 0 ==> WithinPage(m.table[i].Next(), ExtraAdj(m.table[i].control) + 1)
  {
    assert Finished(m.table[i], i, n, m.bus);
    CappedBlockWithinPage(m.table[i], n - 1 - i);
    if m.bus % 32 == 0 {
      AlignedStaysInPage(m.bus, i + 1);
    }
  }

  /** The first block has no page cap. It stays within its page all the same, because the coherent
      allocator returns page-aligned memory and no more than 16 descriptors are fetched. */
  lemma FirstBlockInPage(descBus: u64, n: nat)
    requires descBus % BOUNDARY == 0
    ensures WithinPage(descBus, FirstExtraAdj(n) + 1)
  {
  }
}
