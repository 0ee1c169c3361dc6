/**
 A transfer for a user buffer, from the buffer to the bytes it moves: transfer_create pins the
 pages, maps them, and builds the chain; the engine executes it; transfer_destroy releases the
 pages.
 */
module UserTransfers {
  import opened Words
  import opened Descriptors
  import opened Hardware
  import opened Scatter
  import opened Transfers
  import opened Control
  import Pages

  // DMA mapping of pinned pages

  /** Bus addresses of page bytes, for pages mapped at dma(page). */
  function BusBytes(bytes: seq<Pages.PageByte>, dma: nat -> nat): (s: seq<int>)
    ensures |s| == |bytes|
  {
    seq(|bytes|, k requires 0 <= k < |bytes| => dma(bytes[k].page) + bytes[k].offset)
  }

  function MapOne(e: Pages.PageEntry, dma: nat -> nat): SgEntry
    requires Pages.EntryInPage(e)
    requires dma(e.page) + PAGE_SIZE <= 0x1_0000_0000_0000_0000
  {
    SgEntry(dma(e.page) + e.offset, e.length)
  }

  /** A mapping without merging: one mapped entry for each page entry. */
  function MapEach(entries: seq<Pages.PageEntry>, dma: nat -> nat): (sgl: seq<SgEntry>)
    requires AllInPage(entries)
    requires forall p :: dma(p) + PAGE_SIZE <= 0x1_0000_0000_0000_0000
    ensures |sgl| == |entries|
  {
    seq(|entries|, i requires 0 <= i < |entries| => MapOne(entries[i], dma))
  }

  lemma BusBytesAppend(a: seq<Pages.PageByte>, b: seq<Pages.PageByte>, dma: nat -> nat)
    ensures BusBytes(a + b, dma) == BusBytes(a, dma) + BusBytes(b, dma)
  {
  }

  lemma SpanOfEntry(e: Pages.PageEntry, dma: nat -> nat)
    requires Pages.EntryInPage(e) && dma(e.page) + PAGE_SIZE <= 0x1_0000_0000_0000_0000
    ensures BusBytes(Pages.EntryBytes(e), dma) == Span(MapOne(e, dma).addr, e.length)
  {
    var s, t := BusBytes(Pages.EntryBytes(e), dma), Span(MapOne(e, dma).addr, e.length);
    forall k | 0 <= k < e.length ensures s[k] == t[k] {
      var b := Pages.EntryBytes(e)[k];
      assert b == Pages.PageByte(e.page, e.offset + k);
      assert s[k] == dma(b.page) + b.offset;
      assert t[k] == Wrap64(MapOne(e, dma).addr + k);
    }
  }

  lemma {:induction false} MapEachBytes(entries: seq<Pages.PageEntry>, dma: nat -> nat)
    requires AllInPage(entries)
    requires forall p :: dma(p) + PAGE_SIZE <= 0x1_0000_0000_0000_0000
    ensures HostBytes(MapEach(entries, dma)) == BusBytes(Pages.PageBytes(entries), dma)
    ensures PageSized(MapEach(entries, dma))
  {
    if entries != [] {
      var n, last := |entries| - 1, entries[|entries| - 1];
      MapEachBytes(entries[..n], dma);
      HostRangePrefix(MapEach(entries[..n], dma), MapEach(entries, dma), n);
      SpanOfEntry(last, dma);
      BusBytesAppend(Pages.PageBytes(entries[..n]), Pages.EntryBytes(last), dma);
    }
  }

  lemma {:induction false} HostRangePrefix(a: seq<SgEntry>, b: seq<SgEntry>, n: nat)
    requires n <= |a| && n <= |b| && forall i :: 0 <= i < n ==> a[i] == b[i]
    ensures HostRange(a, 0, n) == HostRange(b, 0, n)
  {
    if n > 0 {
      HostRangePrefix(a, b, n - 1);
    }
  }

  // The copy a request asks for

  predicate AllInPage(entries: seq<Pages.PageEntry>) {
    forall i :: 0 <= i < |entries| ==> Pages.EntryInPage(entries[i])
  }

  /** n bytes of user memory from `start`, where user byte v is mapped at bus(v). */
  function HostOf(bus: nat -> u64, start: nat, n: nat): (s: seq<int>)
    ensures |s| == n
  {
    seq(n, k requires 0 <= k => bus(start + k))
  }

  /** User memory: the page behind each frame, and the bus address at which each byte is mapped
      while it is transferred. */
  datatype UserMemory = UserMemory(page: nat -> nat, bus: nat -> u64)

  /** Pages mapped by dma: a byte lies in the page behind its frame, at its own offset. */
  ghost predicate MapsRange(um: UserMemory, dma: nat -> nat, start: nat, n: nat) {
    forall v: nat :: start <= v < start + n ==>
      um.bus(v) == dma(um.page(v / PAGE_SIZE)) + v % PAGE_SIZE
  }

  /** The pages pinned for a range are those behind its frames. */
  ghost predicate PinnedFor(pages: seq<nat>, um: UserMemory, start: u64, n: nat) {
    && |pages| == Pages.FramesOf(start, n)
    && forall i :: 0 <= i < |pages| ==> pages[i] == um.page(Pages.FirstFrame(start) + i)
  }

  /** What pci_map_sg promises: it may merge entries, but it maps the same bytes, and no entry is
      empty. */
  ghost predicate IsMapping(
    sgl: seq<SgEntry>, entries: seq<Pages.PageEntry>, dma: nat -> nat)
  {
    && 1 <= |sgl| <= |entries| && NonEmpty(sgl)
    && HostBytes(sgl) == BusBytes(Pages.PageBytes(entries), dma)
  }

  ghost predicate KeepsBytes(mapSg: seq<Pages.PageEntry> -> seq<SgEntry>, dma: nat -> nat) {
    forall entries :: entries != [] && AllInPage(entries) ==>
      IsMapping(mapSg(entries), entries, dma)
  }

  /** Mapping entry by entry is such a mapping. */
  lemma MapEachKeepsBytes(dma: nat -> nat)
    requires forall p :: dma(p) + PAGE_SIZE <= 0x1_0000_0000_0000_0000
    ensures KeepsBytes(es => if AllInPage(es) then MapEach(es, dma) else [], dma)
  {
    forall entries: seq<Pages.PageEntry> | entries != [] && AllInPage(entries)
      ensures IsMapping(MapEach(entries, dma), entries, dma)
    {
      MapEachBytes(entries, dma);
    }
  }

  /** However the mapping merges entries: the mapped list of a pinned range is that range of user
      memory, byte by byte. */
  lemma PinnedRangeIsMapped(
    entries: seq<Pages.PageEntry>, pages: seq<nat>, start: u64, n: nat, sgl: seq<SgEntry>,
    um: UserMemory, dma: nat -> nat)
    requires Pages.DescribesRange(entries, pages, start, n)
    requires PinnedFor(pages, um, start, n) && MapsRange(um, dma, start, n)
    requires IsMapping(sgl, entries, dma)
    ensures HostBytes(sgl) == HostOf(um.bus, start, n)
  {
    var bytes, host := Pages.PageBytes(entries), HostBytes(sgl);
    forall k | 0 <= k < n ensures host[k] == um.bus(start + k) {
      assert Pages.IsByteOf(bytes[k], pages, start, k);
      ByteIsMapped(bytes, pages, start, host, um, dma, k);
    }
  }

  lemma ByteIsMapped(
    bytes: seq<Pages.PageByte>, pages: seq<nat>, start: u64, host: seq<int>,
    um: UserMemory, dma: nat -> nat, k: nat)
    requires PinnedFor(pages, um, start, |bytes|) && MapsRange(um, dma, start, |bytes|)
    requires k < |bytes| && Pages.IsByteOf(bytes[k], pages, start, k)
    requires host == BusBytes(bytes, dma)
    ensures host[k] == um.bus(start + k)
  {
    var v, first := start + k, Pages.FirstFrame(start);
    assert um.bus(v) == dma(um.page(v / PAGE_SIZE)) + v % PAGE_SIZE;
    assert v / PAGE_SIZE == first + (v / PAGE_SIZE - first);
    assert host[k] == dma(bytes[k].page) + bytes[k].offset;
  }

  /** Pages mapped at page boundaries keep page offsets. */
  lemma OffsetsSurvive(um: UserMemory, dma: nat -> nat, start: nat, n: nat, v: nat)
    requires MapsRange(um, dma, start, n) && start <= v < start + n
    requires forall p :: dma(p) % PAGE_SIZE == 0
    ensures um.bus(v) % PAGE_SIZE == v % PAGE_SIZE
  {
    var base := dma(um.page(v / PAGE_SIZE));
    assert um.bus(v) == base + v % PAGE_SIZE;
    assert base % PAGE_SIZE == 0;
  }

  // What the chain moves

  /** The table built for n bytes of user memory means exactly those bytes. */
  lemma ChunkMeaning(
    table: seq<Desc>, sgl: seq<SgEntry>, bus: nat -> u64, start: nat, n: nat, pos: u64,
    dirToDev: bool, nonIncrAddr: bool)
    requires |sgl| > 0 && n < 0x1_0000_0000 && HostBytes(sgl) == HostOf(bus, start, n)
    requires Coalesced(table, sgl, pos, dirToDev, nonIncrAddr, false)
    ensures Meaning(table, dirToDev, nonIncrAddr)
            == PlainCopy(HostOf(bus, start, n), pos, dirToDev, nonIncrAddr)
    ensures NoOverflow(sgl, Cuts(sgl, false))
  {
    HostRangeLength(sgl, 0, |sgl|);
    TotalFits(sgl, false);
    MeaningPreservedIff(table, sgl, pos, dirToDev, nonIncrAddr, false);
  }

  /** User memory that is copied byte by byte: at most one byte, or two that do not lie one behind
      the other on the bus. */
  predicate ByteByByte(bus: nat -> u64, start: nat, n: nat) {
    n <= 1 || (n == 2 && bus(start + 1) != Wrap64(bus(start) + 1))
  }

  /** The two bytes of one descriptor lie one behind the other. */
  lemma TwoBytesTogether(
    table: seq<Desc>, bus: nat -> u64, start: nat, pos: u64, dirToDev: bool, fixed: bool)
    requires |table| == 1 && table[0].bytes == 2
    requires Meaning(table, dirToDev, fixed)
             == PlainCopy(HostOf(bus, start, 2), pos, dirToDev, fixed)
    ensures bus(start + 1) == Wrap64(bus(start) + 1)
  {
    var moves := Moves(table[0], dirToDev, fixed);
    MovesAreCopy(table[0], dirToDev, fixed);
    assert table[..0] == [];
    assert Meaning(table, dirToDev, fixed) == moves;
    assert moves[0] == PlainCopy(HostOf(bus, start, 2), pos, dirToDev, fixed)[0];
    assert moves[1] == PlainCopy(HostOf(bus, start, 2), pos, dirToDev, fixed)[1];
  }

  /** Two descriptors of a byte each: the bytes do not lie one behind the other. */
  lemma TwoBytesApart(
    table: seq<Desc>, sgl: seq<SgEntry>, bus: nat -> u64, start: nat, pos: u64,
    dirToDev: bool, fixed: bool)
    requires |table| == 2 && table[0].bytes == table[1].bytes == 1
    requires |sgl| > 0 && NonEmpty(sgl) && HostBytes(sgl) == HostOf(bus, start, 2)
    requires Coalesced(table, sgl, pos, dirToDev, fixed, false)
    ensures bus(start + 1) != Wrap64(bus(start) + 1)
  {
    HostRangeLength(sgl, 0, |sgl|);
    OneByteEntries(table, sgl, pos, dirToDev, fixed);
    var host := HostBytes(sgl);
    assert HostRange(sgl, 0, 1) == Span(sgl[0].addr, 1) by {
      assert HostRange(sgl, 0, 0) == [];
    }
    assert host == Span(sgl[0].addr, 1) + Span(sgl[1].addr, 1);
    assert host[0] == Wrap64(sgl[0].addr + 0) && host[1] == Wrap64(sgl[1].addr + 0);
    assert HostOf(bus, start, 2)[0] == bus(start + 0) && HostOf(bus, start, 2)[1] == bus(start + 1);
  }

  lemma {:induction false} OneByteEntries(
    table: seq<Desc>, sgl: seq<SgEntry>, pos: u64, dirToDev: bool, fixed: bool)
    requires |table| == 2 && table[0].bytes == table[1].bytes == 1
    requires |sgl| > 0 && NonEmpty(sgl) && SumLen(sgl, 0, |sgl|) == 2
    requires Coalesced(table, sgl, pos, dirToDev, fixed, false)
    ensures |sgl| == 2 && sgl[0].len == sgl[1].len == 1 && !Contiguous(sgl, 1)
  {
    var cuts := Cuts(sgl, false);
    CutsAreNeeded(sgl, false);
    var next: u64 :| Laid(table, sgl, cuts, pos, next, dirToDev, fixed);
    assert LaidAt(table, sgl, cuts, next, dirToDev, fixed, 0);
    assert LaidAt(table, sgl, cuts, next, dirToDev, fixed, 1);
    assert GroupAt(sgl, cuts, 1, false);
    AtLeastOneByteEach(sgl, 0, |sgl|);
    assert |sgl| == 2 && cuts[1] == 1;
    assert SumLen(sgl, 0, 1) == sgl[0].len;
  }

  lemma TwoBytes(
    table: seq<Desc>, sgl: seq<SgEntry>, bus: nat -> u64, start: nat, pos: u64,
    dirToDev: bool, fixed: bool)
    requires |sgl| > 0 && NonEmpty(sgl) && HostBytes(sgl) == HostOf(bus, start, 2)
    requires Coalesced(table, sgl, pos, dirToDev, fixed, false)
    requires SumBytes(table) == 2
    ensures AtMostOneByteEach(table) <==> ByteByByte(bus, start, 2)
  {
    ChunkMeaning(table, sgl, bus, start, 2, pos, dirToDev, fixed);
    forall j | 0 <= j < |table| ensures table[j].bytes > 0 {
      DescriptorsMove(table, sgl, pos, dirToDev, fixed, false, j);
    }
    AtLeastOneSum(table);
    if |table| == 1 {
      assert table[..0] == [];
      TwoBytesTogether(table, bus, start, pos, dirToDev, fixed);
    } else {
      NoMoreThanSum(table[..1], 0);
      assert table[..1][..0] == [];
      TwoBytesApart(table, sgl, bus, start, pos, dirToDev, fixed);
    }
  }

  /** The descriptors of a user range move at most one byte each if and only if it is copied byte
      by byte. */
  lemma TinyTableIff(
    table: seq<Desc>, sgl: seq<SgEntry>, bus: nat -> u64, start: nat, n: nat, pos: u64,
    dirToDev: bool, fixed: bool)
    requires n < 0x1_0000_0000 && HostBytes(sgl) == HostOf(bus, start, n)
    requires 0 < |sgl| <= n / PAGE_SIZE + 2 && NonEmpty(sgl)
    requires Coalesced(table, sgl, pos, dirToDev, fixed, false)
    ensures AtMostOneByteEach(table) <==> ByteByByte(bus, start, n)
  {
    ChunkMeaning(table, sgl, bus, start, n, pos, dirToDev, fixed);
    MeaningLength(table, dirToDev, fixed);
    NoMoreThanEntries(table, sgl, pos, dirToDev, fixed, false);
    if n == 2 {
      TwoBytes(table, sgl, bus, start, pos, dirToDev, fixed);
    } else if AtMostOneByteEach(table) {
      TinySum(table);
    } else if n < 2 {
      forall j | 0 <= j < |table| ensures table[j].bytes <= n {
        NoMoreThanSum(table, j);
      }
    }
  }

  /** The table of a transfer for n bytes of user memory from `start`: the range is pinned, mapped,
      and coalesced for the engine. */
  ghost predicate UserTable(
    table: seq<Desc>, entries: seq<Pages.PageEntry>, pages: seq<nat>, sgl: seq<SgEntry>,
    um: UserMemory, dma: nat -> nat, start: u64, n: nat, pos: u64, c: Config)
  {
    && 0 < n < 0x1_0000_0000
    && Pages.DescribesRange(entries, pages, start, n)
    && PinnedFor(pages, um, start, n) && MapsRange(um, dma, start, n)
    && IsMapping(sgl, entries, dma)
    && Coalesced(table, sgl, pos, c.dirToDev, c.nonIncrAddr, false)
  }

  /** It is laid out for exactly these bytes, and moves them one by one only if it must. */
  lemma UserTableMeaning(
    table: seq<Desc>, entries: seq<Pages.PageEntry>, pages: seq<nat>, sgl: seq<SgEntry>,
    um: UserMemory, dma: nat -> nat, start: u64, n: nat, pos: u64, c: Config)
    requires UserTable(table, entries, pages, sgl, um, dma, start, n, pos, c)
    ensures Meaning(table, c.dirToDev, c.nonIncrAddr)
            == PlainCopy(HostOf(um.bus, start, n), pos, c.dirToDev, c.nonIncrAddr)
    ensures AtMostOneByteEach(table) <==> ByteByByte(um.bus, start, n)
  {
    PinnedRangeIsMapped(entries, pages, start, n, sgl, um, dma);
    ChunkMeaning(table, sgl, um.bus, start, n, pos, c.dirToDev, c.nonIncrAddr);
    Pages.FramesBound(start, n);
    TinyTableIff(table, sgl, um.bus, start, n, pos, c.dirToDev, c.nonIncrAddr);
  }

  /** Laid out for a fixed address or not, and executed in the mode the engine is started in. */
  lemma InEngineMode(ds: seq<Desc>, host: seq<int>, pos: u64, c: Config)
    requires Meaning(ds, c.dirToDev, c.nonIncrAddr)
             == PlainCopy(host, pos, c.dirToDev, c.nonIncrAddr)
    ensures Meaning(ds, c.dirToDev, FixedMode(c)) == PlainCopy(host, pos, c.dirToDev, c.nonIncrAddr)
            <==> (c.nonIncrAddr && c.pollMode ==> AtMostOneByteEach(ds))
  {
    if c.nonIncrAddr && c.pollMode {
      IncrementingEngineIff(ds, host, pos, c.dirToDev);
    }
  }

  /** Pinned, mapped, coalesced and executed: the descriptors the engine executes from the start of
      the chain move exactly n bytes of user memory from `start`, once and in order, except that in
      poll mode, which does not program the addressing mode, only a range that is copied byte by
      byte stays at a fixed address. */
  lemma UserRangeIsCopied(
    m: DescMemory, descNum: nat, entries: seq<Pages.PageEntry>, pages: seq<nat>, sgl: seq<SgEntry>,
    um: UserMemory, dma: nat -> nat, start: u64, n: nat, pos: u64, c: Config)
    requires IsChain(m, descNum)
    requires UserTable(m.table[..descNum], entries, pages, sgl, um, dma, start, n, pos, c)
    ensures Walk(m, m.bus, descNum) == Trace(m.table[..descNum], Halted)
    ensures Meaning(m.table[..descNum], c.dirToDev, FixedMode(c))
            == PlainCopy(HostOf(um.bus, start, n), pos, c.dirToDev, c.nonIncrAddr)
            <==> (c.nonIncrAddr && c.pollMode ==> ByteByByte(um.bus, start, n))
  {
    var table := m.table[..descNum];
    UserTableMeaning(table, entries, pages, sgl, um, dma, start, n, pos, c);
    InEngineMode(table, HostOf(um.bus, start, n), pos, c);
    ChainWalk(m, descNum, 0, descNum);
  }

  /** What the chain of a transfer for user memory does: the engine executes exactly its table,
      which is laid out for the copy and is the copy in the engine's mode as above. */
  ghost predicate CopiesRange(
    t: XdmaTransfer, um: UserMemory, start: nat, n: nat, pos: u64, c: Config)
    reads t, t.desc
  {
    && IsChain(t.Memory(), t.descNum)
    && var table := t.desc[..t.descNum];
       && Walk(t.Memory(), t.descBus, t.descNum) == Trace(table, Halted)
       && Meaning(table, c.dirToDev, c.nonIncrAddr)
          == PlainCopy(HostOf(um.bus, start, n), pos, c.dirToDev, c.nonIncrAddr)
       && (AtMostOneByteEach(table) <==> ByteByByte(um.bus, start, n))
  }

  /** transfer_create for a user buffer. The assert is BUG_ON(rc < 0). */
  method CreateUserTransfer(
    k: Pages.PageTable, pages: seq<nat>, mapSg: seq<Pages.PageEntry> -> seq<SgEntry>, descBus: u64,
    start: u64, n: nat, pos: u64, c: Config, ghost um: UserMemory, ghost dma: nat -> nat)
    returns (sgm: Pages.SgMapper, t: XdmaTransfer)
    requires 0 < n < 0x1_0000_0000 && start + n < 0x1_0000_0000_0000_0000
    requires PinnedFor(pages, um, start, n) && MapsRange(um, dma, start, n)
    requires KeepsBytes(mapSg, dma)
    requires descBus + DESC_SIZE * |pages| <= 0x1_0000_0000_0000_0000
    modifies k`refs
    ensures fresh(sgm) && sgm.Valid() && fresh(t) && fresh(t.desc) && t.state == New
    ensures 0 < sgm.mappedPages && sgm.pages[..sgm.mappedPages] == pages
    ensures k.refs == old(k.refs) + multiset(pages)
    ensures t.descBus == descBus && CopiesRange(t, um, start, n, pos, c)
    ensures Meaning(t.desc[..t.descNum], c.dirToDev, FixedMode(c))
            == PlainCopy(HostOf(um.bus, start, n), pos, c.dirToDev, c.nonIncrAddr)
            <==> (c.nonIncrAddr && c.pollMode ==> ByteByByte(um.bus, start, n))
  {
    sgm := new Pages.SgMapper.Create(n);
    Pages.MapperSuffices(start, n, Pages.Pinned(pages));
    var rc := sgm.GetUserPages(k, start, n, Pages.Pinned(pages));
    assert rc > 0;
    var entries := sgm.sgl[..rc];
    var sgl := mapSg(entries);
    assert IsMapping(sgl, entries, dma);
    t := new XdmaTransfer.Create(sgl, descBus, pos, c.dirToDev, c.nonIncrAddr, false, true);
    UserTableMeaning(t.desc[..t.descNum], entries, pages, sgl, um, dma, start, n, pos, c);
    UserRangeIsCopied(t.Memory(), t.descNum, entries, pages, sgl, um, dma, start, n, pos, c);
  }

  /** transfer_destroy: every pinned page is released once, and marked dirty if the device wrote
      it. */
  method DestroyUserTransfer(k: Pages.PageTable, sgm: Pages.SgMapper, dirToDev: bool)
    requires sgm.Valid() && multiset(sgm.pages[..sgm.mappedPages]) <= k.refs
    modifies k, sgm`mappedPages
    ensures k.refs == old(k.refs) - multiset(old(sgm.pages[..sgm.mappedPages]))
    ensures k.dirty == old(k.dirty) + if dirToDev then {}
                                      else set p | p in old(sgm.pages[..sgm.mappedPages])
  {
    sgm.PutUserPages(k, !dirToDev);
    sgm.mappedPages := 0;
    sgm.Destroy();
  }
}
