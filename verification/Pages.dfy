/**
 xdma-sgm.c: splitting a virtual byte range into pages, and the references held on the pages.
 */
module Pages {
  import opened Words

  /** One entry of the unmapped scatter list. */
  datatype PageEntry = PageEntry(page: nat, offset: nat, length: nat)

  /** A byte of memory: the page and the offset in it. */
  datatype PageByte = PageByte(page: nat, offset: nat)

  // Meaning of a page list

  function EntryBytes(e: PageEntry): (s: seq<PageByte>)
    ensures |s| == e.length
  {
    seq(e.length, k requires 0 <= k => PageByte(e.page, e.offset + k))
  }

  /** The bytes the entries describe, in order. */
  function PageBytes(entries: seq<PageEntry>): seq<PageByte> {
    if entries == [] then []
    else PageBytes(entries[..|entries| - 1]) + EntryBytes(entries[|entries| - 1])
  }

  /** The byte `at` bytes into a run of pages. */
  function ByteAt(pages: seq<nat>, at: nat): PageByte
    requires at / PAGE_SIZE < |pages|
  {
    PageByte(pages[at / PAGE_SIZE], at % PAGE_SIZE)
  }

  /** n bytes of a run of pages, from `off` on. */
  function RunBytes(pages: seq<nat>, off: nat, n: nat): (s: seq<PageByte>)
    requires off + n <= PAGE_SIZE * |pages|
    ensures |s| == n
  {
    seq(n, k requires 0 <= k < n => ByteAt(pages, off + k))
  }

  /** The pages of the byte range start .. start + count - 1. */
  function FirstFrame(start: u64): nat {
    start / PAGE_SIZE
  }

  function NrPages(start: u64, count: u64): int {
    var last := Wrap64(start + count + 0xFFFF_FFFF_FFFF_FFFF) / PAGE_SIZE;
    TruncateToInt(last - FirstFrame(start) + 1)
  }

  /** The number of pages a non-empty range touches. */
  function FramesOf(start: nat, count: nat): int {
    (start + count - 1) / PAGE_SIZE - start / PAGE_SIZE + 1
  }

  lemma FramesBound(start: nat, count: nat)
    requires count >= 1
    ensures 1 <= FramesOf(start, count) <= count / PAGE_SIZE + 2
  {
  }

  /** One page at most is started on each side of the whole pages. */
  lemma NrPagesBound(start: u64, count: nat)
    requires 1 <= count < 0x7FF_FFFF_E000 && start + count <= 0x1_0000_0000_0000_0000
    ensures NrPages(start, count) == FramesOf(start, count)
    ensures 1 <= NrPages(start, count) <= count / PAGE_SIZE + 2
    ensures PAGE_SIZE * (NrPages(start, count) - 1) < start % PAGE_SIZE + count
    ensures start % PAGE_SIZE + count <= PAGE_SIZE * NrPages(start, count)
  {
    Wrap64IsMod(start + count + 0xFFFF_FFFF_FFFF_FFFF);
    assert start + count + 0xFFFF_FFFF_FFFF_FFFF == (start + count - 1) + 0x1_0000_0000_0000_0000;
  }

  /** The source's overflow test. */
  lemma WrapsIff(start: u64, count: nat)
    requires count < 0x1_0000_0000_0000_0000
    ensures Wrap64(start + count) < start <==> start + count >= 0x1_0000_0000_0000_0000
  {
    Wrap64IsMod(start + count);
  }

  /** An empty range asks for one page at most, even where start - 1 wraps around. */
  lemma NrPagesEmpty(start: u64)
    ensures NrPages(start, 0) <= 1
  {
    Wrap64IsMod(start + 0xFFFF_FFFF_FFFF_FFFF);
  }

  lemma ByteOfPage(pages: seq<nat>, i: nat, k: nat)
    requires i < |pages| && k < PAGE_SIZE
    ensures (PAGE_SIZE * i + k) / PAGE_SIZE == i
    ensures ByteAt(pages, PAGE_SIZE * i + k) == PageByte(pages[i], k)
  {
    assert (PAGE_SIZE * i + k) / PAGE_SIZE == i && (PAGE_SIZE * i + k) % PAGE_SIZE == k;
  }

  /** The run of `head` bytes that ends where page i begins is extended by n bytes of page i. */
  lemma ExtendRun(pages: seq<nat>, off: nat, i: nat, head: nat, n: nat)
    requires i < |pages| && off + head == PAGE_SIZE * i && n <= PAGE_SIZE
    ensures RunBytes(pages, off, head) + EntryBytes(PageEntry(pages[i], 0, n))
            == RunBytes(pages, off, head + n)
  {
    var s, t := RunBytes(pages, off, head) + EntryBytes(PageEntry(pages[i], 0, n)),
                RunBytes(pages, off, head + n);
    forall k | 0 <= k < head + n ensures s[k] == t[k] {
      if k >= head {
        ByteOfPage(pages, i, k - head);
        assert off + k == PAGE_SIZE * i + (k - head);
        assert s[k] == PageByte(pages[i], k - head);
      }
    }
  }

  /** The first entry covers the run from its offset on. */
  lemma FirstRun(pages: seq<nat>, off: nat, n: nat)
    requires |pages| > 0 && off < PAGE_SIZE && off + n <= PAGE_SIZE
    ensures PageBytes([PageEntry(pages[0], off, n)]) == RunBytes(pages, off, n)
  {
    var e := PageEntry(pages[0], off, n);
    assert [e][..0] == [];
    assert PageBytes([e]) == EntryBytes(e);
    forall k | 0 <= k < n ensures EntryBytes(e)[k] == RunBytes(pages, off, n)[k] {
      assert (off + k) / PAGE_SIZE == 0 && (off + k) % PAGE_SIZE == off + k;
      assert RunBytes(pages, off, n)[k] == ByteAt(pages, off + k);
    }
  }

  lemma PageBytesAppend(entries: seq<PageEntry>, e: PageEntry)
    ensures PageBytes(entries + [e]) == PageBytes(entries) + EntryBytes(e)
  {
    var all := entries + [e];
    assert all[..|all| - 1] == entries && all[|all| - 1] == e;
  }

  /** The entries describe n bytes of the run from its offset on. */
  ghost predicate Covers(entries: seq<PageEntry>, pages: seq<nat>, off: nat, n: nat) {
    && off + n <= PAGE_SIZE * |pages|
    && (forall k :: 0 <= k < |entries| ==> EntryInPage(entries[k]))
    && PageBytes(entries) == RunBytes(pages, off, n)
  }

  /** One more entry extends the run. */
  lemma NextRun(entries: seq<PageEntry>, pages: seq<nat>, off: nat, head: nat, n: nat)
    requires off + head == PAGE_SIZE * |entries| && |entries| < |pages| && 1 <= n <= PAGE_SIZE
    requires Covers(entries, pages, off, head)
    ensures Covers(entries + [PageEntry(pages[|entries|], 0, n)], pages, off, head + n)
  {
    PageBytesAppend(entries, PageEntry(pages[|entries|], 0, n));
    ExtendRun(pages, off, |entries|, head, n);
  }

  // Mapping and releasing

  /** What get_user_pages_fast returns: an error code, or the pages it pinned, perhaps not all. */
  datatype Pinning = PinError(code: int) | Pinned(pages: seq<nat>)

  /** vmalloc_to_page of a frame of the kernel buffer. */
  datatype Lookup = NotMapped | At(page: nat)

  /** The first n frames of the range are all mapped. */
  predicate AllMapped(lookup: nat -> Lookup, first: nat, n: int) {
    forall i :: 0 <= i < n ==> FrameMapped(lookup, first, i)
  }

  predicate FrameMapped(lookup: nat -> Lookup, first: nat, i: nat) {
    lookup(first + i) != NotMapped
  }

  predicate IsFrame(lookup: nat -> Lookup, first: nat, i: nat, page: nat) {
    lookup(first + i) == At(page)
  }

  function ExpectedKernelResult(lookup: nat -> Lookup, start: u64, count: nat, maxPages: int)
    : (rc: int)
    ensures start + count >= 0x1_0000_0000_0000_0000 ==> rc == -EINVAL
    ensures start + count < 0x1_0000_0000_0000_0000 ==>
              && (rc == 0 <==> count == 0)
              && (rc == -EINVAL <==> count > 0 && FramesOf(start, count) > maxPages)
              && (rc == -ENOMEM <==>
                    && count > 0 && FramesOf(start, count) <= maxPages
                    && exists i :: 0 <= i < FramesOf(start, count)
                                   && !FrameMapped(lookup, FirstFrame(start), i))
              && (rc > 0 ==> rc == FramesOf(start, count))
  {
    assert count > 0 ==> FramesOf(start, count) >= 1;
    if start + count >= 0x1_0000_0000_0000_0000 then -EINVAL
    else if count == 0 then 0
    else if FramesOf(start, count) > maxPages then -EINVAL
    else if !AllMapped(lookup, FirstFrame(start), FramesOf(start, count)) then -ENOMEM
    else FramesOf(start, count)
  }

  /** What sgm_get_user_pages returns: the number of pages, or a negative error. */
  function ExpectedResult(start: u64, count: nat, maxPages: int, outcome: Pinning): (rc: int)
    ensures start + count >= 0x1_0000_0000_0000_0000 ==> rc == -EINVAL
    ensures start + count < 0x1_0000_0000_0000_0000 ==>
              && (rc == 0 <==> count == 0)
              && (rc == -EINVAL <==> count > 0 && FramesOf(start, count) > maxPages)
              && (rc == -ENOMEM <==>
                    && count > 0 && FramesOf(start, count) <= maxPages
                    && (outcome.PinError? || |outcome.pages| < FramesOf(start, count)))
              && (rc > 0 ==> rc == FramesOf(start, count))
  {
    assert count > 0 ==> FramesOf(start, count) >= 1;
    if start + count >= 0x1_0000_0000_0000_0000 then -EINVAL
    else if count == 0 then 0
    else if FramesOf(start, count) > maxPages then -EINVAL
    else if outcome.PinError? || |outcome.pages| < FramesOf(start, count) then -ENOMEM
    else FramesOf(start, count)
  }

  /** The references the kernel holds on pages, and the pages marked dirty. */
  class PageTable {
    var refs: multiset<nat>
    var dirty: set<nat>

    constructor ()
      ensures refs == multiset{} && dirty == {}
    {
      refs := multiset{};
      dirty := {};
    }

    method Pin(pages: seq<nat>)
      modifies this`refs
      ensures refs == old(refs) + multiset(pages)
    {
      refs := refs + multiset(pages);
    }

    method PutPage(page: nat)
      requires page in refs
      modifies this`refs
      ensures refs == old(refs) - multiset{page}
    {
      refs := refs - multiset{page};
    }

    method SetPageDirty(page: nat)
      modifies this`dirty
      ensures dirty == old(dirty) + {page}
    {
      dirty := dirty + {page};
    }
  }

  /** Byte k of the range starting at `start` is the given one: in the page of its own frame, at its
      own offset. */
  ghost predicate IsByteOf(b: PageByte, pages: seq<nat>, start: u64, k: nat) {
    var frame := (start + k) / PAGE_SIZE - FirstFrame(start);
    frame < |pages| && b == PageByte(pages[frame], (start + k) % PAGE_SIZE)
  }

  predicate EntryInPage(e: PageEntry) {
    1 <= e.length && e.offset + e.length <= PAGE_SIZE
  }

  /** The entries, one for each page, describe exactly the bytes start .. start + count - 1. */
  ghost predicate DescribesRange(entries: seq<PageEntry>, pages: seq<nat>, start: u64, count: nat) {
    && |entries| == |pages|
    && (forall i :: 0 <= i < |entries| ==> EntryInPage(entries[i]))
    && |PageBytes(entries)| == count
    && forall k :: 0 <= k < count ==> IsByteOf(PageBytes(entries)[k], pages, start, k)
  }

  /** A run of pages seen from the address it starts at. */
  lemma RunIsRange(entries: seq<PageEntry>, pages: seq<nat>, start: u64, count: nat)
    requires start % PAGE_SIZE + count <= PAGE_SIZE * |pages| && |entries| == |pages|
    requires forall i :: 0 <= i < |entries| ==> EntryInPage(entries[i])
    requires PageBytes(entries) == RunBytes(pages, start % PAGE_SIZE, count)
    ensures DescribesRange(entries, pages, start, count)
  {
    forall k | 0 <= k < count ensures IsByteOf(PageBytes(entries)[k], pages, start, k) {
      var at := start % PAGE_SIZE + k;
      assert start + k == PAGE_SIZE * (start / PAGE_SIZE) + at;
      assert (start + k) / PAGE_SIZE == start / PAGE_SIZE + at / PAGE_SIZE;
      assert (start + k) % PAGE_SIZE == at % PAGE_SIZE;
      assert PageBytes(entries)[k] == ByteAt(pages, at);
    }
  }

  class SgMapper {
    var sgl: array<PageEntry>
    var pages: array<nat>
    var maxPages: int
    var mappedPages: int

    ghost predicate Valid()
      reads this
    {
      maxPages >= 2 && sgl.Length == pages.Length == maxPages && 0 <= mappedPages <= maxPages
    }

    /** sg_create_mapper with a successful allocation; the page count must fit a C int. */
    constructor Create(maxLen: nat)
      requires 0 < maxLen < 0x7FF_FFFF_E000
      ensures Valid() && fresh(sgl) && fresh(pages)
      ensures maxPages == maxLen / PAGE_SIZE + 2 && mappedPages == 0
    {
      maxPages := maxLen / PAGE_SIZE + 2;
      pages := new nat[maxLen / PAGE_SIZE + 2];
      sgl := new PageEntry[maxLen / PAGE_SIZE + 2];
      mappedPages := 0;
    }

    /** Entry i: n bytes from the start of its page. */
    method SetPage(i: nat, n: nat, ghost run: seq<nat>, ghost off: nat, ghost head: nat)
      requires Valid() && i < |run| <= maxPages && run == pages[..|run|]
      requires off + head == PAGE_SIZE * i && 1 <= n <= PAGE_SIZE
      requires Covers(sgl[..i], run, off, head)
      modifies sgl
      ensures Covers(sgl[..i + 1], run, off, head + n)
    {
      NextRun(sgl[..i], run, off, head, n);
      sgl[i] := PageEntry(pages[i], 0, n);
      assert sgl[..i + 1] == old(sgl[..i]) + [sgl[i]];
    }

    /** Several pages: the first from its offset on, whole pages, and the rest in the last one. The
        asserts are the source's BUG_ONs. */
    method PopulateMany(nr: nat, off: nat, count: nat)
      requires Valid()
      requires 1 < nr <= maxPages && off < PAGE_SIZE
      requires PAGE_SIZE * (nr - 1) < off + count <= PAGE_SIZE * nr
      modifies sgl
      ensures Covers(sgl[..nr], pages[..nr], off, count)
    {
      ghost var run := pages[..nr];
      sgl[0] := PageEntry(pages[0], off, PAGE_SIZE - off);
      FirstRun(run, off, PAGE_SIZE - off);
      assert sgl[..1] == [sgl[0]];
      var remaining := count - (PAGE_SIZE - off);
      var i := 1;
      while i < nr - 1
        invariant 1 <= i <= nr - 1
        invariant off + (count - remaining) == PAGE_SIZE * i
        invariant Covers(sgl[..i], run, off, count - remaining)
      {
        assert remaining >= PAGE_SIZE;
        SetPage(i, PAGE_SIZE, run, off, count - remaining);
        remaining := remaining - PAGE_SIZE;
        i := i + 1;
      }
      assert remaining <= PAGE_SIZE;
      SetPage(i, remaining, run, off, count - remaining);
    }

    /** The part common to sgm_get_user_pages and sgm_kernel_pages: one entry for each page. */
    method Populate(nr: nat, start: u64, count: nat)
      requires Valid()
      requires 1 <= nr <= maxPages && 1 <= count
      requires PAGE_SIZE * (nr - 1) < start % PAGE_SIZE + count <= PAGE_SIZE * nr
      modifies sgl
      ensures DescribesRange(sgl[..nr], pages[..nr], start, count)
    {
      var off := start % PAGE_SIZE;
      if nr > 1 {
        PopulateMany(nr, off, count);
      } else {
        sgl[0] := PageEntry(pages[0], off, count);
        FirstRun(pages[..nr], off, count);
        assert sgl[..1] == [sgl[0]];
      }
      RunIsRange(sgl[..nr], pages[..nr], start, count);
    }

    /** get_user_pages_fast: pins pages and stores them in the array. */
    method GetUserPagesFast(k: PageTable, outcome: Pinning) returns (rc: int)
      requires outcome.Pinned? ==> |outcome.pages| <= pages.Length
      requires outcome.PinError? ==> outcome.code < 0
      modifies pages, k`refs
      ensures outcome.PinError? ==> rc == outcome.code && k.refs == old(k.refs)
      ensures outcome.Pinned? ==> rc == |outcome.pages| && pages[..rc] == outcome.pages
                                  && k.refs == old(k.refs) + multiset(outcome.pages)
    {
      match outcome
      case PinError(code) =>
        rc := code;
      case Pinned(pinned) =>
        rc := |pinned|;
        forall i | 0 <= i < rc {
          pages[i] := pinned[i];
        }
        k.Pin(pinned);
    }

    static lemma PutNext(refs: multiset<nat>, ps: seq<nat>, i: nat)
      requires multiset(ps) <= refs && i < |ps|
      ensures ps[i] in refs - multiset(ps[..i])
      ensures refs - multiset(ps[..i]) - multiset{ps[i]} == refs - multiset(ps[..i + 1])
    {
      assert ps == ps[..i + 1] + ps[i + 1..];
      assert ps[..i + 1] == ps[..i] + [ps[i]];
    }

    /** Put page i, with the pages before it put already. */
    static method PutOne(
      k: PageTable, page: nat, ghost refs: multiset<nat>, ghost ps: seq<nat>, ghost i: nat)
      requires i < |ps| && page == ps[i] && multiset(ps) <= refs
      requires k.refs == refs - multiset(ps[..i])
      modifies k`refs
      ensures k.refs == refs - multiset(ps[..i + 1])
    {
      PutNext(refs, ps, i);
      k.PutPage(page);
    }

    /** Put every mapped page once and remember that none is mapped. */
    method PutAll(k: PageTable)
      requires Valid() && multiset(pages[..mappedPages]) <= k.refs
      modifies this`mappedPages, k`refs
      ensures Valid() && mappedPages == 0
      ensures k.refs == old(k.refs) - multiset(old(pages[..mappedPages]))
    {
      var i := 0;
      ghost var refs, ps := k.refs, pages[..mappedPages];
      while i < mappedPages
        invariant Valid() && mappedPages == old(mappedPages) && 0 <= i <= mappedPages
        invariant k.refs == refs - multiset(ps[..i])
      {
        PutOne(k, pages[i], refs, ps, i);
        i := i + 1;
      }
      assert ps[..i] == ps;
      mappedPages := 0;
    }

    /** sgm_dirty_pages */
    method DirtyAll(k: PageTable)
      requires Valid()
      modifies k`dirty
      ensures k.dirty == old(k.dirty) + set p | p in pages[..mappedPages]
    {
      var i := 0;
      while i < mappedPages
        invariant 0 <= i <= mappedPages
        invariant k.dirty == old(k.dirty) + set p | p in pages[..i]
      {
        assert pages[..i + 1] == pages[..i] + [pages[i]];
        k.SetPageDirty(pages[i]);
        i := i + 1;
      }
    }

    /** sgm_put_user_pages */
    method PutUserPages(k: PageTable, dirtied: bool)
      requires Valid() && multiset(pages[..mappedPages]) <= k.refs
      modifies this`mappedPages, k
      ensures Valid() && mappedPages == 0
      ensures k.refs == old(k.refs) - multiset(old(pages[..mappedPages]))
      ensures k.dirty
              == old(k.dirty) + if dirtied then set p | p in old(pages[..mappedPages]) else {}
    {
      if dirtied {
        DirtyAll(k);
      }
      PutAll(k);
    }

    /** sgm_get_user_pages. The page count is a C int, so longer ranges are not modelled. */
    method GetUserPages(k: PageTable, start: u64, count: nat, outcome: Pinning) returns (rc: int)
      requires Valid() && mappedPages == 0
      requires count < 0x7FF_FFFF_E000
      requires outcome.Pinned? && count > 0 ==> |outcome.pages| <= FramesOf(start, count)
      requires outcome.PinError? ==> outcome.code < 0
      modifies this`mappedPages, sgl, pages, k`refs
      ensures Valid()
      ensures rc == ExpectedResult(start, count, maxPages, outcome)
      ensures rc > 0 ==> mappedPages == rc && pages[..rc] == outcome.pages
                         && DescribesRange(sgl[..rc], pages[..rc], start, count)
                         && k.refs == old(k.refs) + multiset(pages[..rc])
      ensures rc <= 0 ==> mappedPages == 0 && k.refs == old(k.refs)
    {
      WrapsIff(start, count);
      if Wrap64(start + count) < start {
        return -EINVAL;
      }
      var nr := NrPages(start, count);
      if count == 0 {
        NrPagesEmpty(start);
      } else {
        NrPagesBound(start, count);
      }
      if nr > maxPages {
        return -EINVAL;
      }
      if count == 0 {
        return 0;
      }
      rc := GetUserPagesFast(k, outcome);
      if rc < nr {
        if rc > 0 {
          mappedPages := rc;
        }
        PutAll(k);
        return -ENOMEM;
      }
      assert rc == nr;
      mappedPages := rc;
      Populate(nr, start, count);
    }

    /** The loop of sgm_kernel_pages over the frames of the buffer */
    method LookupPages(lookup: nat -> Lookup, first: nat, nr: nat) returns (found: bool)
      requires Valid() && nr <= maxPages
      modifies pages
      ensures found == AllMapped(lookup, first, nr)
      ensures found ==> forall i :: 0 <= i < nr ==> IsFrame(lookup, first, i, pages[i])
    {
      var i := 0;
      while i < nr
        invariant 0 <= i <= nr
        invariant AllMapped(lookup, first, i)
        invariant forall k :: 0 <= k < i ==> IsFrame(lookup, first, k, pages[k])
      {
        match lookup(first + i)
        case NotMapped =>
          assert !FrameMapped(lookup, first, i);
          return false;
        case At(page) =>
          pages[i] := page;
          i := i + 1;
      }
      found := true;
    }

    /** sgm_kernel_pages: pages of a vmalloc()ed buffer, looked up one by one; no references are
        taken. */
    method KernelPages(lookup: nat -> Lookup, start: u64, count: nat) returns (rc: int)
      requires Valid() && mappedPages == 0
      requires count < 0x7FF_FFFF_E000
      modifies this`mappedPages, sgl, pages
      ensures Valid()
      ensures rc == ExpectedKernelResult(lookup, start, count, maxPages)
      ensures rc > 0 ==>
                mappedPages == rc && DescribesRange(sgl[..rc], pages[..rc], start, count)
                && forall i :: 0 <= i < rc ==> IsFrame(lookup, FirstFrame(start), i, pages[i])
      ensures rc <= 0 ==> mappedPages == 0
    {
      WrapsIff(start, count);
      if Wrap64(start + count) < start {
        return -EINVAL;
      }
      var nr := NrPages(start, count);
      if count == 0 {
        NrPagesEmpty(start);
      } else {
        NrPagesBound(start, count);
      }
      if nr > maxPages {
        return -EINVAL;
      }
      if count == 0 {
        return 0;
      }
      var found := LookupPages(lookup, FirstFrame(start), nr);
      if !found {
        mappedPages := 0;
        return -ENOMEM;
      }
      mappedPages := nr;
      Populate(nr, start, count);
      rc := nr;
    }

    /** sg_destroy_mapper; the assert is its BUG_ON. */
    method Destroy()
      requires mappedPages == 0
    {
      assert !(mappedPages > 0);
    }
  }

  // A buffer of whole pages

  lemma {:induction false} PageBytesAtMost(entries: seq<PageEntry>)
    requires forall i :: 0 <= i < |entries| ==> EntryInPage(entries[i])
    ensures |PageBytes(entries)| <= PAGE_SIZE * |entries|
  {
    if entries != [] {
      PageBytesAtMost(entries[..|entries| - 1]);
    }
  }

  /** Entries that describe as many bytes as that many pages have are whole pages, and entry i
      begins with byte PAGE_SIZE * i. */
  lemma {:induction false} FullEntries(entries: seq<PageEntry>, i: nat)
    requires forall k :: 0 <= k < |entries| ==> EntryInPage(entries[k])
    requires |PageBytes(entries)| == PAGE_SIZE * |entries|
    requires i < |entries|
    ensures entries[i].offset == 0 && entries[i].length == PAGE_SIZE
    ensures PageBytes(entries)[PAGE_SIZE * i] == PageByte(entries[i].page, 0)
  {
    var front, last := entries[..|entries| - 1], entries[|entries| - 1];
    PageBytesAtMost(front);
    assert |PageBytes(front)| == PAGE_SIZE * |front| && last.length == PAGE_SIZE;
    if i < |front| {
      FullEntries(front, i);
      assert PageBytes(entries)[PAGE_SIZE * i] == PageBytes(front)[PAGE_SIZE * i];
    } else {
      assert PageBytes(entries)[PAGE_SIZE * i] == EntryBytes(last)[0];
    }
  }

  /** A range of whole pages from a page boundary: entry i is page i, from its start to its end. */
  lemma WholePages(entries: seq<PageEntry>, pages: seq<nat>, start: u64, i: nat)
    requires DescribesRange(entries, pages, start, PAGE_SIZE * |pages|)
    requires start % PAGE_SIZE == 0 && i < |pages|
    ensures entries[i] == PageEntry(pages[i], 0, PAGE_SIZE)
  {
    FullEntries(entries, i);
    assert IsByteOf(PageBytes(entries)[PAGE_SIZE * i], pages, start, PAGE_SIZE * i);
    assert start == PAGE_SIZE * (start / PAGE_SIZE);
    assert (start + PAGE_SIZE * i) / PAGE_SIZE == start / PAGE_SIZE + i;
  }

  /** A mapper created for exactly `count` bytes is never too small, wherever the buffer starts:
      mapping fails only for a range that wraps around or when not all pages could be pinned. */
  lemma MapperSuffices(start: u64, count: nat, outcome: Pinning)
    requires 0 < count < 0x7FF_FFFF_E000
    requires outcome.Pinned? ==> |outcome.pages| <= FramesOf(start, count)
    ensures ExpectedResult(start, count, count / PAGE_SIZE + 2, outcome)
            == if start + count >= 0x1_0000_0000_0000_0000 then -EINVAL
               else if outcome.Pinned? && |outcome.pages| == FramesOf(start, count)
               then FramesOf(start, count)
               else -ENOMEM
    ensures start + count < 0x1_0000_0000_0000_0000 ==> FramesOf(start, count) >= 1
  {
    if start + count < 0x1_0000_0000_0000_0000 {
      NrPagesBound(start, count);
    }
  }

  /** The page references over the life of one user transfer: transfer_create maps the pages,
      transfer_destroy puts them (dirty if the device wrote them) and destroys the mapper. When the
      mapping fails nothing is held; otherwise every pinned page is released exactly once. */
  method TransferPages(k: PageTable, start: u64, count: nat, dirToDev: bool, outcome: Pinning)
    returns (rc: int)
    requires 0 < count < 0x7FF_FFFF_E000
    requires outcome.Pinned? ==> |outcome.pages| <= FramesOf(start, count)
    requires outcome.PinError? ==> outcome.code < 0
    modifies k
    ensures k.refs == old(k.refs)
    ensures rc > 0 <==> start + count < 0x1_0000_0000_0000_0000
                        && outcome.Pinned? && |outcome.pages| == FramesOf(start, count)
    ensures k.dirty == old(k.dirty) + if rc > 0 && !dirToDev then set p | p in outcome.pages else {}
  {
    var sgm := new SgMapper.Create(count);
    MapperSuffices(start, count, outcome);
    rc := sgm.GetUserPages(k, start, count, outcome);
    if rc > 0 {
      assert sgm.pages[..rc] == outcome.pages;
      sgm.PutUserPages(k, !dirToDev);
      sgm.mappedPages := 0;
      sgm.Destroy();
    }
  }
}
