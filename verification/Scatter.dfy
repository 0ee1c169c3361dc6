/**
 The meaning of a transfer: mapped scatter lists as host byte addresses, descriptors as byte
 moves, and the coalescing rule that turns entries into descriptors.
 */
module Scatter {
  import opened Words
  import opened Descriptors

  const DESC_MAX_BYTES := 0x3_FFFF

  /** sg_dma_address and sg_dma_len of one mapped entry */
  datatype SgEntry = SgEntry(addr: u64, len: u32)

  datatype ByteMove = ByteMove(src: int, dst: int)

  // Byte addresses

  /** n consecutive byte addresses from addr. */
  function Span(addr: u64, n: nat): (s: seq<int>)
    ensures |s| == n
  {
    seq(n, k requires 0 <= k < n => Wrap64(addr + k))
  }

  lemma SpanConcat(addr: u64, m: nat, n: nat)
    ensures Span(addr, m) + Span(Wrap64(addr + m), n) == Span(addr, m + n)
  {
    var s, t := Span(addr, m) + Span(Wrap64(addr + m), n), Span(addr, m + n);
    forall k | 0 <= k < m + n ensures s[k] == t[k] {
      if k >= m {
        Wrap64Add(addr + m, k - m);
      }
    }
  }

  /** Host byte addresses of entries lo..hi, in order. */
  function HostRange(sgl: seq<SgEntry>, lo: nat, hi: nat): seq<int>
    requires hi <= |sgl|
    decreases hi
  {
    if hi <= lo then [] else HostRange(sgl, lo, hi - 1) + Span(sgl[hi - 1].addr, sgl[hi - 1].len)
  }

  function HostBytes(sgl: seq<SgEntry>): seq<int> {
    HostRange(sgl, 0, |sgl|)
  }

  function SumLen(sgl: seq<SgEntry>, lo: nat, hi: nat): nat
    requires hi <= |sgl|
    decreases hi
  {
    if hi <= lo then 0 else SumLen(sgl, lo, hi - 1) + sgl[hi - 1].len
  }

  /** The same sum as transfer_build keeps it, in an unsigned int. */
  function RunLen(sgl: seq<SgEntry>, lo: nat, hi: nat): u32
    requires hi <= |sgl|
    decreases hi
  {
    if hi <= lo then 0 else Wrap32(RunLen(sgl, lo, hi - 1) + sgl[hi - 1].len)
  }

  lemma {:induction false} RunLenIsSum(sgl: seq<SgEntry>, lo: nat, hi: nat)
    requires hi <= |sgl|
    ensures RunLen(sgl, lo, hi) == Wrap32(SumLen(sgl, lo, hi))
    decreases hi
  {
    if hi > lo {
      RunLenIsSum(sgl, lo, hi - 1);
      Wrap32Add(SumLen(sgl, lo, hi - 1), sgl[hi - 1].len);
    }
  }

  lemma {:induction false} HostRangeLength(sgl: seq<SgEntry>, lo: nat, hi: nat)
    requires hi <= |sgl|
    ensures |HostRange(sgl, lo, hi)| == SumLen(sgl, lo, hi)
    decreases hi
  {
    if hi > lo {
      HostRangeLength(sgl, lo, hi - 1);
    }
  }

  lemma {:induction false} HostRangeSplit(sgl: seq<SgEntry>, lo: nat, mid: nat, hi: nat)
    requires lo <= mid <= hi <= |sgl|
    ensures HostRange(sgl, lo, hi) == HostRange(sgl, lo, mid) + HostRange(sgl, mid, hi)
    decreases hi
  {
    if mid < hi {
      HostRangeSplit(sgl, lo, mid, hi - 1);
    }
  }

  /** Byte k of entry i comes behind all bytes of the entries before it. */
  lemma {:induction false} HostByteAt(sgl: seq<SgEntry>, hi: nat, i: nat, k: nat)
    requires i < hi <= |sgl| && k < sgl[i].len
    ensures var at := SumLen(sgl, 0, i) + k;
            && at < |HostRange(sgl, 0, hi)|
            && HostRange(sgl, 0, hi)[at] == (sgl[i].addr + k) % 0x1_0000_0000_0000_0000
    decreases hi
  {
    HostRangeLength(sgl, 0, hi - 1);
    if i < hi - 1 {
      HostByteAt(sgl, hi - 1, i, k);
    } else {
      Wrap64IsMod(sgl[i].addr + k);
      assert HostRange(sgl, 0, hi)[SumLen(sgl, 0, i) + k] == Span(sgl[i].addr, sgl[i].len)[k];
    }
  }

  // Moves

  /** Endpoint address of byte k: fixed in non-incremental mode. */
  function EpAt(ep: u64, k: nat, fixed: bool): u64 {
    if fixed then ep else Wrap64(ep + k)
  }

  function Orient(host: int, ep: int, dirToDev: bool): ByteMove {
    if dirToDev then ByteMove(host, ep) else ByteMove(ep, host)
  }

  /** One plain copy between the given host bytes and the endpoint bytes from ep. */
  function PlainCopy(host: seq<int>, ep: u64, dirToDev: bool, fixed: bool): (s: seq<ByteMove>)
    ensures |s| == |host|
  {
    seq(|host|, k requires 0 <= k < |host| => Orient(host[k], EpAt(ep, k, fixed), dirToDev))
  }

  /** Byte k goes from host memory to the endpoint, or from the endpoint to host memory. */
  lemma CopyDirection(host: seq<int>, ep: u64, dirToDev: bool, fixed: bool, k: nat)
    requires k < |host|
    ensures var at := if fixed then ep as int else (ep + k) % 0x1_0000_0000_0000_0000;
            PlainCopy(host, ep, dirToDev, fixed)[k]
            == if dirToDev then ByteMove(host[k], at) else ByteMove(at, host[k])
  {
    Wrap64IsMod(ep + k);
  }

  lemma EpAtAdd(ep: u64, a: nat, b: nat, fixed: bool)
    ensures EpAt(EpAt(ep, a, fixed), b, fixed) == EpAt(ep, a + b, fixed)
  {
    Wrap64Add(ep + a, b);
  }

  lemma PlainCopyConcat(h1: seq<int>, h2: seq<int>, ep: u64, dirToDev: bool, fixed: bool)
    ensures PlainCopy(h1 + h2, ep, dirToDev, fixed)
            == PlainCopy(h1, ep, dirToDev, fixed)
               + PlainCopy(h2, EpAt(ep, |h1|, fixed), dirToDev, fixed)
  {
    forall k | 0 <= k < |h2|
      ensures EpAt(ep, |h1| + k, fixed) == EpAt(EpAt(ep, |h1|, fixed), k, fixed)
    {
      EpAtAdd(ep, |h1|, k, fixed);
    }
  }

  /** Byte k of a descriptor goes from its source to its destination. In fixed mode the side in the
      FPGA, which the direction of the engine decides, stays where it is. */
  function MoveAt(d: Desc, k: nat, dirToDev: bool, fixed: bool): ByteMove {
    ByteMove(EpAt(d.Src(), k, fixed && !dirToDev), EpAt(d.Dst(), k, fixed && dirToDev))
  }

  /** The bytes one descriptor moves. */
  function Moves(d: Desc, dirToDev: bool, fixed: bool): (s: seq<ByteMove>)
    ensures |s| == d.bytes
  {
    seq(d.bytes, k requires 0 <= k < d.bytes => MoveAt(d, k, dirToDev, fixed))
  }

  /** In plain terms: from source to destination, except for the fixed side. */
  lemma SourceToDestination(d: Desc, dirToDev: bool, fixed: bool, k: nat)
    requires k < d.bytes
    ensures var src, dst := (d.Src() + k) % 0x1_0000_0000_0000_0000,
                            (d.Dst() + k) % 0x1_0000_0000_0000_0000;
            Moves(d, dirToDev, fixed)[k]
            == if !fixed then ByteMove(src, dst)
               else if dirToDev then ByteMove(src, d.Dst())
               else ByteMove(d.Src(), dst)
  {
    Wrap64IsMod(d.Src() + k);
    Wrap64IsMod(d.Dst() + k);
  }

  /** The bytes a sequence of executed descriptors moves, in order. */
  function Meaning(ds: seq<Desc>, dirToDev: bool, fixed: bool): seq<ByteMove> {
    if ds == [] then []
    else Meaning(ds[..|ds| - 1], dirToDev, fixed) + Moves(ds[|ds| - 1], dirToDev, fixed)
  }

  // Coalescing

  /** Entry i begins where entry i - 1 ends. */
  predicate Contiguous(sgl: seq<SgEntry>, i: nat)
    requires 0 < i < |sgl|
  {
    sgl[i].addr == Wrap64(sgl[i - 1].addr + sgl[i - 1].len)
  }

  /** Must a new descriptor start at entry i when the current one started at entry s? Running
      lengths are 32-bit. */
  ghost predicate StartsNew(sgl: seq<SgEntry>, s: nat, i: nat, onePerEntry: bool)
    requires s < i < |sgl|
  {
    || onePerEntry
    || !Contiguous(sgl, i)
    || RunLen(sgl, s, i) > DESC_MAX_BYTES - PAGE_SIZE
  }

  /** No new descriptor is needed inside entries lo..hi. */
  ghost predicate IsGroup(sgl: seq<SgEntry>, lo: nat, hi: nat, onePerEntry: bool) {
    lo < hi <= |sgl| && forall i :: lo < i < hi ==> !StartsNew(sgl, lo, i, onePerEntry)
  }

  /** Entries cuts[j]..cuts[j+1] make up descriptor j; it starts where it must. */
  ghost predicate GroupAt(sgl: seq<SgEntry>, cuts: seq<nat>, j: nat, onePerEntry: bool)
    requires j + 1 < |cuts|
  {
    && IsGroup(sgl, cuts[j], cuts[j + 1], onePerEntry)
    && (j > 0 ==> cuts[j - 1] < cuts[j] && StartsNew(sgl, cuts[j - 1], cuts[j], onePerEntry))
  }

  /** Descriptor boundaries fall exactly where one must. */
  ghost predicate CutWhereNeeded(sgl: seq<SgEntry>, cuts: seq<nat>, onePerEntry: bool) {
    && |cuts| >= 1 && cuts[0] == 0
    && (forall j :: 0 <= j < |cuts| ==> cuts[j] <= |sgl|)
    && (forall j :: 0 <= j < |cuts| - 1 ==> GroupAt(sgl, cuts, j, onePerEntry))
  }

  /** Descriptor d carries entries lo..hi. */
  ghost predicate Carries(d: Desc, sgl: seq<SgEntry>, lo: nat, hi: nat, dirToDev: bool) {
    && lo < hi <= |sgl|
    && d.HostAddr(dirToDev) == sgl[lo].addr
    && d.bytes == RunLen(sgl, lo, hi)
  }

  /** The endpoint address at which descriptor j starts, or the one after the last descriptor. */
  function EpOf(table: seq<Desc>, next: u64, j: nat, dirToDev: bool): u64
    requires j <= |table|
  {
    if j < |table| then table[j].EpAddr(dirToDev) else next
  }

  /** Descriptor j carries its group, and the endpoint address goes on after it. */
  ghost predicate LaidAt(
    table: seq<Desc>, sgl: seq<SgEntry>, cuts: seq<nat>, next: u64, dirToDev: bool, fixed: bool,
    j: nat)
    requires j < |table| && |cuts| == |table| + 1
  {
    && Carries(table[j], sgl, cuts[j], cuts[j + 1], dirToDev)
    && EpOf(table, next, j + 1, dirToDev)
       == EpAt(table[j].EpAddr(dirToDev), table[j].bytes, fixed)
  }

  /** Every descriptor carries its group; endpoint addresses run from ep up to next. */
  ghost predicate Laid(
    table: seq<Desc>, sgl: seq<SgEntry>, cuts: seq<nat>, ep: u64, next: u64,
    dirToDev: bool, fixed: bool)
  {
    && |cuts| == |table| + 1
    && EpOf(table, next, 0, dirToDev) == ep
    && forall j :: 0 <= j < |table| ==> LaidAt(table, sgl, cuts, next, dirToDev, fixed, j)
  }

  // Building the table entry by entry

  /** The entries at which descriptors start, among entries 0..i. */
  ghost function Starts(sgl: seq<SgEntry>, i: nat, onePerEntry: bool): (cuts: seq<nat>)
    requires i < |sgl|
    ensures 0 < |cuts| <= i + 1 && cuts[|cuts| - 1] <= i
  {
    if i == 0 then [0]
    else
      var cuts := Starts(sgl, i - 1, onePerEntry);
      if StartsNew(sgl, cuts[|cuts| - 1], i, onePerEntry) then cuts + [i] else cuts
  }

  /** Closed groups, and one open group that need not be closed before entry i + 1. */
  ghost predicate OpenGroup(sgl: seq<SgEntry>, cuts: seq<nat>, i: nat, onePerEntry: bool) {
    && CutWhereNeeded(sgl, cuts, onePerEntry)
    && var s := cuts[|cuts| - 1];
       && s <= i < |sgl|
       && (forall k :: s < k <= i ==> !StartsNew(sgl, s, k, onePerEntry))
       && (|cuts| > 1 ==> cuts[|cuts| - 2] < s && StartsNew(sgl, cuts[|cuts| - 2], s, onePerEntry))
  }

  lemma CloseGroup(sgl: seq<SgEntry>, cuts: seq<nat>, i: nat, onePerEntry: bool)
    requires OpenGroup(sgl, cuts, i, onePerEntry)
    ensures CutWhereNeeded(sgl, cuts + [i + 1], onePerEntry)
  {
    var cuts' := cuts + [i + 1];
    forall j | 0 <= j < |cuts'| - 1 ensures GroupAt(sgl, cuts', j, onePerEntry) {
      assert j < |cuts| - 1 ==> GroupAt(sgl, cuts, j, onePerEntry);
    }
  }

  lemma {:induction false} StartsAreNeeded(sgl: seq<SgEntry>, i: nat, onePerEntry: bool)
    requires i < |sgl|
    ensures OpenGroup(sgl, Starts(sgl, i, onePerEntry), i, onePerEntry)
  {
    if i > 0 {
      StartsAreNeeded(sgl, i - 1, onePerEntry);
      CloseGroup(sgl, Starts(sgl, i - 1, onePerEntry), i - 1, onePerEntry);
    }
  }

  /** One more descriptor for the group that ends at hi. */
  lemma LayDescriptor(
    table: seq<Desc>, d: Desc, sgl: seq<SgEntry>, cuts: seq<nat>, hi: nat,
    ep: u64, cur: u64, dirToDev: bool, fixed: bool)
    requires Laid(table, sgl, cuts, ep, cur, dirToDev, fixed)
    requires Carries(d, sgl, cuts[|table|], hi, dirToDev) && d.EpAddr(dirToDev) == cur
    ensures Laid(table + [d], sgl, cuts + [hi], ep, EpAt(cur, d.bytes, fixed), dirToDev, fixed)
  {
    var table', cuts', next' := table + [d], cuts + [hi], EpAt(cur, d.bytes, fixed);
    forall j | 0 <= j < |table'| ensures LaidAt(table', sgl, cuts', next', dirToDev, fixed, j) {
      assert j < |table| ==> LaidAt(table, sgl, cuts, cur, dirToDev, fixed, j);
    }
  }

  /** Group boundaries of the whole list, with its end. */
  ghost function Cuts(sgl: seq<SgEntry>, onePerEntry: bool): seq<nat>
    requires |sgl| > 0
  {
    Starts(sgl, |sgl| - 1, onePerEntry) + [|sgl|]
  }

  /** Descriptor boundaries fall at entry i exactly when one must: at a discontinuity, at the size
      threshold, or when each entry has its own descriptor. */
  lemma CutsAreNeeded(sgl: seq<SgEntry>, onePerEntry: bool)
    requires |sgl| > 0
    ensures CutWhereNeeded(sgl, Cuts(sgl, onePerEntry), onePerEntry)
  {
    StartsAreNeeded(sgl, |sgl| - 1, onePerEntry);
    CloseGroup(sgl, Starts(sgl, |sgl| - 1, onePerEntry), |sgl| - 1, onePerEntry);
  }

  /** The table holds exactly one descriptor for each group of entries. */
  ghost predicate Coalesced(
    table: seq<Desc>, sgl: seq<SgEntry>, ep: u64, dirToDev: bool, fixed: bool, onePerEntry: bool)
    requires |sgl| > 0
  {
    exists next: u64 :: Laid(table, sgl, Cuts(sgl, onePerEntry), ep, next, dirToDev, fixed)
  }

  ghost predicate GroupFits(sgl: seq<SgEntry>, cuts: seq<nat>, j: nat)
    requires j + 1 < |cuts|
  {
    cuts[j + 1] <= |sgl| ==> SumLen(sgl, cuts[j], cuts[j + 1]) < 0x1_0000_0000
  }

  /** The 32-bit running length of no group overflows. */
  ghost predicate NoOverflow(sgl: seq<SgEntry>, cuts: seq<nat>) {
    forall j :: 0 <= j < |cuts| - 1 ==> GroupFits(sgl, cuts, j)
  }

  lemma EndOfSpan(addr: u64, n: nat, e: SgEntry)
    requires e.addr == Wrap64(addr + n)
    ensures Span(addr, n) + Span(e.addr, e.len) == Span(addr, n + e.len)
    ensures Wrap64(addr + (n + e.len)) == Wrap64(e.addr + e.len)
  {
    SpanConcat(addr, n, e.len);
    Wrap64Add(addr + n, e.len);
  }

  /** Contiguous entries form one span of host memory. */
  lemma {:induction false} GroupIsSpan(sgl: seq<SgEntry>, lo: nat, hi: nat)
    requires lo < hi <= |sgl|
    requires forall i :: lo < i < hi ==> Contiguous(sgl, i)
    ensures HostRange(sgl, lo, hi) == Span(sgl[lo].addr, SumLen(sgl, lo, hi))
    ensures Wrap64(sgl[lo].addr + SumLen(sgl, lo, hi)) == Wrap64(sgl[hi - 1].addr + sgl[hi - 1].len)
    decreases hi
  {
    if hi - 1 > lo {
      GroupIsSpan(sgl, lo, hi - 1);
      assert Contiguous(sgl, hi - 1);
    } else {
      assert HostRange(sgl, lo, hi - 1) == Span(sgl[lo].addr, 0);
    }
    EndOfSpan(sgl[lo].addr, SumLen(sgl, lo, hi - 1), sgl[hi - 1]);
  }

  lemma MovesAreCopy(d: Desc, dirToDev: bool, fixed: bool)
    ensures Moves(d, dirToDev, fixed)
            == PlainCopy(Span(d.HostAddr(dirToDev), d.bytes), d.EpAddr(dirToDev), dirToDev, fixed)
  {
    var s, t := Moves(d, dirToDev, fixed),
                PlainCopy(Span(d.HostAddr(dirToDev), d.bytes), d.EpAddr(dirToDev), dirToDev, fixed);
    forall k | 0 <= k < d.bytes ensures s[k] == t[k] {
      assert s[k] == MoveAt(d, k, dirToDev, fixed);
    }
  }

  lemma NoBreakIsContiguous(sgl: seq<SgEntry>, s: nat, hi: nat, onePerEntry: bool)
    requires s < hi <= |sgl|
    requires forall i :: s < i < hi ==> !StartsNew(sgl, s, i, onePerEntry)
    ensures forall i :: s < i < hi ==> Contiguous(sgl, i)
  {
    forall i | s < i < hi ensures Contiguous(sgl, i) {
      assert !StartsNew(sgl, s, i, onePerEntry);
    }
  }

  /** A descriptor that carries contiguous entries moves exactly their bytes. */
  lemma GroupMeaning(
    d: Desc, sgl: seq<SgEntry>, s: nat, hi: nat, dirToDev: bool, fixed: bool, onePerEntry: bool)
    requires s < hi <= |sgl|
    requires Carries(d, sgl, s, hi, dirToDev)
    requires SumLen(sgl, s, hi) < 0x1_0000_0000
    requires forall i :: s < i < hi ==> !StartsNew(sgl, s, i, onePerEntry)
    ensures Moves(d, dirToDev, fixed)
            == PlainCopy(HostRange(sgl, s, hi), d.EpAddr(dirToDev), dirToDev, fixed)
    ensures |HostRange(sgl, s, hi)| == d.bytes
  {
    NoBreakIsContiguous(sgl, s, hi, onePerEntry);
    RunLenIsSum(sgl, s, hi);
    MovesAreCopy(d, dirToDev, fixed);
    GroupIsSpan(sgl, s, hi);
  }

  /** One more descriptor extends the copy by the bytes of its group. */
  lemma AppendGroup(
    ds: seq<Desc>, d: Desc, sgl: seq<SgEntry>, lo: nat, hi: nat, ep: u64,
    dirToDev: bool, fixed: bool, onePerEntry: bool)
    requires Carries(d, sgl, lo, hi, dirToDev) && IsGroup(sgl, lo, hi, onePerEntry)
    requires SumLen(sgl, lo, hi) < 0x1_0000_0000
    requires Meaning(ds, dirToDev, fixed) == PlainCopy(HostRange(sgl, 0, lo), ep, dirToDev, fixed)
    requires d.EpAddr(dirToDev) == EpAt(ep, |HostRange(sgl, 0, lo)|, fixed)
    ensures Meaning(ds + [d], dirToDev, fixed)
            == PlainCopy(HostRange(sgl, 0, hi), ep, dirToDev, fixed)
    ensures EpAt(d.EpAddr(dirToDev), d.bytes, fixed) == EpAt(ep, |HostRange(sgl, 0, hi)|, fixed)
  {
    var before, group := HostRange(sgl, 0, lo), HostRange(sgl, lo, hi);
    GroupMeaning(d, sgl, lo, hi, dirToDev, fixed, onePerEntry);
    HostRangeSplit(sgl, 0, lo, hi);
    assert (ds + [d])[..|ds + [d]| - 1] == ds;
    PlainCopyConcat(before, group, ep, dirToDev, fixed);
    EpAtAdd(ep, |before|, |group|, fixed);
  }

  /** What is known after the first j descriptors: the bytes moved and the next endpoint address. */
  ghost predicate MovedPrefix(
    table: seq<Desc>, sgl: seq<SgEntry>, cuts: seq<nat>, ep: u64, next: u64,
    dirToDev: bool, fixed: bool, j: nat)
    requires j <= |table| && |cuts| == |table| + 1 && cuts[j] <= |sgl|
  {
    && Meaning(table[..j], dirToDev, fixed)
       == PlainCopy(HostRange(sgl, 0, cuts[j]), ep, dirToDev, fixed)
    && EpOf(table, next, j, dirToDev) == EpAt(ep, |HostRange(sgl, 0, cuts[j])|, fixed)
  }

  lemma MovedPrefixStep(
    table: seq<Desc>, sgl: seq<SgEntry>, cuts: seq<nat>, ep: u64, next: u64,
    dirToDev: bool, fixed: bool, onePerEntry: bool, j: nat)
    requires j < |table| && |cuts| == |table| + 1 && cuts[j] <= |sgl|
    requires GroupAt(sgl, cuts, j, onePerEntry) && GroupFits(sgl, cuts, j)
    requires LaidAt(table, sgl, cuts, next, dirToDev, fixed, j)
    requires MovedPrefix(table, sgl, cuts, ep, next, dirToDev, fixed, j)
    ensures MovedPrefix(table, sgl, cuts, ep, next, dirToDev, fixed, j + 1)
  {
    AppendGroup(table[..j], table[j], sgl, cuts[j], cuts[j + 1], ep, dirToDev, fixed, onePerEntry);
    assert table[..j + 1] == table[..j] + [table[j]];
  }

  lemma {:induction false} PrefixMeaning(
    table: seq<Desc>, sgl: seq<SgEntry>, cuts: seq<nat>, ep: u64, next: u64,
    dirToDev: bool, fixed: bool, onePerEntry: bool, j: nat)
    requires CutWhereNeeded(sgl, cuts, onePerEntry)
    requires Laid(table, sgl, cuts, ep, next, dirToDev, fixed)
    requires NoOverflow(sgl, cuts)
    requires j <= |table|
    ensures MovedPrefix(table, sgl, cuts, ep, next, dirToDev, fixed, j)
    decreases j
  {
    if j == 0 {
      assert HostRange(sgl, 0, cuts[0]) == [];
    } else {
      PrefixMeaning(table, sgl, cuts, ep, next, dirToDev, fixed, onePerEntry, j - 1);
      assert GroupAt(sgl, cuts, j - 1, onePerEntry) && GroupFits(sgl, cuts, j - 1);
      assert LaidAt(table, sgl, cuts, next, dirToDev, fixed, j - 1);
      MovedPrefixStep(table, sgl, cuts, ep, next, dirToDev, fixed, onePerEntry, j - 1);
    }
  }

  // Lengths

  function SumBytes(ds: seq<Desc>): nat {
    if ds == [] then 0 else SumBytes(ds[..|ds| - 1]) + ds[|ds| - 1].bytes
  }

  lemma {:induction false} MeaningLength(ds: seq<Desc>, dirToDev: bool, fixed: bool)
    ensures |Meaning(ds, dirToDev, fixed)| == SumBytes(ds)
  {
    if ds != [] {
      MeaningLength(ds[..|ds| - 1], dirToDev, fixed);
    }
  }

  lemma {:induction false} SumLenSplit(sgl: seq<SgEntry>, lo: nat, mid: nat, hi: nat)
    requires lo <= mid <= hi <= |sgl|
    ensures SumLen(sgl, lo, hi) == SumLen(sgl, lo, mid) + SumLen(sgl, mid, hi)
    decreases hi
  {
    if mid < hi {
      SumLenSplit(sgl, lo, mid, hi - 1);
    }
  }

  lemma SumBytesSnoc(table: seq<Desc>, j: nat)
    requires j < |table|
    ensures SumBytes(table[..j + 1]) == SumBytes(table[..j]) + table[j].bytes
  {
    assert table[..j + 1][..j] == table[..j];
  }

  lemma CarriedBytes(d: Desc, sgl: seq<SgEntry>, lo: nat, hi: nat, dirToDev: bool)
    requires Carries(d, sgl, lo, hi, dirToDev)
    ensures SumLen(sgl, 0, hi) == SumLen(sgl, 0, lo) + SumLen(sgl, lo, hi)
    ensures d.bytes <= SumLen(sgl, lo, hi)
    ensures d.bytes == SumLen(sgl, lo, hi) <==> SumLen(sgl, lo, hi) < 0x1_0000_0000
  {
    SumLenSplit(sgl, 0, lo, hi);
    RunLenIsSum(sgl, lo, hi);
    WrapNoMore(SumLen(sgl, lo, hi));
  }

  lemma {:induction false} WrapNoMore(a: nat)
    ensures Wrap32(a) <= a && (Wrap32(a) == a <==> a < 0x1_0000_0000)
  {
    if a >= 0x1_0000_0000 {
      WrapNoMore(a - 0x1_0000_0000);
    }
  }

  /** Descriptors never announce more bytes than the entries hold, and announce as many only when
      no running length overflowed. */
  lemma {:induction false} SumBytesPrefix(
    table: seq<Desc>, sgl: seq<SgEntry>, cuts: seq<nat>, ep: u64, next: u64,
    dirToDev: bool, fixed: bool, onePerEntry: bool, j: nat)
    requires CutWhereNeeded(sgl, cuts, onePerEntry)
    requires Laid(table, sgl, cuts, ep, next, dirToDev, fixed)
    requires j <= |table|
    ensures SumBytes(table[..j]) <= SumLen(sgl, 0, cuts[j])
    ensures SumBytes(table[..j]) == SumLen(sgl, 0, cuts[j]) ==>
              forall t :: 0 <= t < j ==> GroupFits(sgl, cuts, t)
    decreases j
  {
    if j > 0 {
      SumBytesPrefix(table, sgl, cuts, ep, next, dirToDev, fixed, onePerEntry, j - 1);
      assert LaidAt(table, sgl, cuts, next, dirToDev, fixed, j - 1);
      CarriedBytes(table[j - 1], sgl, cuts[j - 1], cuts[j], dirToDev);
      SumBytesSnoc(table, j - 1);
    }
  }

  /** A coalesced table means one plain copy of the whole list exactly when no 32-bit running
      length overflowed. */
  lemma MeaningPreservedIff(
    table: seq<Desc>, sgl: seq<SgEntry>, ep: u64, dirToDev: bool, fixed: bool, onePerEntry: bool)
    requires |sgl| > 0
    requires Coalesced(table, sgl, ep, dirToDev, fixed, onePerEntry)
    ensures Meaning(table, dirToDev, fixed) == PlainCopy(HostBytes(sgl), ep, dirToDev, fixed)
            <==> NoOverflow(sgl, Cuts(sgl, onePerEntry))
  {
    var n, cuts := |table|, Cuts(sgl, onePerEntry);
    CutsAreNeeded(sgl, onePerEntry);
    var next: u64 :| Laid(table, sgl, cuts, ep, next, dirToDev, fixed);
    assert table[..n] == table;
    if NoOverflow(sgl, cuts) {
      PrefixMeaning(table, sgl, cuts, ep, next, dirToDev, fixed, onePerEntry, n);
    } else {
      MeaningLength(table, dirToDev, fixed);
      HostRangeLength(sgl, 0, |sgl|);
      SumBytesPrefix(table, sgl, cuts, ep, next, dirToDev, fixed, onePerEntry, n);
    }
  }

  /** Two entries of 4 GiB together, the second right behind the first */
  function TooLong(): seq<SgEntry> {
    [SgEntry(0, 1), SgEntry(1, 0xFFFF_FFFF)]
  }

  /** They make one group, whose 32-bit length is 0, so that its descriptor moves nothing. */
  lemma TooLongIsLost(table: seq<Desc>, ep: u64, dirToDev: bool, fixed: bool)
    requires Coalesced(table, TooLong(), ep, dirToDev, fixed, false)
    ensures !NoOverflow(TooLong(), Cuts(TooLong(), false))
    ensures Meaning(table, dirToDev, fixed) != PlainCopy(HostBytes(TooLong()), ep, dirToDev, fixed)
  {
    var sgl := TooLong();
    assert RunLen(sgl, 0, 0) == 0 && RunLen(sgl, 0, 1) == 1;
    assert !StartsNew(sgl, 0, 1, false);
    assert Starts(sgl, 1, false) == [0] by {
      assert Starts(sgl, 0, false) == [0];
    }
    assert SumLen(sgl, 0, 2) == 0x1_0000_0000 by {
      assert SumLen(sgl, 0, 1) == 1;
    }
    assert !GroupFits(sgl, Cuts(sgl, false), 0);
    MeaningPreservedIff(table, sgl, ep, dirToDev, fixed, false);
  }

  lemma {:induction false} SumLenMonotone(sgl: seq<SgEntry>, lo: nat, hi: nat)
    requires lo <= hi <= |sgl|
    ensures SumLen(sgl, lo, hi) <= SumLen(sgl, 0, |sgl|)
  {
    SumLenSplit(sgl, 0, lo, hi);
    SumLenSplit(sgl, 0, hi, |sgl|);
  }

  /** A list of less than 4 GiB, such as every request chunk, never overflows. */
  lemma TotalFits(sgl: seq<SgEntry>, onePerEntry: bool)
    requires 0 < |sgl| && SumLen(sgl, 0, |sgl|) < 0x1_0000_0000
    ensures NoOverflow(sgl, Cuts(sgl, onePerEntry))
  {
    var cuts := Cuts(sgl, onePerEntry);
    CutsAreNeeded(sgl, onePerEntry);
    forall j | 0 <= j < |cuts| - 1 ensures GroupFits(sgl, cuts, j) {
      assert GroupAt(sgl, cuts, j, onePerEntry);
      SumLenMonotone(sgl, cuts[j], cuts[j + 1]);
    }
  }

  predicate NonEmpty(sgl: seq<SgEntry>) {
    forall i :: 0 <= i < |sgl| ==> sgl[i].len > 0
  }

  lemma {:induction false} AtLeastOneByteEach(sgl: seq<SgEntry>, lo: nat, hi: nat)
    requires NonEmpty(sgl) && lo <= hi <= |sgl|
    ensures SumLen(sgl, lo, hi) >= hi - lo
    decreases hi
  {
    if hi > lo {
      AtLeastOneByteEach(sgl, lo, hi - 1);
    }
  }

  lemma NoMoreThanEntries(
    table: seq<Desc>, sgl: seq<SgEntry>, ep: u64, dirToDev: bool, fixed: bool, onePerEntry: bool)
    requires |sgl| > 0 && Coalesced(table, sgl, ep, dirToDev, fixed, onePerEntry)
    ensures |table| <= |sgl|
  {
  }

  /** Non-empty entries make descriptors that move something. */
  lemma DescriptorsMove(
    table: seq<Desc>, sgl: seq<SgEntry>, ep: u64, dirToDev: bool, fixed: bool, onePerEntry: bool,
    j: nat)
    requires |sgl| > 0 && NonEmpty(sgl)
    requires Coalesced(table, sgl, ep, dirToDev, fixed, onePerEntry)
    requires NoOverflow(sgl, Cuts(sgl, onePerEntry))
    requires j < |table|
    ensures table[j].bytes > 0
  {
    var cuts := Cuts(sgl, onePerEntry);
    var next: u64 :| Laid(table, sgl, cuts, ep, next, dirToDev, fixed);
    assert LaidAt(table, sgl, cuts, next, dirToDev, fixed, j);
    assert GroupFits(sgl, cuts, j);
    RunLenIsSum(sgl, cuts[j], cuts[j + 1]);
  }

  // Addressing modes of the engine

  /** Some byte move of the executed descriptors is move k of descriptor j. */
  lemma {:induction false} MoveOf(ds: seq<Desc>, j: nat, k: nat, dirToDev: bool, fixed: bool)
    returns (i: nat)
    requires j < |ds| && k < ds[j].bytes
    ensures i < |Meaning(ds, dirToDev, fixed)|
    ensures Meaning(ds, dirToDev, fixed)[i] == Moves(ds[j], dirToDev, fixed)[k]
  {
    var n := |ds| - 1;
    if j == n {
      i := |Meaning(ds[..n], dirToDev, fixed)| + k;
    } else {
      i := MoveOf(ds[..n], j, k, dirToDev, fixed);
    }
  }

  lemma MeaningSnoc(ds: seq<Desc>, d: Desc, dirToDev: bool, fixed: bool)
    ensures Meaning(ds + [d], dirToDev, fixed)
            == Meaning(ds, dirToDev, fixed) + Moves(d, dirToDev, fixed)
  {
    assert (ds + [d])[..|ds + [d]| - 1] == ds;
  }

  lemma {:induction false} MeaningConcat(a: seq<Desc>, b: seq<Desc>, dirToDev: bool, fixed: bool)
    ensures Meaning(a + b, dirToDev, fixed)
            == Meaning(a, dirToDev, fixed) + Meaning(b, dirToDev, fixed)
  {
    if b == [] {
      assert a + b == a;
    } else {
      var front, last := b[..|b| - 1], b[|b| - 1];
      MeaningConcat(a, front, dirToDev, fixed);
      assert a + b == a + front + [last] by {
        assert b == front + [last];
      }
      MeaningSnoc(a + front, last, dirToDev, fixed);
      ConcatAssoc(Meaning(a, dirToDev, fixed), Meaning(front, dirToDev, fixed),
                  Moves(last, dirToDev, fixed));
    }
  }

  lemma ConcatAssoc(a: seq<ByteMove>, b: seq<ByteMove>, c: seq<ByteMove>)
    ensures a + b + c == a + (b + c)
  {
  }

  /** No descriptor moves more than one byte. */
  predicate AtMostOneByteEach(ds: seq<Desc>) {
    forall j :: 0 <= j < |ds| ==> ds[j].bytes <= 1
  }

  lemma {:induction false} TinyMeanTheSame(ds: seq<Desc>, dirToDev: bool)
    requires AtMostOneByteEach(ds)
    ensures Meaning(ds, dirToDev, false) == Meaning(ds, dirToDev, true)
  {
    if ds != [] {
      TinyMeanTheSame(ds[..|ds| - 1], dirToDev);
      TinyMoves(ds[|ds| - 1], dirToDev);
    }
  }

  lemma TinyMoves(d: Desc, dirToDev: bool)
    requires d.bytes <= 1
    ensures Moves(d, dirToDev, false) == Moves(d, dirToDev, true)
  {
    assert MoveAt(d, 0, dirToDev, false) == MoveAt(d, 0, dirToDev, true);
  }

  lemma NotBothAt(ep: u64, pos: u64)
    ensures !(EpAt(ep, 0, false) == pos && EpAt(ep, 1, false) == pos)
  {
    assert EpAt(ep, 0, false) == ep;
    assert ep + 1 == 0x1_0000_0000_0000_0000 ==> Wrap64(ep + 1) == Wrap64(0) == 0;
  }

  /** An incrementing engine can only stay at one address with descriptors of a byte each. */
  lemma StaysOnlyIfTiny(ds: seq<Desc>, host: seq<int>, pos: u64, dirToDev: bool)
    requires Meaning(ds, dirToDev, false) == PlainCopy(host, pos, dirToDev, true)
    ensures AtMostOneByteEach(ds)
  {
    forall j | 0 <= j < |ds| ensures ds[j].bytes <= 1 {
      if ds[j].bytes > 1 {
        var a := MoveOf(ds, j, 0, dirToDev, false);
        var b := MoveOf(ds, j, 1, dirToDev, false);
        MovesAreCopy(ds[j], dirToDev, false);
        NotBothAt(ds[j].EpAddr(dirToDev), pos);
      }
    }
  }

  /** Descriptors laid out for a fixed address, executed by an engine that increments it, are a copy
      to the fixed address if and only if none moves more than one byte. */
  lemma IncrementingEngineIff(ds: seq<Desc>, host: seq<int>, pos: u64, dirToDev: bool)
    requires Meaning(ds, dirToDev, true) == PlainCopy(host, pos, dirToDev, true)
    ensures Meaning(ds, dirToDev, false) == PlainCopy(host, pos, dirToDev, true)
            <==> AtMostOneByteEach(ds)
  {
    if AtMostOneByteEach(ds) {
      TinyMeanTheSame(ds, dirToDev);
    } else if Meaning(ds, dirToDev, false) == PlainCopy(host, pos, dirToDev, true) {
      StaysOnlyIfTiny(ds, host, pos, dirToDev);
    }
  }

  lemma {:induction false} TinySum(ds: seq<Desc>)
    requires AtMostOneByteEach(ds)
    ensures SumBytes(ds) <= |ds|
  {
    if ds != [] {
      TinySum(ds[..|ds| - 1]);
    }
  }

  lemma {:induction false} NoMoreThanSum(ds: seq<Desc>, j: nat)
    requires j < |ds|
    ensures ds[j].bytes <= SumBytes(ds)
  {
    var n := |ds| - 1;
    if j < n {
      NoMoreThanSum(ds[..n], j);
    }
  }

  lemma {:induction false} AtLeastOneSum(ds: seq<Desc>)
    requires forall j :: 0 <= j < |ds| ==> ds[j].bytes > 0
    ensures SumBytes(ds) >= |ds|
  {
    if ds != [] {
      AtLeastOneSum(ds[..|ds| - 1]);
    }
  }

  // Size bounds

  ghost predicate PageSized(sgl: seq<SgEntry>) {
    forall i :: 0 <= i < |sgl| ==> 1 <= sgl[i].len <= PAGE_SIZE
  }

  lemma {:induction false} GroupSize(sgl: seq<SgEntry>, lo: nat, hi: nat, onePerEntry: bool)
    requires PageSized(sgl)
    requires IsGroup(sgl, lo, hi, onePerEntry)
    ensures 1 <= SumLen(sgl, lo, hi) <= DESC_MAX_BYTES
    decreases hi
  {
    if hi - 1 > lo {
      GroupSize(sgl, lo, hi - 1, onePerEntry);
      assert !StartsNew(sgl, lo, hi - 1, onePerEntry);
      RunLenIsSum(sgl, lo, hi - 1);
    } else {
      assert SumLen(sgl, lo, lo) == 0;
    }
  }

  lemma CarriedSize(
    d: Desc, sgl: seq<SgEntry>, lo: nat, hi: nat, dirToDev: bool, onePerEntry: bool)
    requires PageSized(sgl)
    requires Carries(d, sgl, lo, hi, dirToDev) && IsGroup(sgl, lo, hi, onePerEntry)
    ensures 1 <= d.bytes <= DESC_MAX_BYTES
  {
    GroupSize(sgl, lo, hi, onePerEntry);
    RunLenIsSum(sgl, lo, hi);
  }

  /** From entries of at most a page, every descriptor moves 1 to XDMA_DESC_MAX_BYTES bytes. */
  lemma DescriptorSizes(
    table: seq<Desc>, sgl: seq<SgEntry>, ep: u64, dirToDev: bool, fixed: bool, onePerEntry: bool,
    j: nat)
    requires |sgl| > 0 && PageSized(sgl)
    requires Coalesced(table, sgl, ep, dirToDev, fixed, onePerEntry)
    requires j < |table|
    ensures 1 <= table[j].bytes <= DESC_MAX_BYTES
  {
    var cuts := Cuts(sgl, onePerEntry);
    var next: u64 :| Laid(table, sgl, cuts, ep, next, dirToDev, fixed);
    CutsAreNeeded(sgl, onePerEntry);
    assert LaidAt(table, sgl, cuts, next, dirToDev, fixed, j);
    assert GroupAt(sgl, cuts, j, onePerEntry);
    CarriedSize(table[j], sgl, cuts[j], cuts[j + 1], dirToDev, onePerEntry);
  }

  /** Without that assumption, since a DMA mapping may merge entries: a descriptor has the length of
      its only entry, or at most XDMA_DESC_MAX_BYTES less a page plus the length of its last one. */
  lemma DescriptorSizeBound(
    table: seq<Desc>, sgl: seq<SgEntry>, ep: u64, dirToDev: bool, fixed: bool, onePerEntry: bool,
    j: nat)
    requires |sgl| > 0 && Coalesced(table, sgl, ep, dirToDev, fixed, onePerEntry)
    requires j < |table|
    ensures var cuts := Cuts(sgl, onePerEntry);
            && j + 1 < |cuts| && cuts[j] < cuts[j + 1] <= |sgl|
            && var last := sgl[cuts[j + 1] - 1].len;
               if cuts[j + 1] == cuts[j] + 1 then table[j].bytes == last
               else table[j].bytes <= DESC_MAX_BYTES - PAGE_SIZE + last
  {
    var cuts := Cuts(sgl, onePerEntry);
    var next: u64 :| Laid(table, sgl, cuts, ep, next, dirToDev, fixed);
    CutsAreNeeded(sgl, onePerEntry);
    assert LaidAt(table, sgl, cuts, next, dirToDev, fixed, j);
    assert GroupAt(sgl, cuts, j, onePerEntry);
    GroupSizeBound(sgl, cuts[j], cuts[j + 1], onePerEntry);
  }

  lemma GroupSizeBound(sgl: seq<SgEntry>, lo: nat, hi: nat, onePerEntry: bool)
    requires IsGroup(sgl, lo, hi, onePerEntry)
    ensures if hi == lo + 1 then RunLen(sgl, lo, hi) == sgl[lo].len
            else RunLen(sgl, lo, hi) <= DESC_MAX_BYTES - PAGE_SIZE + sgl[hi - 1].len
  {
    if hi == lo + 1 {
      assert RunLen(sgl, lo, lo) == 0;
    } else {
      assert !StartsNew(sgl, lo, hi - 1, onePerEntry);
    }
  }

  /** Two merged entries, the second of 64 KiB */
  function Merged(): seq<SgEntry> {
    [SgEntry(0, 258047), SgEntry(258047, 65536)]
  }

  /** They make one descriptor of more than XDMA_DESC_MAX_BYTES. */
  lemma MergedIsTooLong(table: seq<Desc>, ep: u64, dirToDev: bool, fixed: bool)
    requires Coalesced(table, Merged(), ep, dirToDev, fixed, false)
    ensures |table| == 1 && table[0].bytes == 323583 > DESC_MAX_BYTES
  {
    var sgl, cuts := Merged(), Cuts(Merged(), false);
    assert RunLen(sgl, 0, 0) == 0 && RunLen(sgl, 0, 1) == 258047;
    assert !StartsNew(sgl, 0, 1, false);
    assert Starts(sgl, 0, false) == [0];
    assert cuts == [0, 2];
    var next: u64 :| Laid(table, sgl, cuts, ep, next, dirToDev, fixed);
    assert LaidAt(table, sgl, cuts, next, dirToDev, fixed, 0);
  }
}
