/**
 What the SG DMA engine does with a descriptor table: it reads descriptors from root complex
 memory, executes each one, and goes on to `next` until one carries STOPPED. A second interpreter
 fetches `extra_adj` neighbours along with each next descriptor.
 */
module Hardware {
  import opened Words
  import opened Descriptors
  import opened Arith

  /** A descriptor array as the device sees it: `table[i]` lies at `bus + 32 * i`. */
  datatype DescMemory = DescMemory(bus: u64, table: seq<Desc>)

  datatype Option<+T> = None | Some(value: T)

  function AddressOf(m: DescMemory, i: nat): nat {
    m.bus + DESC_SIZE * i
  }

  function Read(m: DescMemory, addr: nat): Option<Desc> {
    if addr < m.bus || (addr - m.bus) % 32 != 0 || (addr - m.bus) / 32 >= |m.table| then None
    else Some(m.table[(addr - m.bus) / 32])
  }

  lemma ReadAt(m: DescMemory, i: nat)
    requires i < |m.table|
    ensures Read(m, AddressOf(m, i)) == Some(m.table[i])
  {
  }

  // Execution

  datatype Ending = Running | Halted | Faulted

  /** The descriptors executed so far, in order, and why execution ended. */
  datatype Trace = Trace(executed: seq<Desc>, ending: Ending)
  {
    function Prepend(d: Desc): Trace {
      Trace([d] + executed, ending)
    }

    function PrependAll(ds: seq<Desc>): Trace {
      Trace(ds + executed, ending)
    }
  }

  /** At most `fuel` descriptors, one at a time, following `next` from `addr`. */
  function Walk(m: DescMemory, addr: nat, fuel: nat): Trace
    decreases fuel
  {
    if fuel == 0 then Trace([], Running)
    else match Read(m, addr)
      case None => Trace([], Faulted)
      case Some(d) =>
        if !HasMagic(d.control) then Trace([], Faulted)
        else if IsStopped(d.control) then Trace([d], Halted)
        else Walk(m, d.Next(), fuel - 1).Prepend(d)
  }

  /** One fetch of `count` adjacent descriptors; empty when any of them is not there. */
  function FetchBlock(m: DescMemory, addr: nat, count: nat): seq<Desc>
    decreases count
  {
    if count == 0 then []
    else match Read(m, addr)
      case None => []
      case Some(d) =>
        if count == 1 then [d]
        else
          var rest := FetchBlock(m, addr + DESC_SIZE, count - 1);
          if rest == [] then [] else [d] + rest
  }

  /** At most `fuel` descriptors, taken from the fetched queue, which is refilled by a block of
      1 + extra_adj descriptors at `next` when it runs out. */
  function PrefetchWalk(m: DescMemory, queue: seq<Desc>, fuel: nat): Trace
    decreases fuel
  {
    if fuel == 0 then Trace([], Running)
    else if queue == [] then Trace([], Faulted)
    else
      var d := queue[0];
      if !HasMagic(d.control) then Trace([], Faulted)
      else if IsStopped(d.control) then Trace([d], Halted)
      else
        var queue' :=
          if |queue| > 1 then queue[1..]
          else FetchBlock(m, d.Next(), ExtraAdj(d.control) + 1);
        PrefetchWalk(m, queue', fuel - 1).Prepend(d)
  }

  /** Programming the engine: first descriptor address and first_desc_adjacent. */
  function PrefetchFrom(m: DescMemory, addr: nat, firstExtra: nat, fuel: nat): Trace {
    PrefetchWalk(m, FetchBlock(m, addr, firstExtra + 1), fuel)
  }

  // Well-linked tables

  /** Descriptors 0..n are linked in table order and each announces only neighbours that are in
      the same chain. */
  ghost predicate LinkedInOrder(m: DescMemory, n: nat) {
    && 0 < n <= |m.table|
    && (forall i :: 0 <= i < n ==> HasMagic(m.table[i].control))
    && (forall i :: 0 <= i < n - 1 ==> m.table[i].Next() == AddressOf(m, i + 1))
    && (forall i :: 0 <= i < n - 1 ==> ExtraAdj(m.table[i].control) <= n - 2 - i)
  }

  /** A chain that stops at its last descriptor. */
  ghost predicate IsChain(m: DescMemory, n: nat) {
    && LinkedInOrder(m, n)
    && (forall i :: 0 <= i < n ==> (IsStopped(m.table[i].control) <==> i == n - 1))
  }

  /** A table whose last descriptor leads back to its first, alone. */
  ghost predicate IsRing(m: DescMemory, n: nat) {
    && LinkedInOrder(m, n)
    && m.table[n - 1].Next() == m.bus
    && ExtraAdj(m.table[n - 1].control) == 0
  }

  lemma SliceCons(s: seq<Desc>, i: nat, j: nat)
    requires i < j <= |s|
    ensures s[i..j] == [s[i]] + s[i + 1..j]
  {
  }

  /** One descriptor that does not stop, and its successor in table order. */
  lemma WalkStep(m: DescMemory, i: nat, j: nat, fuel: nat)
    requires i < |m.table| && fuel > 0
    requires HasMagic(m.table[i].control) && !IsStopped(m.table[i].control)
    requires m.table[i].Next() == AddressOf(m, j)
    ensures Walk(m, AddressOf(m, i), fuel)
            == Walk(m, AddressOf(m, j), fuel - 1).Prepend(m.table[i])
  {
    ReadAt(m, i);
  }

  /** Walking a chain from its i-th descriptor executes the rest of it, in order, and halts. */
  lemma {:induction false} ChainWalk(m: DescMemory, n: nat, i: nat, fuel: nat)
    requires IsChain(m, n)
    requires i < n && fuel >= n - i
    ensures Walk(m, AddressOf(m, i), fuel) == Trace(m.table[i..n], Halted)
    decreases fuel
  {
    if i < n - 1 {
      WalkStep(m, i, i + 1, fuel);
      ChainWalk(m, n, i + 1, fuel - 1);
      SliceCons(m.table, i, n);
    } else {
      ReadAt(m, i);
    }
  }

  /** Walking a ring with no STOPPED descriptor never ends: the k-th one executed is the one in
      slot i + k modulo n. */
  lemma {:induction false} RingWalk(m: DescMemory, n: nat, i: nat, fuel: nat)
    requires IsRing(m, n)
    requires forall k :: 0 <= k < n ==> !IsStopped(m.table[k].control)
    requires i < n
    ensures var t := Walk(m, AddressOf(m, i), fuel);
            && t.ending == Running
            && |t.executed| == fuel
            && forall k :: 0 <= k < fuel ==> t.executed[k] == m.table[Slot(n, i, k)]
    decreases fuel
  {
    if fuel > 0 {
      WalkStep(m, i, NextSlot(n, i), fuel);
      RingWalk(m, n, NextSlot(n, i), fuel - 1);
      forall k | 1 <= k < fuel ensures Slot(n, i, k) == Slot(n, NextSlot(n, i), k - 1) {
        SlotFromNext(n, i, k - 1);
      }
    }
  }

  // Prefetching

  lemma {:induction false} FetchBlockInTable(m: DescMemory, i: nat, count: nat)
    requires count > 0 && i + count <= |m.table|
    ensures FetchBlock(m, AddressOf(m, i), count) == m.table[i..i + count]
    decreases count
  {
    ReadAt(m, i);
    if count > 1 {
      FetchBlockInTable(m, i + 1, count - 1);
      SliceCons(m.table, i, i + count);
    }
  }

  /** What descriptor i announces are its own successors: the block of 1 + extra_adj descriptors at
      its next address consists of descriptors i + 1, i + 2, ... of the same chain. */
  lemma AnnouncedFetch(m: DescMemory, n: nat, i: nat)
    requires LinkedInOrder(m, n) && i + 1 < n
    ensures var a := ExtraAdj(m.table[i].control);
            && i + 2 + a <= n
            && FetchBlock(m, m.table[i].Next(), 1 + a) == m.table[i + 1..i + 2 + a]
  {
    FetchBlockInTable(m, i + 1, 1 + ExtraAdj(m.table[i].control));
  }

  /** Both engines stop alike at descriptor i. */
  lemma LastStep(m: DescMemory, i: nat, q: nat, fuel: nat)
    requires 0 < q && i + q <= |m.table|
    requires HasMagic(m.table[i].control) && (fuel == 0 || IsStopped(m.table[i].control))
    ensures PrefetchWalk(m, m.table[i..i + q], fuel) == Walk(m, AddressOf(m, i), fuel)
  {
    ReadAt(m, i);
  }

  /** Both engines execute descriptor i; then the one goes on with its queue, the other with
      `next`. */
  lemma CommonStep(m: DescMemory, i: nat, q: nat, fuel: nat, queue': seq<Desc>)
    requires 0 < q && i + q <= |m.table| && fuel > 0
    requires HasMagic(m.table[i].control) && !IsStopped(m.table[i].control)
    requires queue' == if q > 1 then m.table[i + 1..i + q]
                       else FetchBlock(m, m.table[i].Next(), ExtraAdj(m.table[i].control) + 1)
    requires PrefetchWalk(m, queue', fuel - 1) == Walk(m, m.table[i].Next(), fuel - 1)
    ensures PrefetchWalk(m, m.table[i..i + q], fuel) == Walk(m, AddressOf(m, i), fuel)
  {
    var queue := m.table[i..i + q];
    assert queue[0] == m.table[i];
    assert q > 1 ==> queue[1..] == queue';
    ReadAt(m, i);
  }

  /** What follows a descriptor that does not stop: the next one of the queue, or the first one of
      the block fetched next. */
  lemma Successor(m: DescMemory, n: nat, i: nat, q: nat) returns (i': nat, q': nat)
    requires IsChain(m, n) || IsRing(m, n)
    requires 0 < q && i + q <= n
    requires !IsStopped(m.table[i].control)
    ensures 0 < q' && i' + q' <= n
    ensures HasMagic(m.table[i].control) && m.table[i].Next() == AddressOf(m, i')
    ensures m.table[i'..i' + q'] == if q > 1 then m.table[i + 1..i + q]
              else FetchBlock(m, m.table[i].Next(), ExtraAdj(m.table[i].control) + 1)
  {
    if q > 1 {
      i', q' := i + 1, q - 1;
    } else {
      i', q' := NextSlot(n, i), ExtraAdj(m.table[i].control) + 1;
      FetchBlockInTable(m, i', q');
    }
  }

  /** With a queue holding descriptors i..i+q of a chain or a ring, the prefetching engine executes
      what the one-at-a-time engine executes from descriptor i. */
  lemma {:induction false} PrefetchRefinesWalk(m: DescMemory, n: nat, i: nat, q: nat, fuel: nat)
    requires IsChain(m, n) || IsRing(m, n)
    requires 0 < q && i + q <= n
    ensures PrefetchWalk(m, m.table[i..i + q], fuel) == Walk(m, AddressOf(m, i), fuel)
    decreases fuel
  {
    if fuel == 0 || IsStopped(m.table[i].control) {
      LastStep(m, i, q, fuel);
    } else {
      var i', q' := Successor(m, n, i, q);
      PrefetchRefinesWalk(m, n, i', q', fuel - 1);
      CommonStep(m, i, q, fuel, m.table[i'..i' + q']);
    }
  }

  predicate Continues(d: Desc) {
    HasMagic(d.control) && !IsStopped(d.control)
  }

  /** The block fetched behind d. */
  function BlockBehind(m: DescMemory, d: Desc): seq<Desc> {
    FetchBlock(m, d.Next(), ExtraAdj(d.control) + 1)
  }

  lemma DrainMany(m: DescMemory, queue: seq<Desc>, fuel: nat)
    requires |queue| > 1 && fuel > 0 && Continues(queue[0])
    ensures PrefetchWalk(m, queue, fuel)
            == PrefetchWalk(m, queue[1..], fuel - 1).Prepend(queue[0])
  {
  }

  lemma DrainLast(m: DescMemory, queue: seq<Desc>, fuel: nat)
    requires |queue| == 1 && fuel > 0 && Continues(queue[0])
    ensures PrefetchWalk(m, queue, fuel)
            == PrefetchWalk(m, BlockBehind(m, queue[0]), fuel - 1).Prepend(queue[0])
  {
  }

  predicate AllContinue(queue: seq<Desc>) {
    queue == [] || (Continues(queue[0]) && AllContinue(queue[1..]))
  }

  lemma PrependFirst(queue: seq<Desc>, rest: Trace)
    requires queue != []
    ensures rest.PrependAll(queue[1..]).Prepend(queue[0]) == rest.PrependAll(queue)
  {
  }

  /** Fetched descriptors that do not stop are executed, and then what the block behind the last one
      leads to. */
  lemma {:induction false} DrainQueue(
    m: DescMemory, queue: seq<Desc>, fuel: nat, block: seq<Desc>, rest: Trace)
    requires queue != [] && fuel >= |queue| && AllContinue(queue)
    requires block == BlockBehind(m, queue[|queue| - 1])
    requires PrefetchWalk(m, block, fuel - |queue|) == rest
    ensures PrefetchWalk(m, queue, fuel) == rest.PrependAll(queue)
    decreases |queue|
  {
    PrependFirst(queue, rest);
    if |queue| > 1 {
      DrainMany(m, queue, fuel);
      DrainQueue(m, queue[1..], fuel - 1, block, rest);
    } else {
      DrainLast(m, queue, fuel);
    }
  }

  // Where the fetched block lies

  /** The bytes addr .. addr + 32 * count lie within one 4 KiB page. */
  predicate WithinPage(addr: nat, count: nat) {
    addr % BOUNDARY + DESC_SIZE * count <= BOUNDARY
  }

  lemma NextInPage(d: Desc)
    ensures d.Next() % BOUNDARY == d.nextLo % BOUNDARY
  {
    assert d.nextHi * 0x1_0000_0000 == (d.nextHi * 0x10_0000) * BOUNDARY;
  }

  /** What max_adj_4k works out to, unless not even one descriptor fits. */
  lemma MaxAdjIn4KIs(nextLo: u32)
    ensures nextLo % BOUNDARY <= BOUNDARY - DESC_SIZE ==>
              MaxAdjIn4K(nextLo) == (BOUNDARY - nextLo % BOUNDARY) / 32 - 1
  {
    Wrap32IsMod((BOUNDARY - nextLo % BOUNDARY) / 32 + 0xFFFF_FFFF);
  }

  /** A block whose first descriptor straddles a page boundary is not capped by the page. */
  lemma StraddlingIsUncapped(d: Desc, nextAdjacent: int)
    requires nextAdjacent > 0 && !WithinPage(d.Next(), 1)
    ensures CappedExtraAdj(d.nextLo, nextAdjacent)
            == if nextAdjacent > 16 then 15 else nextAdjacent - 1
  {
    NextInPage(d);
    assert (BOUNDARY - d.nextLo % BOUNDARY) / 32 == 0;
  }

  /** Otherwise it is the largest that the field, the followers and the page allow. */
  lemma CappedIsLargest(d: Desc, nextAdjacent: int, e: nat)
    requires e <= 15 && e < nextAdjacent && WithinPage(d.Next(), e + 1)
    ensures e <= CappedExtraAdj(d.nextLo, nextAdjacent) <= 15
    ensures CappedExtraAdj(d.nextLo, nextAdjacent) < nextAdjacent
  {
    NextInPage(d);
    MaxAdjIn4KIs(d.nextLo);
  }

  /** The capped count keeps a prefetched block within a page exactly when the first descriptor of
      the block does not itself straddle a page boundary. */
  lemma CappedBlockWithinPage(d: Desc, nextAdjacent: int)
    requires nextAdjacent > 0
    ensures WithinPage(d.Next(), CappedExtraAdj(d.nextLo, nextAdjacent) + 1)
            <==> WithinPage(d.Next(), 1)
  {
    NextInPage(d);
    MaxAdjIn4KIs(d.nextLo);
  }
}
