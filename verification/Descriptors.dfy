/**
 The 32-byte SG DMA descriptor and the helpers that fill it in. Where the source takes a pointer to
 a descriptor, these take the array and an index, and update that element in place.
 */
module Descriptors {
  import opened Words

  const STOPPED: bv32 := 0x01
  const COMPLETED: bv32 := 0x02
  const EOP: bv32 := 0x10
  const MAX_EXTRA_ADJ := 15
  const DESC_SIZE := 32

  /** Adjacent descriptors are fetched within blocks of this size. */
  const BOUNDARY := 0x1000

  datatype Desc = Desc(
    control: bv32,
    bytes: u32,
    srcLo: u32,
    srcHi: u32,
    dstLo: u32,
    dstHi: u32,
    nextLo: u32,
    nextHi: u32)
  {
    function Src(): u64 {
      JoinWords(srcLo, srcHi)
    }

    function Dst(): u64 {
      JoinWords(dstLo, dstHi)
    }

    function Next(): u64 {
      JoinWords(nextLo, nextHi)
    }

    /** The side of the move that lies in host memory. */
    function HostAddr(dirToDev: bool): u64 {
      if dirToDev then Src() else Dst()
    }

    /** The side of the move that lies in the FPGA. */
    function EpAddr(dirToDev: bool): u64 {
      if dirToDev then Dst() else Src()
    }

    predicate SameNext(d: Desc) {
      nextLo == d.nextLo && nextHi == d.nextHi
    }

    /** Link and control word, which transfer_build leaves alone. */
    predicate SameLink(d: Desc) {
      SameNext(d) && control == d.control
    }

    /** The move the descriptor describes. */
    predicate SameMove(d: Desc) {
      bytes == d.bytes && Src() == d.Src() && Dst() == d.Dst()
    }
  }

  // Fields of the control word

  function LowByte(c: bv32): bv32 {
    c & 0xFF
  }

  function ExtraAdj(c: bv32): (n: nat)
    ensures n <= MAX_EXTRA_ADJ
  {
    assert (c >> 8) & 0xF <= 15;
    ((c >> 8) & 0xF) as nat
  }

  predicate HasMagic(c: bv32) {
    c & 0xFFFF_0000 == 0xAD4B_0000
  }

  predicate IsStopped(c: bv32) {
    LowByte(c) & STOPPED != 0
  }

  /** Control word with magic and adjacency merged into the kept bits 0-7 and 12-15. */
  function WithExtraAdj(kept: bv32, extra: nat): (c: bv32)
    requires extra <= MAX_EXTRA_ADJ
    ensures LowByte(c) == LowByte(kept)
    ensures ExtraAdj(c) == extra
    ensures HasMagic(c)
  {
    var adj := extra as bv32;
    assert adj <= 15;
    assert ((((kept & 0x0000_F0FF) | 0xAD4B_0000 | (adj << 8)) >> 8) & 0xF) == adj;
    (kept & 0x0000_F0FF) | 0xAD4B_0000 | (adj << 8)
  }

  /** How many descriptors fit between the one at next and the end of its 4 KiB page, less one;
      unsigned, so it wraps when not even one fits. */
  function MaxAdjIn4K(nextLo: u32): u32 {
    Wrap32((BOUNDARY - nextLo % BOUNDARY) / 32 + 0xFFFF_FFFF)
  }

  /** The count xdma_desc_adjacent stores: capped by what follows, by the field, by the page. */
  function CappedExtraAdj(nextLo: u32, nextAdjacent: int): (extra: nat)
    ensures extra <= MAX_EXTRA_ADJ
    ensures if nextAdjacent > 0 then extra < nextAdjacent else extra == 0
  {
    if nextAdjacent > 0 then
      var wanted := if nextAdjacent - 1 > MAX_EXTRA_ADJ then MAX_EXTRA_ADJ else nextAdjacent - 1;
      if wanted > MaxAdjIn4K(nextLo) then MaxAdjIn4K(nextLo) else wanted
    else
      0
  }

  /** The two words of an address in a descriptor, low word first */
  predicate AreWordsOf(lo: u32, hi: u32, addr: u64) {
    addr == lo + 0x1_0000_0000 * hi
  }

  // In-place updates of descriptor j

  /** Only descriptor j of the array may differ from what it was. */
  ghost predicate OnlyAt(before: seq<Desc>, after: seq<Desc>, j: nat) {
    |after| == |before| && forall k :: 0 <= k < |before| && k != j ==> after[k] == before[k]
  }

  /** The initial contents written by xdma_desc_alloc: next, no bytes, and the control word. */
  method DescInit(desc: array<Desc>, j: nat, next: u64, extra: nat)
    requires j < desc.Length && extra <= MAX_EXTRA_ADJ
    modifies desc
    ensures OnlyAt(old(desc[..]), desc[..], j)
    ensures AreWordsOf(desc[j].nextLo, desc[j].nextHi, next)
    ensures desc[j].Next() == next && desc[j].bytes == 0
    ensures HasMagic(desc[j].control)
    ensures ExtraAdj(desc[j].control) == extra && LowByte(desc[j].control) == 0
  {
    SplitJoin(next);
    desc[j] := desc[j].(nextLo := LowWord(next), nextHi := HighWord(next), bytes := 0,
                        control := WithExtraAdj(0, extra));
  }

  /** xdma_desc_set: does not touch the link or the control word. */
  method DescSet(desc: array<Desc>, j: nat, rcBusAddr: u64, epAddr: u64, len: u32, dirToDev: bool)
    requires j < desc.Length
    modifies desc
    ensures OnlyAt(old(desc[..]), desc[..], j)
    ensures desc[j].HostAddr(dirToDev) == rcBusAddr && desc[j].EpAddr(dirToDev) == epAddr
    ensures AreWordsOf(desc[j].srcLo, desc[j].srcHi, if dirToDev then rcBusAddr else epAddr)
    ensures AreWordsOf(desc[j].dstLo, desc[j].dstHi, if dirToDev then epAddr else rcBusAddr)
    ensures desc[j].bytes == len
    ensures old(desc[j]).SameLink(desc[j])
  {
    SplitJoin(rcBusAddr);
    SplitJoin(epAddr);
    if dirToDev {
      desc[j] := desc[j].(bytes := len,
                          srcLo := LowWord(rcBusAddr), srcHi := HighWord(rcBusAddr),
                          dstLo := LowWord(epAddr), dstHi := HighWord(epAddr));
    } else {
      desc[j] := desc[j].(bytes := len,
                          srcLo := LowWord(epAddr), srcHi := HighWord(epAddr),
                          dstLo := LowWord(rcBusAddr), dstHi := HighWord(rcBusAddr));
    }
  }

  /** xdma_desc_set_source */
  method DescSetSource(desc: array<Desc>, j: nat, source: u64)
    requires j < desc.Length
    modifies desc
    ensures OnlyAt(old(desc[..]), desc[..], j)
    ensures AreWordsOf(desc[j].srcLo, desc[j].srcHi, source)
    ensures desc[j].Src() == source && desc[j].Dst() == old(desc[j]).Dst()
    ensures desc[j].bytes == old(desc[j]).bytes && old(desc[j]).SameLink(desc[j])
  {
    SplitJoin(source);
    desc[j] := desc[j].(srcLo := LowWord(source), srcHi := HighWord(source));
  }

  /** xdma_desc_link: links descriptor j to the bus address (0 terminates) and zeroes extra_adj. */
  method DescLink(desc: array<Desc>, j: nat, secondBus: u64)
    requires j < desc.Length
    modifies desc
    ensures OnlyAt(old(desc[..]), desc[..], j)
    ensures old(desc[j]).SameMove(desc[j])
    ensures AreWordsOf(desc[j].nextLo, desc[j].nextHi, secondBus)
    ensures desc[j].Next() == secondBus
    ensures HasMagic(desc[j].control) && ExtraAdj(desc[j].control) == 0
    ensures LowByte(desc[j].control) == LowByte(old(desc[j]).control)
  {
    SplitJoin(secondBus);
    desc[j] := desc[j].(nextLo := LowWord(secondBus), nextHi := HighWord(secondBus),
                        control := (desc[j].control & 0x0000_F0FF) | 0xAD4B_0000);
  }

  /** xdma_desc_adjacent */
  method DescAdjacent(desc: array<Desc>, j: nat, nextAdjacent: int)
    requires j < desc.Length
    modifies desc
    ensures OnlyAt(old(desc[..]), desc[..], j)
    ensures old(desc[j]).SameMove(desc[j]) && desc[j].SameNext(old(desc[j]))
    ensures HasMagic(desc[j].control)
    ensures LowByte(desc[j].control) == LowByte(old(desc[j]).control)
    ensures ExtraAdj(desc[j].control) == CappedExtraAdj(old(desc[j]).nextLo, nextAdjacent)
  {
    desc[j] := desc[j].(control :=
      WithExtraAdj(desc[j].control, CappedExtraAdj(desc[j].nextLo, nextAdjacent)));
  }

  /** xdma_desc_control: replaces the control byte. */
  method DescControl(desc: array<Desc>, j: nat, field: bv32)
    requires j < desc.Length
    requires field & 0xFFFF_FF00 == 0
    modifies desc
    ensures OnlyAt(old(desc[..]), desc[..], j)
    ensures old(desc[j]).SameMove(desc[j]) && desc[j].SameNext(old(desc[j]))
    ensures LowByte(desc[j].control) == field
    ensures ExtraAdj(desc[j].control) == ExtraAdj(old(desc[j]).control)
    ensures HasMagic(desc[j].control) == HasMagic(old(desc[j]).control)
  {
    desc[j] := desc[j].(control := (desc[j].control & 0xFFFF_FF00) | field);
  }

  lemma ClearLow(c: bv32, mask: bv32)
    requires mask & 0xFFFF_FF00 == 0
    ensures LowByte(c & !mask) == LowByte(c) & !mask
  {
  }

  lemma ClearAdj(c: bv32, mask: bv32)
    requires mask & 0xFFFF_FF00 == 0
    ensures ExtraAdj(c & !mask) == ExtraAdj(c)
  {
    assert ((c & !mask) >> 8) & 0xF == (c >> 8) & 0xF;
  }

  lemma ClearHigh(c: bv32, mask: bv32)
    requires mask & 0xFFFF_FF00 == 0
    ensures (c & !mask) & 0xFFFF_0000 == c & 0xFFFF_0000
  {
  }

  method ClearBits(c: bv32, mask: bv32) returns (r: bv32)
    requires mask & 0xFFFF_FF00 == 0
    ensures LowByte(r) == LowByte(c) & !mask
    ensures ExtraAdj(r) == ExtraAdj(c) && HasMagic(r) == HasMagic(c)
  {
    ClearLow(c, mask);
    ClearAdj(c, mask);
    ClearHigh(c, mask);
    r := c & !mask;
    SameHighSameMagic(r, c);
  }

  lemma SetLow(c: bv32, mask: bv32)
    requires mask & 0xFFFF_FF00 == 0
    ensures LowByte(c | mask) == LowByte(c) | mask
  {
  }

  lemma SetAdj(c: bv32, mask: bv32)
    requires mask & 0xFFFF_FF00 == 0
    ensures ExtraAdj(c | mask) == ExtraAdj(c)
  {
    assert ((c | mask) >> 8) & 0xF == (c >> 8) & 0xF;
  }

  lemma SetHigh(c: bv32, mask: bv32)
    requires mask & 0xFFFF_FF00 == 0
    ensures (c | mask) & 0xFFFF_0000 == c & 0xFFFF_0000
  {
  }

  lemma SameHighSameMagic(a: bv32, b: bv32)
    requires a & 0xFFFF_0000 == b & 0xFFFF_0000
    ensures HasMagic(a) == HasMagic(b)
  {
  }

  method SetBits(c: bv32, mask: bv32) returns (r: bv32)
    requires mask & 0xFFFF_FF00 == 0
    ensures LowByte(r) == LowByte(c) | mask
    ensures ExtraAdj(r) == ExtraAdj(c) && HasMagic(r) == HasMagic(c)
  {
    SetLow(c, mask);
    SetAdj(c, mask);
    SetHigh(c, mask);
    r := c | mask;
    SameHighSameMagic(r, c);
  }

  /** xdma_desc_control_clear: of the control byte, exactly the given bits become 0. */
  method DescControlClear(desc: array<Desc>, j: nat, mask: bv32)
    requires j < desc.Length
    requires mask & 0xFFFF_FF00 == 0
    modifies desc
    ensures OnlyAt(old(desc[..]), desc[..], j)
    ensures old(desc[j]).SameMove(desc[j]) && desc[j].SameNext(old(desc[j]))
    ensures LowByte(desc[j].control) == LowByte(old(desc[j]).control) & !mask
    ensures ExtraAdj(desc[j].control) == ExtraAdj(old(desc[j]).control)
    ensures HasMagic(desc[j].control) == HasMagic(old(desc[j]).control)
  {
    var control := ClearBits(desc[j].control, mask);
    desc[j] := desc[j].(control := control);
  }

  /** xdma_desc_control_set: of the control byte, exactly the given bits become 1. */
  method DescControlSet(desc: array<Desc>, j: nat, mask: bv32)
    requires j < desc.Length
    requires mask & 0xFFFF_FF00 == 0
    modifies desc
    ensures OnlyAt(old(desc[..]), desc[..], j)
    ensures old(desc[j]).SameMove(desc[j]) && desc[j].SameNext(old(desc[j]))
    ensures LowByte(desc[j].control) == LowByte(old(desc[j]).control) | mask
    ensures ExtraAdj(desc[j].control) == ExtraAdj(old(desc[j]).control)
    ensures HasMagic(desc[j].control) == HasMagic(old(desc[j]).control)
  {
    var control := SetBits(desc[j].control, mask);
    desc[j] := desc[j].(control := control);
  }
}
