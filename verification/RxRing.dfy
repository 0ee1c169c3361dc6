/**
 The receive ring of an AXI-ST C2H engine: the result buffer the hardware writes slot by slot, and
 the functions that move its tail and its head. Each is proved to take the step of the receive
 model.
 */
module RxRing {
  import opened Words
  import opened Arith
  import opened RxModel

  const CLEAR := Result(0, 0)

  // The buffer

  /** Slot k after the head holds the k-th waiting record, or is clear if there is none. */
  ghost predicate SlotAt(slots: seq<Result>, head: nat, waiting: seq<Result>, k: nat)
    requires head < |slots| && k < |slots|
  {
    slots[Ahead(|slots|, head, k)] == if k < |waiting| then waiting[k] else CLEAR
  }

  /** The buffer holds exactly the waiting records, from the head on. */
  ghost predicate Holds(slots: seq<Result>, head: nat, waiting: seq<Result>) {
    && head < |slots| && |waiting| <= |slots|
    && forall k :: 0 <= k < |slots| ==> SlotAt(slots, head, waiting, k)
  }

  lemma WriteSlot(slots: seq<Result>, head: nat, waiting: seq<Result>, r: Result)
    requires Holds(slots, head, waiting) && |waiting| < |slots|
    ensures Holds(slots[Ahead(|slots|, head, |waiting|) := r], head, waiting + [r])
  {
    var slots' := slots[Ahead(|slots|, head, |waiting|) := r];
    forall k | 0 <= k < |slots'| ensures SlotAt(slots', head, waiting + [r], k) {
      assert SlotAt(slots, head, waiting, k);
    }
  }

  lemma OverwriteSlot(slots: seq<Result>, head: nat, waiting: seq<Result>, r: Result)
    requires Holds(slots, head, waiting) && waiting != []
    ensures Holds(slots[head := r], head, waiting[0 := r])
  {
    var slots', waiting' := slots[head := r], waiting[0 := r];
    forall k | 0 <= k < |slots'| ensures SlotAt(slots', head, waiting', k) {
      assert SlotAt(slots, head, waiting, k);
    }
  }

  lemma ClearSlot(slots: seq<Result>, head: nat, waiting: seq<Result>)
    requires Holds(slots, head, waiting) && waiting != []
    ensures Holds(slots[head := CLEAR], NextSlot(|slots|, head), waiting[1..])
  {
    var slots', head' := slots[head := CLEAR], NextSlot(|slots|, head);
    forall k | 0 <= k < |slots'| ensures SlotAt(slots', head', waiting[1..], k) {
      assert k + 1 < |slots| ==> SlotAt(slots, head, waiting, k + 1);
    }
  }

  class Ring {
    const results: array<Result>
    var rxHead: nat
    var rxTail: nat
    var rxOverrun: bool
    /** The slot to which the descriptor that is executed next reports */
    var hwNext: nat
    ghost var stream: seq<Result>
    ghost var consumed: nat
    ghost var seen: nat
    ghost var delivered: seq<int>

    ghost function Abs(): Rx
      reads this
    {
      Rx(results.Length, stream, consumed, seen, rxOverrun, delivered)
    }

    ghost predicate Written()
      reads this
    {
      forall i :: 0 <= i < |stream| ==> stream[i].status != 0
    }

    /** The driver's side: the buffer holds exactly the waiting records, and head and tail are
        running counts around it. */
    ghost predicate Consistent()
      reads this, results
    {
      var n := results.Length;
      && n > 0
      && consumed <= |stream| <= consumed + n
      && rxHead == Slot(n, 0, consumed) && rxTail == Slot(n, 0, seen)
      && Written()
      && Holds(results[..], rxHead, stream[consumed..])
    }

    /** The hardware goes on behind the last waiting record. */
    ghost predicate Valid()
      reads this, results
    {
      Consistent() && hwNext == Slot(results.Length, 0, |stream|)
    }

    /** cyclic_transfer_setup: the ring is empty, the zeroed result buffer has a slot for each
        descriptor. */
    constructor (n: nat)
      requires n > 0
      ensures Valid() && fresh(results) && results.Length == n
      ensures Inv(Abs()) && Abs() == Fresh(n)
    {
      results := new Result[n](i => CLEAR);
      rxHead, rxTail, rxOverrun, hwNext := 0, 0, false, 0;
      stream, consumed, seen, delivered := [], 0, 0, [];
      new;
      forall k | 0 <= k < n ensures SlotAt(results[..], 0, [], k) {
      }
    }

    /** The hardware reports a received block to the next slot, clear or not: behind the waiting
        records, or, when no slot is clear, over the first of them, and then its next slot is no
        longer behind the last one. */
    method HwWrite(r: Result)
      requires Valid() && r.status != 0
      modifies this`hwNext, this`stream, results
      ensures Consistent() && hwNext == (old(hwNext) + 1) % results.Length
      ensures stream == if |old(stream)| < consumed + results.Length then old(stream) + [r]
                        else old(stream)[consumed := r]
      ensures if old(|stream| < consumed + results.Length)
              then Valid() && Abs() == Write(old(Abs()), r)
              else Abs() == Overwrite(old(Abs()), r)
    {
      ghost var next := if |stream| < consumed + results.Length then Write(Abs(), r)
                        else Overwrite(Abs(), r);
      Reported(r);
      results[hwNext] := r;
      hwNext := (hwNext + 1) % results.Length;
      stream := next.stream;
    }

    /** What the buffer holds once r is written to the next slot. */
    lemma Reported(r: Result)
      requires Valid() && r.status != 0
      ensures var next := if |stream| < consumed + results.Length then Write(Abs(), r)
                          else Overwrite(Abs(), r);
              && Holds(results[..][hwNext := r], rxHead, next.stream[consumed..])
              && forall i :: 0 <= i < |next.stream| ==> next.stream[i].status != 0
      ensures |stream| < consumed + results.Length ==>
                (hwNext + 1) % results.Length == Slot(results.Length, 0, |stream| + 1)
    {
      var n, waiting := results.Length, stream[consumed..];
      if |stream| < consumed + n {
        AheadOfCount(n, consumed, |waiting|);
        NextSlotIsMod(n, hwNext);
        WriteSlot(results[..], rxHead, waiting, r);
        assert (stream + [r])[consumed..] == waiting + [r];
      } else {
        FullRound(n, consumed);
        OverwriteSlot(results[..], rxHead, waiting, r);
        assert stream[consumed := r][consumed..] == waiting[0 := r];
      }
    }

    /** With p pending records, the tail is p slots after the head modulo the ring size, every
        pending slot has a non-zero status, and record k of the stream goes to slot k modulo the
        ring size: the slot of the k-th descriptor the engine executes. */
    lemma RingPositions()
      requires Valid() && InOrder(Abs())
      ensures var n, p := results.Length, seen - consumed;
              && p <= n && rxTail == (rxHead + p) % n
              && hwNext == |stream| % n
              && forall k :: 0 <= k < p ==> results[Ahead(n, rxHead, k)].status != 0
    {
      var n, p := results.Length, seen - consumed;
      AheadOfCount(n, consumed, p);
      AheadIsSlot(n, rxHead, p);
      SlotIsMod(n, rxHead, p);
      SlotIsMod(n, 0, |stream|);
      forall k | 0 <= k < p ensures results[Ahead(n, rxHead, k)].status != 0 {
        assert SlotAt(results[..], rxHead, stream[consumed..], k);
      }
    }

    /** The tail slot holds the next unseen record, or is clear. */
    lemma TailSlot()
      requires Consistent() && consumed <= seen < consumed + results.Length && seen <= |stream|
      ensures results[rxTail] == if seen < |stream| then stream[seen] else CLEAR
    {
      AheadOfCount(results.Length, consumed, seen - consumed);
      assert SlotAt(results[..], rxHead, stream[consumed..], seen - consumed);
    }

    /** The tail meets the head exactly when the ring is full. */
    static lemma TailMeetsHead(n: nat, consumed: nat, seen: nat)
      requires n > 0 && consumed < seen <= consumed + n
      ensures Slot(n, 0, seen) == Slot(n, 0, consumed) <==> seen == consumed + n
    {
      AheadOfCount(n, consumed, seen - consumed);
    }

    /** The tail moves on by one. */
    method AdvanceTail()
      requires Consistent() && consumed <= seen < |stream|
      modifies this`rxTail, this`rxOverrun, this`seen
      ensures Consistent() && seen == old(seen) + 1
      ensures rxOverrun == (old(rxOverrun) || seen == consumed + results.Length)
    {
      NextSlotIsMod(results.Length, rxTail);
      TailMeetsHead(results.Length, consumed, seen + 1);
      rxTail := (rxTail + 1) % results.Length;
      seen := seen + 1;
      if rxTail == rxHead {
        rxOverrun := true;
      }
    }

    /** Once around the ring */
    static lemma FullRound(n: nat, consumed: nat)
      requires n > 0
      ensures Slot(n, 0, consumed + n) == Slot(n, 0, consumed)
    {
      AheadOfCount(n, consumed, n);
    }

    /** The loop of engine_ring_process, from a tail that is not a full ring ahead of the head
        unless the ring is flagged. */
    method Scan() returns (eopCount: nat)
      requires Consistent() && InOrder(Abs()) && Flagged(Abs())
      modifies this`rxTail, this`rxOverrun, this`seen
      ensures Consistent() && InOrder(Abs())
      ensures Abs() == RxModel.Process(old(Abs()))
      ensures eopCount == EopCount(stream, old(seen), seen)
    {
      eopCount := 0;
      ghost var before := seen;
      while true
        invariant Consistent() && InOrder(Abs()) && Flagged(Abs()) && before <= seen
        invariant RxModel.Process(Abs()) == RxModel.Process(old(Abs()))
        invariant eopCount == EopCount(stream, before, seen)
        decreases consumed + results.Length - seen
      {
        if !rxOverrun {
          TailSlot();
        }
        if rxOverrun || results[rxTail].status == 0 {
          break;
        }
        if IsEop(results[rxTail]) {
          eopCount := eopCount + 1;
        }
        AdvanceTail();
      }
    }

    /** engine_ring_process. From a full ring whose flag was cleared, the tail is where the head is,
        and the loop goes around the whole ring. */
    method Process() returns (eopCount: nat)
      requires Consistent() && InOrder(Abs())
      modifies this`rxTail, this`rxOverrun, this`seen
      ensures Consistent() && InOrder(Abs())
      ensures Abs() == RxModel.Process(old(Abs()))
      ensures eopCount == Returned(old(Abs()))
      ensures if old(rxOverrun) then seen == old(seen) && rxOverrun && eopCount == 0
              else seen == |stream| && rxOverrun == (|stream| == consumed + results.Length)
      ensures old(Flagged(Abs())) ==>
                (eopCount == 0 <==> forall i :: old(seen) <= i < seen ==> stream[i].status & 1 == 0)
      ensures old(Flagged(Abs())) && AllGood(stream[old(seen)..seen]) ==>
                eopCount == |Packets(stream[old(seen)..seen])|
    {
      ghost var before, flagged := seen, Flagged(Abs());
      if !Flagged(Abs()) {
        FullRound(results.Length, consumed);
        seen := consumed;
      }
      eopCount := Scan();
      if flagged {
        CountedSince(before, eopCount);
      }
    }

    /** What a count of EOPs since then says about the records. */
    lemma CountedSince(before: nat, eopCount: nat)
      requires before <= seen <= |stream| && eopCount == EopCount(stream, before, seen)
      ensures eopCount == 0 <==> forall i :: before <= i < seen ==> stream[i].status & 1 == 0
      ensures AllGood(stream[before..seen]) ==> eopCount == |Packets(stream[before..seen])|
    {
      EopCountIs(stream, before, before, seen);
      if AllGood(stream[before..seen]) {
        EopsArePackets(stream, before, seen);
      }
    }

    /** Clear the slot at the head and move the head on by one. */
    method ClearHead()
      requires Consistent() && consumed < |stream|
      modifies this`rxHead, this`consumed, results
      ensures Consistent() && consumed == old(consumed) + 1
    {
      ClearSlot(results[..], rxHead, stream[consumed..]);
      NextSlotIsMod(results.Length, rxHead);
      assert stream[consumed..][1..] == stream[consumed + 1..];
      results[rxHead] := CLEAR;
      rxHead := (rxHead + 1) % results.Length;
      consumed := consumed + 1;
    }

    /** The head slot holds the first waiting record, or is clear. */
    lemma HeadSlot()
      requires Consistent()
      ensures results[rxHead] == if consumed < |stream| then stream[consumed] else CLEAR
    {
      assert SlotAt(results[..], rxHead, stream[consumed..], 0);
    }

    /** What complete_cyclic makes of one record. */
    static method Examine(r: Result, pktLength: nat) returns (length: nat, fault: bool, eop: bool)
      ensures fault == !IsGood(r) && eop == (IsGood(r) && IsEop(r))
      ensures fault <==> !(r.status >> 16 == 0x52B4 && 0 < r.length <= 4096)
      ensures eop <==> !fault && r.status & 1 == 1
      ensures length == if fault then pktLength else pktLength + r.length
    {
      length, fault, eop := pktLength, false, false;
      if !HasResultMagic(r) {
        fault := true;
      } else if r.length > RX_BUF_BLOCK {
        fault := true;
      } else if r.length == 0 {
        fault := true;
      } else {
        length := pktLength + r.length;
        if IsEop(r) {
          eop := true;
        }
      }
    }

    /** Take records off the head until one ends a packet or none is left. */
    method TakePacket() returns (pktLength: nat, fault: bool, eop: bool)
      requires Consistent()
      modifies this`rxHead, this`consumed, results
      ensures Consistent()
      ensures var waiting := old(stream[consumed..]);
              consumed == old(consumed) + PacketSize(waiting)
              && PacketResult(waiting) == if fault then -EIO else if eop then pktLength else 0
    {
      pktLength, fault, eop := 0, false, false;
      ghost var waiting := stream[consumed..];
      ghost var k := 0;
      FirstEndIs(waiting);
      while true
        invariant Consistent() && !fault && !eop && consumed == old(consumed) + k
        invariant k <= FirstEnd(waiting) && pktLength == TotalLength(waiting[..k])
        decreases |waiting| - k
      {
        HeadSlot();
        if results[rxHead].status == 0 {
          break;
        }
        assert results[rxHead] == waiting[k];
        assert waiting[..k + 1][..k] == waiting[..k];
        pktLength, fault, eop := Examine(results[rxHead], pktLength);
        ClearHead();
        if fault || eop {
          break;
        }
        k := k + 1;
      }
    }

    /** complete_cyclic: the record that ends the packet may be one the tail has not reached. */
    method CompleteCyclic() returns (rc: int)
      requires Consistent()
      modifies this`rxHead, this`consumed, this`delivered, results
      ensures Consistent()
      ensures Abs() == Complete(old(Abs()))
      ensures consumed == old(consumed) + PacketSize(old(stream[consumed..]))
      ensures delivered == old(delivered) + [rc]
      ensures rc == PacketResult(old(stream[consumed..])) <= 4096 * results.Length
    {
      ResultBound(stream[consumed..], results.Length);
      var pktLength, fault, eop := TakePacket();
      rc := 0;
      if fault {
        rc := -EIO;
      } else if eop {
        rc := pktLength;
      }
      delivered := delivered + [rc];
    }

    /** The end of char_sgdma_read_cyclic */
    method ClearOverrun()
      requires Consistent()
      modifies this`rxOverrun
      ensures Consistent()
      ensures Abs() == ResetOverrun(old(Abs())) && !rxOverrun
    {
      if rxOverrun {
        rxOverrun := false;
      }
    }
  }

  // Where it goes wrong

  method RingOfTwo(a: Result, b: Result) returns (ring: Ring)
    requires a.status != 0 && b.status != 0
    ensures ring.Valid() && fresh(ring) && fresh(ring.results)
    ensures ring.Abs() == Rx(2, [a, b], 0, 0, false, [])
  {
    ring := new Ring(2);
    ring.HwWrite(a);
    ring.HwWrite(b);
    assert ring.stream == [a, b];
  }

  /** A read of a ring in which packets of one record wait. */
  method ReadPacket(ring: Ring, ghost length: u32, ghost rest: seq<Result>) returns (rc: int)
    requires ring.Consistent() && 0 < length <= RX_BUF_BLOCK
    requires ring.stream[ring.consumed..] == [Packet(length)] + rest
    modifies ring`rxHead, ring`consumed, ring`delivered, ring.results
    ensures ring.Consistent() && ring.stream[ring.consumed..] == rest
    ensures rc == length
  {
    OnePacketEach(length, rest);
    ghost var waiting := ring.stream[ring.consumed..];
    rc := ring.CompleteCyclic();
    assert ring.stream[ring.consumed..] == waiting[1..];
  }

  lemma ThreePackets()
    ensures Packets([Packet(64), Packet(128), Packet(32)]) == [64, 128, 32]
  {
    OnePacketEach(64, [Packet(128), Packet(32)]);
    OnePacketEach(128, [Packet(32)]);
    OnePacketEach(32, []);
    assert [Packet(32)] + [] == [Packet(32)];
    assert [Packet(64)] + [Packet(128), Packet(32)] == [Packet(64), Packet(128), Packet(32)];
    assert [Packet(128)] + [Packet(32)] == [Packet(128), Packet(32)];
  }

  lemma PacketIsWritten(length: u32)
    ensures Packet(length).status != 0
  {
  }

  /** A ring of two is full when a third packet comes: readers get the third one first and the first
      one never, and no read reports it. */
  method LostPacketRun() returns (first: int, second: int)
    ensures Packets([Packet(64), Packet(128), Packet(32)]) == [64, 128, 32]
    ensures first == 32 && second == 128
  {
    ThreePackets();
    PacketIsWritten(64);
    PacketIsWritten(128);
    PacketIsWritten(32);
    var ring := RingOfTwo(Packet(64), Packet(128));
    ring.HwWrite(Packet(32));
    assert ring.stream[ring.consumed..] == [Packet(32)] + [Packet(128)];
    var eops := ring.Process();
    first := ReadPacket(ring, 32, [Packet(128)]);
    assert [Packet(128)] == [Packet(128)] + [];
    second := ReadPacket(ring, 128, []);
  }
}
