/**
 Receiving in cyclic mode, without the ring: the hardware's stream of result records, how it falls
 into packets, and the steps of the driver on it.
 */
module RxModel {
  import opened Words

  const RX_BUF_BLOCK := 4096

  /** A result record the hardware writes for a received block. */
  datatype Result = Result(status: bv32, length: u32)

  predicate HasResultMagic(r: Result) {
    r.status >> 16 == 0x52B4
  }

  predicate IsEop(r: Result) {
    r.status & 1 != 0
  }

  predicate IsGood(r: Result) {
    HasResultMagic(r) && 0 < r.length <= RX_BUF_BLOCK
  }

  /** A record that ends a packet, or is faulty. */
  predicate Terminates(r: Result) {
    !IsGood(r) || IsEop(r)
  }

  // Packets

  /** The index of the first record that ends a packet, or the number of records if none does. */
  function FirstEnd(rs: seq<Result>): (t: nat)
    ensures t <= |rs|
  {
    if rs == [] || Terminates(rs[0]) then 0 else 1 + FirstEnd(rs[1..])
  }

  function TotalLength(rs: seq<Result>): nat {
    if rs == [] then 0 else TotalLength(rs[..|rs| - 1]) + rs[|rs| - 1].length
  }

  /** The records of the first packet, with the one that ends it. */
  function PacketSize(rs: seq<Result>): (k: nat)
    ensures k <= |rs|
    ensures rs != [] ==> k > 0
  {
    if FirstEnd(rs) < |rs| then FirstEnd(rs) + 1 else |rs|
  }

  /** What a reader gets for the first packet: the sum of its lengths, an error if the record that
      ends it is faulty, and 0 when no record ends it. */
  function PacketResult(rs: seq<Result>): int {
    var t := FirstEnd(rs);
    if t == |rs| then 0
    else if !IsGood(rs[t]) then -EIO
    else TotalLength(rs[..t + 1])
  }

  /** The results of all complete packets of a stream. */
  function Packets(rs: seq<Result>): seq<int>
    decreases |rs|
  {
    if FirstEnd(rs) == |rs| then []
    else [PacketResult(rs)] + Packets(rs[PacketSize(rs)..])
  }

  /** The stream ends with a packet. */
  predicate AtBoundary(rs: seq<Result>) {
    rs == [] || Terminates(rs[|rs| - 1])
  }

  lemma {:induction false} FirstEndIs(rs: seq<Result>)
    ensures var t := FirstEnd(rs);
            && (forall i :: 0 <= i < t ==> !Terminates(rs[i]))
            && (t < |rs| ==> Terminates(rs[t]))
  {
    if rs != [] && !Terminates(rs[0]) {
      FirstEndIs(rs[1..]);
    }
  }

  lemma {:induction false} FirstEndUnique(rs: seq<Result>, t: nat)
    requires t <= |rs| && forall i :: 0 <= i < t ==> !Terminates(rs[i])
    requires t < |rs| ==> Terminates(rs[t])
    ensures FirstEnd(rs) == t
  {
    if t > 0 {
      FirstEndUnique(rs[1..], t - 1);
    }
  }

  /** What follows the end of the first packet does not matter for it. */
  lemma {:induction false} FirstPacketOf(a: seq<Result>, b: seq<Result>)
    requires FirstEnd(a) < |a|
    ensures FirstEnd(a + b) == FirstEnd(a)
    ensures PacketResult(a + b) == PacketResult(a)
  {
    FirstEndIs(a);
    FirstEndUnique(a + b, FirstEnd(a));
    assert (a + b)[..FirstEnd(a) + 1] == a[..FirstEnd(a) + 1];
  }

  lemma LastEnds(a: seq<Result>)
    requires a != [] && AtBoundary(a)
    ensures FirstEnd(a) < |a|
    ensures AtBoundary(a[PacketSize(a)..])
  {
    FirstEndIs(a);
  }

  lemma ConsConcat(x: int, p: seq<int>, q: seq<int>)
    ensures [x] + (p + q) == ([x] + p) + q
  {
  }

  lemma {:induction false} FirstPacketFirst(a: seq<Result>, b: seq<Result>)
    requires FirstEnd(a) < |a|
    ensures var k := PacketSize(a);
            && Packets(a) == [PacketResult(a)] + Packets(a[k..])
            && Packets(a + b) == [PacketResult(a)] + Packets(a[k..] + b)
  {
    FirstPacketOf(a, b);
    assert (a + b)[PacketSize(a)..] == a[PacketSize(a)..] + b;
  }

  /** A stream that ends with a packet can be continued without changing its packets. */
  lemma {:induction false} PacketsConcat(a: seq<Result>, b: seq<Result>)
    requires AtBoundary(a)
    ensures Packets(a + b) == Packets(a) + Packets(b)
    decreases |a|
  {
    if a == [] {
      assert a + b == b;
    } else {
      LastEnds(a);
      var rest := a[PacketSize(a)..];
      PacketsConcat(rest, b);
      PacketsBehindFirst(a, b, rest);
    }
  }

  lemma {:induction false} PacketsBehindFirst(a: seq<Result>, b: seq<Result>, rest: seq<Result>)
    requires FirstEnd(a) < |a| && rest == a[PacketSize(a)..]
    requires Packets(rest + b) == Packets(rest) + Packets(b)
    ensures Packets(a + b) == Packets(a) + Packets(b)
  {
    FirstPacketFirst(a, b);
    ConsConcat(PacketResult(a), Packets(rest), Packets(b));
  }

  lemma PacketsSplit(rs: seq<Result>, k: nat)
    requires k <= |rs| && AtBoundary(rs[..k])
    ensures Packets(rs) == Packets(rs[..k]) + Packets(rs[k..])
  {
    var a, b := rs[..k], rs[k..];
    assert rs == a + b;
    PacketsConcat(a, b);
  }

  lemma BoundaryConcat(a: seq<Result>, b: seq<Result>)
    requires AtBoundary(a) && AtBoundary(b)
    ensures AtBoundary(a + b)
  {
    if b == [] {
      assert a + b == a;
    }
  }

  lemma {:induction false} LonePacket(p: seq<Result>)
    requires p != [] && FirstEnd(p) == |p| - 1
    ensures Packets(p) == [PacketResult(p)] && AtBoundary(p)
  {
    FirstEndIs(p);
    assert p[PacketSize(p)..] == [];
  }

  lemma {:induction false} PacketIsOne(rs: seq<Result>)
    requires FirstEnd(rs) < |rs|
    ensures Packets(rs[..PacketSize(rs)]) == [PacketResult(rs)]
    ensures AtBoundary(rs[..PacketSize(rs)])
  {
    var t := FirstEnd(rs);
    var p, rest := rs[..t + 1], rs[t + 1..];
    FirstEndIs(rs);
    FirstEndUnique(p, t);
    LonePacket(p);
    FirstPacketOf(p, rest);
    assert p + rest == rs;
  }

  /** A packet of good records: the result is the sum of its lengths, each counted once; and never
      more than a block for each record. */
  lemma {:induction false} LengthBound(rs: seq<Result>)
    requires forall i :: 0 <= i < |rs| ==> 0 < rs[i].length <= RX_BUF_BLOCK
    ensures |rs| <= TotalLength(rs) <= RX_BUF_BLOCK * |rs|
  {
    if rs != [] {
      LengthBound(rs[..|rs| - 1]);
    }
  }

  lemma GoodLength(r: Result)
    requires IsGood(r) || !Terminates(r)
    ensures 0 < r.length <= RX_BUF_BLOCK
  {
  }

  lemma {:induction false} PacketBound(rs: seq<Result>, t: nat)
    requires t < |rs| && FirstEnd(rs) == t && IsGood(rs[t])
    ensures 0 < TotalLength(rs[..t + 1]) <= RX_BUF_BLOCK * (t + 1)
  {
    var p := rs[..t + 1];
    FirstEndIs(rs);
    forall i | 0 <= i < |p| ensures 0 < p[i].length <= RX_BUF_BLOCK {
      GoodLength(rs[i]);
    }
    LengthBound(p);
  }

  /** A read returns at most a block for each slot, and something positive exactly when a good
      record ends the packet. */
  lemma ResultBound(rs: seq<Result>, n: nat)
    requires |rs| <= n
    ensures PacketResult(rs) <= RX_BUF_BLOCK * n
    ensures PacketResult(rs) > 0 <==> FirstEnd(rs) < |rs| && IsGood(rs[FirstEnd(rs)])
  {
    var t := FirstEnd(rs);
    if t < |rs| && IsGood(rs[t]) {
      PacketBound(rs, t);
    }
  }

  /** A record in the middle of a packet, as it lies in the buffer: magic, one to 4096 bytes, and no
      EOP. */
  predicate GoesOn(r: Result) {
    r.status >> 16 == 0x52B4 && r.status & 1 == 0 && 0 < r.length <= 4096
  }

  /** Behind t records in the middle of a packet, which is all there are or the next one ends it:
      the read takes them and the one that ends the packet, and returns 0, the length of all, or
      -EIO for one without magic or with a bad length. */
  lemma ResultOf(rs: seq<Result>, t: nat)
    requires t <= |rs| && forall i :: 0 <= i < t ==> GoesOn(rs[i])
    requires t < |rs| ==> !GoesOn(rs[t])
    ensures PacketSize(rs) == if t < |rs| then t + 1 else |rs|
    ensures PacketResult(rs)
            == if t == |rs| then 0
               else if rs[t].status >> 16 == 0x52B4 && 0 < rs[t].length <= 4096
               then TotalLength(rs[..t + 1])
               else -EIO
  {
    FirstEndUnique(rs, t);
  }

  predicate AllGood(rs: seq<Result>) {
    forall i :: 0 <= i < |rs| ==> IsGood(rs[i])
  }

  function Sum(xs: seq<int>): int {
    if xs == [] then 0 else xs[0] + Sum(xs[1..])
  }

  lemma {:induction false} TotalLengthConcat(a: seq<Result>, b: seq<Result>)
    ensures TotalLength(a + b) == TotalLength(a) + TotalLength(b)
  {
    if b == [] {
      assert a + b == a;
    } else {
      TotalLengthConcat(a, b[..|b| - 1]);
      assert (a + b)[..|a + b| - 1] == a + b[..|b| - 1];
    }
  }

  /** Whole packets of good records carry all their bytes. */
  lemma {:induction false} BytesDelivered(rs: seq<Result>)
    requires AtBoundary(rs) && AllGood(rs)
    ensures Sum(Packets(rs)) == TotalLength(rs)
    decreases |rs|
  {
    if rs != [] {
      LastEnds(rs);
      var k := PacketSize(rs);
      assert rs == rs[..k] + rs[k..];
      TotalLengthConcat(rs[..k], rs[k..]);
      GoodResult(rs);
      BytesDelivered(rs[k..]);
    }
  }

  lemma GoodResult(rs: seq<Result>)
    requires AllGood(rs) && FirstEnd(rs) < |rs|
    ensures PacketResult(rs) == TotalLength(rs[..PacketSize(rs)])
    ensures AllGood(rs[PacketSize(rs)..])
  {
  }

  // Steps

  /** A ring of n blocks: the whole stream written by the hardware, how many of its records the head
      (the reader) and the tail (the interrupt handler) have passed, the overrun flag, and what
      readers got. */
  datatype Rx = Rx(
    n: nat, stream: seq<Result>, consumed: nat, seen: nat, overrun: bool, delivered: seq<int>)
  {
    /** Written and not yet consumed. */
    function Waiting(): seq<Result>
      requires consumed <= |stream|
    {
      stream[consumed..]
    }

    /** Seen by the handler and not yet consumed. */
    function Pending(): seq<Result>
      requires consumed <= seen <= |stream|
    {
      stream[consumed..seen]
    }
  }

  function Write(s: Rx, r: Result): Rx {
    s.(stream := s.stream + [r])
  }

  /** A record written when no slot is clear: it takes the place of the first waiting one. */
  function Overwrite(s: Rx, r: Result): Rx
    requires s.consumed < |s.stream|
  {
    s.(stream := s.stream[s.consumed := r])
  }

  /** engine_ring_process: sees everything written, unless the ring has already overrun. */
  function Process(s: Rx): Rx {
    if s.overrun then s
    else s.(seen := |s.stream|, overrun := |s.stream| == s.consumed + s.n)
  }

  /** The number of EOP bits in records lo..hi of the stream. */
  function EopCount(stream: seq<Result>, lo: nat, hi: nat): nat
    requires hi <= |stream|
    decreases hi
  {
    if hi <= lo then 0
    else EopCount(stream, lo, hi - 1) + if IsEop(stream[hi - 1]) then 1 else 0
  }

  /** It is additive, and counts exactly the records with status bit 0 set. */
  lemma {:induction false} EopCountIs(stream: seq<Result>, lo: nat, mid: nat, hi: nat)
    requires lo <= mid <= hi <= |stream|
    ensures EopCount(stream, lo, hi) == EopCount(stream, lo, mid) + EopCount(stream, mid, hi)
    ensures EopCount(stream, lo, hi) == 0
            <==> forall i :: lo <= i < hi ==> stream[i].status & 1 == 0
    ensures hi == lo + 1 && stream[lo].status & 1 == 1 ==> EopCount(stream, lo, hi) == 1
    decreases hi
  {
    if mid < hi {
      EopCountIs(stream, lo, mid, hi - 1);
    } else if lo < hi {
      EopCountIs(stream, lo, hi - 1, hi - 1);
    }
    if lo < hi {
      EopBit(stream[hi - 1]);
    }
  }

  lemma EopBit(r: Result)
    ensures IsEop(r) <==> r.status & 1 == 1
    ensures r.status & 1 == 0 || r.status & 1 == 1
  {
  }

  lemma {:induction false} PacketsSnoc(rs: seq<Result>, r: Result)
    ensures |Packets(rs + [r])| == |Packets(rs)| + if Terminates(r) then 1 else 0
    decreases |rs|
  {
    FirstEndIs(rs);
    if FirstEnd(rs) < |rs| {
      PacketsSnoc(rs[PacketSize(rs)..], r);
      FirstPacketFirst(rs, [r]);
    } else {
      FirstEndUnique(rs + [r], if Terminates(r) then |rs| else |rs| + 1);
      assert (rs + [r])[PacketSize(rs + [r])..] == [];
    }
  }

  /** For good records it is the number of packets that end among them. */
  lemma {:induction false} EopsArePackets(stream: seq<Result>, lo: nat, hi: nat)
    requires lo <= hi <= |stream| && AllGood(stream[lo..hi])
    ensures EopCount(stream, lo, hi) == |Packets(stream[lo..hi])|
    decreases hi
  {
    if lo < hi {
      var front, last := stream[lo..hi - 1], stream[hi - 1];
      SliceSnoc(stream, lo, hi);
      assert forall i :: 0 <= i < |front| ==> front[i] == stream[lo..hi][i];
      EopsArePackets(stream, lo, hi - 1);
      PacketsSnoc(front, last);
    }
  }

  lemma SliceSnoc(stream: seq<Result>, lo: nat, hi: nat)
    requires lo < hi <= |stream|
    ensures stream[lo..hi] == stream[lo..hi - 1] + [stream[hi - 1]]
    ensures stream[lo..hi][hi - 1 - lo] == stream[hi - 1]
  {
  }

  /** The number of EOPs engine_ring_process returns. When the ring is full and the flag is off, the
      slot at the tail is that of the first waiting record, and it walks around the whole ring. */
  function Returned(s: Rx): nat
    requires s.seen <= |s.stream|
  {
    if s.overrun then 0
    else EopCount(s.stream, if s.seen == s.consumed + s.n then s.consumed else s.seen, |s.stream|)
  }

  /** complete_cyclic: takes the first packet of what is written, seen or not. */
  function Complete(s: Rx): Rx
    requires s.consumed <= |s.stream|
  {
    s.(consumed := s.consumed + PacketSize(s.Waiting()),
       delivered := s.delivered + [PacketResult(s.Waiting())])
  }

  /** The end of a read */
  function ResetOverrun(s: Rx): Rx {
    s.(overrun := false)
  }

  /** The head has not passed the tail, and the ring holds at most n records. */
  predicate InOrder(s: Rx) {
    s.n > 0 && s.consumed <= s.seen <= |s.stream| <= s.consumed + s.n
  }

  /** A ring full of unread records is flagged, so that the handler leaves it alone. */
  predicate Flagged(s: Rx) {
    s.seen == s.consumed + s.n ==> s.overrun
  }

  /** Besides, readers got exactly the packets before the head, which stands between packets. */
  ghost predicate Inv(s: Rx) {
    && InOrder(s)
    && (forall i :: 0 <= i < |s.stream| ==> s.stream[i].status != 0)
    && s.delivered == Packets(s.stream[..s.consumed])
    && AtBoundary(s.stream[..s.consumed])
  }

  /** The hardware may write a record exactly while a slot is clear. Nothing in the driver keeps it
      from writing when none is. */
  lemma WriteKeepsInvIff(s: Rx, r: Result)
    requires Inv(s)
    ensures Inv(Write(s, r)) <==> |s.stream| < s.consumed + s.n && r.status != 0
  {
    var stream := Write(s, r).stream;
    assert stream[..s.consumed] == s.stream[..s.consumed];
    assert stream[|stream| - 1] == r;
  }

  lemma ProcessKeepsInv(s: Rx)
    requires Inv(s)
    ensures Inv(Process(s))
  {
  }

  /** One more packet behind whole packets. */
  lemma NextPacket(before: seq<Result>, waiting: seq<Result>)
    requires AtBoundary(before) && FirstEnd(waiting) < |waiting|
    ensures var through := before + waiting[..PacketSize(waiting)];
            Packets(through) == Packets(before) + [PacketResult(waiting)] && AtBoundary(through)
  {
    var packet := waiting[..PacketSize(waiting)];
    PacketIsOne(waiting);
    PacketsConcat(before, packet);
    BoundaryConcat(before, packet);
  }

  lemma ConsumedThrough(s: Rx)
    requires s.consumed <= |s.stream|
    ensures var c := Complete(s);
            c.consumed <= |s.stream|
            && c.stream[..c.consumed]
               == s.stream[..s.consumed] + s.Waiting()[..PacketSize(s.Waiting())]
  {
  }

  /** One completed packet extends the packets before the head by one. */
  lemma CompleteDelivers(s: Rx)
    requires s.consumed <= |s.stream| && FirstEnd(s.Waiting()) < |s.Waiting()|
    requires s.delivered == Packets(s.stream[..s.consumed]) && AtBoundary(s.stream[..s.consumed])
    ensures var c := Complete(s);
            && c.delivered == Packets(c.stream[..c.consumed])
            && AtBoundary(c.stream[..c.consumed])
  {
    NextPacket(s.stream[..s.consumed], s.Waiting());
    ConsumedThrough(s);
  }

  /** The first packet ends among the pending records. */
  predicate EndPending(s: Rx)
    requires s.consumed <= s.seen <= |s.stream|
  {
    FirstEnd(s.Pending()) < |s.Pending()|
  }

  lemma PendingEndIsWaitingEnd(s: Rx)
    requires s.consumed <= s.seen <= |s.stream|
    ensures EndPending(s) <==> FirstEnd(s.Waiting()) < s.seen - s.consumed
  {
    var t := FirstEnd(s.Waiting());
    FirstEndIs(s.Waiting());
    if t < s.seen - s.consumed {
      assert s.Pending()[t] == s.Waiting()[t];
      assert forall i :: 0 <= i < t ==> s.Pending()[i] == s.Waiting()[i];
      FirstEndUnique(s.Pending(), t);
    } else {
      assert forall i :: 0 <= i < |s.Pending()| ==> s.Pending()[i] == s.Waiting()[i];
      FirstEndUnique(s.Pending(), |s.Pending()|);
    }
  }

  /** A read of a non-empty ring keeps the invariant exactly when the end of a packet is pending:
      otherwise the head passes the tail, or a partial packet is lost. */
  lemma CompleteKeepsInvIff(s: Rx)
    requires Inv(s) && s.Waiting() != []
    ensures Inv(Complete(s)) <==> EndPending(s)
    ensures !EndPending(s) && s.seen == |s.stream| ==>
              PacketResult(s.Waiting()) == 0 && Complete(s).Waiting() == []
  {
    PendingEndIsWaitingEnd(s);
    var t, c := FirstEnd(s.Waiting()), Complete(s);
    FirstEndIs(s.Waiting());
    if EndPending(s) {
      CompleteDelivers(s);
    } else if t == |s.Waiting()| {
      assert c.stream[..c.consumed] == s.stream;
      assert s.stream[|s.stream| - 1] == s.Waiting()[t - 1];
    }
  }

  /** The read clears the flag without the lock and without another look at the ring. That never
      harms the packets. */
  lemma ClearKeepsInv(s: Rx)
    requires Inv(s)
    ensures Inv(ResetOverrun(s))
  {
  }

  /** What the handler returns is the number of EOPs it newly saw if and only if the flag is
      right or no EOP waits at all: from a full ring with the flag off it counts every waiting
      EOP again. */
  lemma ReturnedIsNewIff(s: Rx)
    requires InOrder(s)
    ensures Returned(s) == EopCount(s.stream, s.seen, Process(s).seen)
            <==> Flagged(s) || EopCount(s.stream, s.consumed, |s.stream|) == 0
  {
  }

  // Runs

  datatype Event = Received(r: Result) | Handler | Read | Clear

  /** The hardware reports to clear slots only, and readers wait for the end of a packet. */
  predicate Enabled(s: Rx, e: Event)
    requires s.consumed <= s.seen <= |s.stream|
  {
    match e
    case Received(r) => |s.stream| < s.consumed + s.n && r.status != 0
    case Handler => true
    case Read => EndPending(s)
    case Clear => true
  }

  /** One step; an event that is not enabled changes nothing. */
  function Step(s: Rx, e: Event): Rx
    requires s.consumed <= s.seen <= |s.stream|
  {
    if !Enabled(s, e) then s
    else match e
      case Received(r) => Write(s, r)
      case Handler => Process(s)
      case Read => Complete(s)
      case Clear => ResetOverrun(s)
  }

  lemma StepKeepsInv(s: Rx, e: Event)
    requires Inv(s)
    ensures Inv(Step(s, e))
  {
    if Enabled(s, e) {
      match e
      case Received(r) => WriteKeepsInvIff(s, r);
      case Handler => ProcessKeepsInv(s);
      case Read => CompleteKeepsInvIff(s);
      case Clear => ClearKeepsInv(s);
    }
  }

  /** The flag goes wrong in exactly one step: when it is cleared on a full ring. */
  lemma FlagLostIff(s: Rx, e: Event)
    requires Inv(s) && Flagged(s)
    ensures Flagged(Step(s, e)) <==> !(e.Clear? && s.seen == s.consumed + s.n)
  {
    if e.Read? && Enabled(s, e) {
      PendingEndIsWaitingEnd(s);
    }
  }

  /** Every state of a run satisfies the invariant. */
  ghost function Run(s: Rx, es: seq<Event>): (r: Rx)
    requires Inv(s)
    ensures Inv(r)
  {
    if es == [] then s
    else
      var s' := Run(s, es[..|es| - 1]);
      StepKeepsInv(s', es[|es| - 1]);
      Step(s', es[|es| - 1])
  }

  /** The ring is a packet FIFO as long as the hardware finds clear slots: over every interleaving
      of the hardware, the handler and readers that wait for a packet, across any number of wraps,
      what readers got and what still waits is exactly the sequence of packets of the hardware's
      stream; and if all its records are good, every received byte before the head was delivered
      once. */
  lemma RingIsFifo(s: Rx, es: seq<Event>)
    requires Inv(s)
    ensures var r := Run(s, es);
            && r.delivered + Packets(r.Waiting()) == Packets(r.stream)
            && (AllGood(r.stream) ==> Sum(r.delivered) == TotalLength(r.stream[..r.consumed]))
  {
    var r := Run(s, es);
    PacketsSplit(r.stream, r.consumed);
    if AllGood(r.stream) {
      BytesDelivered(r.stream[..r.consumed]);
    }
  }

  // Where it goes wrong

  function Fresh(n: nat): Rx {
    Rx(n, [], 0, 0, false, [])
  }

  /** A good record of 64 bytes, with or without EOP */
  function Record(eop: bool): Result {
    Result(if eop then 0x52B4_0001 else 0x52B4_0000, 64)
  }

  lemma RunSnoc(s: Rx, es: seq<Event>, e: Event, s1: Rx, s2: Rx)
    requires Inv(s) && Run(s, es) == s1
    requires s1.consumed <= s1.seen <= |s1.stream| && Step(s1, e) == s2
    ensures Run(s, es + [e]) == s2
  {
    assert (es + [e])[..|es + [e]| - 1] == es;
  }

  lemma RecordFacts()
    ensures IsGood(Record(true)) && IsEop(Record(true)) && Record(true).status != 0
    ensures IsGood(Record(false)) && !IsEop(Record(false)) && Record(false).status != 0
  {
  }

  /** A ring of two that has delivered one packet and holds `waiting` more, of one record each. */
  function AfterOne(waiting: nat, seen: nat, overrun: bool): Rx
    requires waiting <= 2
  {
    var r := Record(true);
    Rx(2, if waiting == 0 then [r] else if waiting == 1 then [r, r] else [r, r, r],
       1, seen, overrun, [64])
  }

  lemma ReadStep()
    ensures Step(Rx(2, [Record(true)], 0, 1, false, []), Read) == AfterOne(0, 1, false)
  {
    var r := Record(true);
    RecordFacts();
    assert [r][0..] == [r] && [r][0..1] == [r] && [r][..1] == [r] && [r][..0] == [];
  }

  lemma FirstSteps(r: Result)
    requires r.status != 0
    ensures Step(Fresh(2), Received(r)) == Rx(2, [r], 0, 0, false, [])
    ensures Step(Rx(2, [r], 0, 0, false, []), Handler) == Rx(2, [r], 0, 1, false, [])
  {
  }

  /** One record, received and seen. */
  lemma FirstRun(r: Result)
    requires r.status != 0
    ensures Run(Fresh(2), [Received(r)]) == Rx(2, [r], 0, 0, false, [])
    ensures Run(Fresh(2), [Received(r)] + [Handler]) == Rx(2, [r], 0, 1, false, [])
  {
    FirstSteps(r);
    var s1, s2 := Rx(2, [r], 0, 0, false, []), Rx(2, [r], 0, 1, false, []);
    RunSnoc(Fresh(2), [], Received(r), Fresh(2), s1);
    RunSnoc(Fresh(2), [Received(r)], Handler, s1, s2);
  }

  /** A packet of one record in a ring of two: received, seen and read. */
  lemma OnePacketRun()
    ensures Run(Fresh(2), [Received(Record(true))] + [Handler] + [Read]) == AfterOne(0, 1, false)
  {
    var r := Record(true);
    RecordFacts();
    FirstRun(r);
    ReadStep();
    RunSnoc(Fresh(2), [Received(r)] + [Handler], Read,
            Rx(2, [r], 0, 1, false, []), AfterOne(0, 1, false));
  }

  lemma RefillSteps()
    ensures var r := Received(Record(true));
            && Step(AfterOne(0, 1, false), r) == AfterOne(1, 1, false)
            && Step(AfterOne(1, 1, false), r) == AfterOne(2, 1, false)
            && Step(AfterOne(2, 1, false), Handler) == AfterOne(2, 3, true)
            && Step(AfterOne(2, 3, true), Clear) == AfterOne(2, 3, false)
  {
    RecordFacts();
  }

  lemma RefillRun(es: seq<Event>)
    requires Run(Fresh(2), es) == AfterOne(0, 1, false)
    ensures var r := Received(Record(true));
            Run(Fresh(2), es + [r] + [r] + [Handler] + [Clear]) == AfterOne(2, 3, false)
  {
    var r := Received(Record(true));
    RefillSteps();
    RunSnoc(Fresh(2), es, r, AfterOne(0, 1, false), AfterOne(1, 1, false));
    RunSnoc(Fresh(2), es + [r], r, AfterOne(1, 1, false), AfterOne(2, 1, false));
    RunSnoc(Fresh(2), es + [r] + [r], Handler, AfterOne(2, 1, false), AfterOne(2, 3, true));
    RunSnoc(Fresh(2), es + [r] + [r] + [Handler], Clear,
            AfterOne(2, 3, true), AfterOne(2, 3, false));
  }

  /** The ring fills up between the read and the clearing of its flag; the handler then counts both
      waiting packets a second time. */
  lemma RecountRun()
    ensures var r := Received(Record(true));
            Run(Fresh(2), [r] + [Handler] + [Read] + [r] + [r] + [Handler] + [Clear])
            == AfterOne(2, 3, false)
    ensures var s := AfterOne(2, 3, false);
            && !Flagged(s) && Returned(s) == 2
            && EopCount(s.stream, s.seen, Process(s).seen) == 0
  {
    var r := Received(Record(true));
    OnePacketRun();
    RefillRun([r] + [Handler] + [Read]);
    RecordFacts();
    CountTwo(AfterOne(2, 3, false).stream);
  }

  lemma CountTwo(stream: seq<Result>)
    requires |stream| == 3 && IsEop(stream[1]) && IsEop(stream[2])
    ensures EopCount(stream, 1, 3) == 2
  {
    assert EopCount(stream, 1, 2) == 1;
  }

  /** A packet of one record */
  function Packet(length: u32): Result {
    Result(0x52B4_0001, length)
  }

  lemma OnePacketEach(length: u32, rest: seq<Result>)
    requires 0 < length <= RX_BUF_BLOCK
    ensures Packet(length).status != 0 && IsGood(Packet(length))
    ensures PacketSize([Packet(length)] + rest) == 1
    ensures PacketResult([Packet(length)] + rest) == length
    ensures Packets([Packet(length)] + rest) == [length as int] + Packets(rest)
  {
    var rs := [Packet(length)] + rest;
    FirstEndUnique(rs, 0);
    assert rs[1..] == rest;
    assert rs[..1][..0] == [];
    assert TotalLength(rs[..1]) == length;
  }

  /** A reader that comes before the end of a packet: the partial packet is gone, with result 0. */
  lemma PartialPacketLost()
    ensures var s := Run(Fresh(2), [Received(Record(false))] + [Handler]);
            && s.Waiting() != [] && !EndPending(s) && !Inv(Complete(s))
            && Complete(s).Waiting() == [] && Complete(s).delivered == [0]
  {
    var r := Record(false);
    RecordFacts();
    FirstRun(r);
    assert [r][0..] == [r] && [r][0..1] == [r];
    FirstEndUnique([r], 1);
    CompleteKeepsInvIff(Rx(2, [r], 0, 1, false, []));
  }

  /** A reader that comes before the handler: the head passes the tail. */
  lemma HeadPassesTail()
    ensures var s := Run(Fresh(2), [Received(Record(true))]);
            && s.Waiting() != [] && !EndPending(s) && !Inv(Complete(s))
            && Complete(s).consumed > Complete(s).seen
  {
    var r := Record(true);
    RecordFacts();
    FirstRun(r);
    assert [r][0..] == [r] && [r][0..0] == [];
    CompleteKeepsInvIff(Rx(2, [r], 0, 0, false, []));
  }
}
