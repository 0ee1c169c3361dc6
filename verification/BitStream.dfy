/**
 Downloading a bitstream: the words a payload stands for, the chunked writer with FIFO back-pressure
 (ICAP), and the one-shot and chunked writers of the MCAP data register.
 */
module BitStream {
  import opened Words
  import opened BitHeader

  const CHUNK := 1024

  // Words of a payload

  function BigEndian(b0: byte, b1: byte, b2: byte, b3: byte): u32 {
    ((b0 as nat * 0x100 + b1 as nat) * 0x100 + b2 as nat) * 0x100 + b3 as nat
  }

  /** A 32-bit load on the little-endian host. */
  function HostWord(b0: byte, b1: byte, b2: byte, b3: byte): u32 {
    ((b3 as nat * 0x100 + b2 as nat) * 0x100 + b1 as nat) * 0x100 + b0 as nat
  }

  /** be32_to_cpu on a little-endian host: the bytes in reverse order */
  function Swap32(x: u32): u32 {
    ((x % 0x100 * 0x100 + x / 0x100 % 0x100) * 0x100 + x / 0x100 / 0x100 % 0x100) * 0x100
    + x / 0x100 / 0x100 / 0x100
  }

  lemma LowByteOf(q: nat, r: byte)
    ensures (q * 0x100 + r as nat) % 0x100 == r && (q * 0x100 + r as nat) / 0x100 == q
  {
  }

  /** Loading and swapping decodes big-endian. */
  lemma SwapLoadsBigEndian(b0: byte, b1: byte, b2: byte, b3: byte)
    ensures Swap32(HostWord(b0, b1, b2, b3)) == BigEndian(b0, b1, b2, b3)
  {
    var x3 := b3 as nat;
    var x2 := x3 * 0x100 + b2 as nat;
    var x1 := x2 * 0x100 + b1 as nat;
    LowByteOf(x3, b2);
    LowByteOf(x2, b1);
    LowByteOf(x1, b0);
  }

  function WordAt(bytes: seq<byte>, i: nat): u32
    requires 4 * i + 4 <= |bytes|
  {
    BigEndian(bytes[4 * i], bytes[4 * i + 1], bytes[4 * i + 2], bytes[4 * i + 3])
  }

  /** The big-endian words of all whole groups of four bytes. */
  function WordsOf(bytes: seq<byte>): (ws: seq<int>)
    ensures |ws| == |bytes| / 4
  {
    seq(|bytes| / 4, i requires 0 <= i < |bytes| / 4 => WordAt(bytes, i))
  }

  /** Cutting a payload at a word boundary cuts its words. */
  lemma WordsConcat(a: seq<byte>, b: seq<byte>)
    requires |a| % 4 == 0
    ensures WordsOf(a + b) == WordsOf(a) + WordsOf(b)
  {
    var n := |a| / 4;
    assert |a + b| / 4 == n + |b| / 4;
    forall i | 0 <= i < n + |b| / 4
      ensures WordsOf(a + b)[i] == (WordsOf(a) + WordsOf(b))[i]
    {
      if i < n {
        assert WordAt(a + b, i) == WordAt(a, i);
      } else {
        assert WordAt(a + b, i) == WordAt(b, i - n);
      }
    }
  }

  /** The first n words. */
  lemma WordsPrefix(bytes: seq<byte>, n: nat)
    requires 4 * n <= |bytes|
    ensures WordsOf(bytes[..4 * n]) == WordsOf(bytes)[..n]
  {
    assert bytes == bytes[..4 * n] + bytes[4 * n..];
    WordsConcat(bytes[..4 * n], bytes[4 * n..]);
  }

  /** The synchronisation word and a no-op of a bitstream, as they stand in the file */
  lemma SyncWord()
    ensures WordsOf([0xAA, 0x99, 0x55, 0x66, 0x20, 0x00, 0x00, 0x00])
            == [0xAA99_5566, 0x2000_0000]
  {
  }

  /** `after` is `before` with words from..to added. */
  ghost predicate Extends(before: seq<int>, after: seq<int>, words: seq<int>, from: nat, to: nat) {
    from <= to <= |words| && after == before + words[from..to]
  }

  /** As many of the words as the bursts say are added. */
  ghost predicate Streamed(before: seq<int>, after: seq<int>, words: seq<int>, b: Bursts) {
    && b.written <= |words| && (b.ok ==> b.written == |words|)
    && after == before + words[..b.written]
  }

  lemma QuarterAdd(a: nat, b: nat)
    ensures a + b / 4 == (4 * a + b) / 4
  {
  }

  // What the reads of the core decide

  /** Where a sequence of bursts ends: whether all words were taken, or else whether a copy faulted;
      the next register read; and how many words reached the FIFO. */
  datatype Bursts = Bursts(ok: bool, fault: bool, next: nat, written: nat)

  /** The bursts that follow k words. */
  function After(k: nat, b: Bursts): Bursts {
    Bursts(b.ok, b.fault, b.next, k + b.written)
  }

  /** One of the control reads r .. end shows the words taken. */
  predicate Taken(controls: nat -> nat, r: nat, end: nat)
    decreases end - r
  {
    r < end && (controls(r) % 2 == 0 || Taken(controls, r + 1, end))
  }

  /** Where the polls stop. */
  function PollEnd(controls: nat -> nat, r: nat, end: nat): nat
    decreases end - r
  {
    if r >= end then r
    else if controls(r) % 2 == 0 then r + 1
    else PollEnd(controls, r + 1, end)
  }

  /** The words are taken if one of the reads has bit 0 clear; the polls stop behind the first such
      read, or at the end. */
  lemma {:induction false} TakenIs(controls: nat -> nat, r: nat, end: nat)
    requires r <= end
    ensures Taken(controls, r, end) <==> exists n :: r <= n < end && controls(n) % 2 == 0
    ensures r <= PollEnd(controls, r, end) <= end
    ensures forall n :: r <= n < PollEnd(controls, r, end) - 1 ==> controls(n) % 2 == 1
    ensures if Taken(controls, r, end)
            then PollEnd(controls, r, end) > r && controls(PollEnd(controls, r, end) - 1) % 2 == 0
            else PollEnd(controls, r, end) == end
    decreases end - r
  {
    if r < end && controls(r) % 2 != 0 {
      TakenIs(controls, r + 1, end);
    }
  }

  /** Writing `words` words from read r on: bursts of at most the vacancy read, each taken within
      ten polls. */
  function HelperBursts(vacancies: nat -> int, controls: nat -> nat, r: nat, words: nat)
    : (b: Bursts)
    ensures !b.fault
    decreases words
  {
    if words == 0 then Bursts(true, false, r, 0)
    else if vacancies(r) <= 0 then Bursts(false, false, r + 1, 0)
    else
      var burst := if vacancies(r) < words then vacancies(r) else words;
      var next := PollEnd(controls, r + 1, r + 11);
      if !Taken(controls, r + 1, r + 11) then Bursts(false, false, next, burst)
      else
        var rest := HelperBursts(vacancies, controls, next, words - burst);
        After(burst, rest)
  }

  /** Writing `bytes` bytes in chunks, each copied without a fault first. */
  function StreamBursts(
    vacancies: nat -> int, controls: nat -> nat, faults: nat -> bool, r: nat, chunk: nat,
    bytes: nat)
    : Bursts
    decreases bytes
  {
    if bytes == 0 then Bursts(true, false, r, 0)
    else if faults(chunk) then Bursts(false, true, r, 0)
    else
      var size := if bytes > CHUNK then CHUNK else bytes;
      var first := HelperBursts(vacancies, controls, r, size / 4);
      if !first.ok then first
      else
        var rest := StreamBursts(vacancies, controls, faults, first.next, chunk + 1, bytes - size);
        After(first.written, rest)
  }

  /** One burst: without room nothing is written and the download ends; when ten control reads show
      that the words are not taken, it ends behind them; and otherwise it goes on behind the read
      that shows them taken. */
  lemma BurstDecides(vacancies: nat -> int, controls: nat -> nat, r: nat, words: nat, t: nat)
    requires words > 0 && r < t
    ensures var b, burst := HelperBursts(vacancies, controls, r, words),
                            if vacancies(r) < words then vacancies(r) else words;
            if vacancies(r) <= 0 then b == Bursts(false, false, r + 1, 0)
            else
              && ((forall n :: r < n <= r + 10 ==> controls(n) % 2 == 1) ==>
                    b == Bursts(false, false, r + 11, burst))
              && (t <= r + 10 && controls(t) % 2 == 0
                  && (forall n :: r < n < t ==> controls(n) % 2 == 1) ==>
                    b == After(burst, HelperBursts(vacancies, controls, t + 1, words - burst)))
  {
    TakenIs(controls, r + 1, r + 11);
    if t <= r + 10 && controls(t) % 2 == 0 && forall n :: r < n < t ==> controls(n) % 2 == 1 {
      FirstTaken(controls, r + 1, r + 11, t);
    }
  }

  lemma {:induction false} FirstTaken(controls: nat -> nat, r: nat, end: nat, t: nat)
    requires r <= t < end && controls(t) % 2 == 0
    requires forall n :: r <= n < t ==> controls(n) % 2 == 1
    ensures Taken(controls, r, end) && PollEnd(controls, r, end) == t + 1
    decreases end - r
  {
    if r < t {
      assert controls(r) % 2 == 1;
      FirstTaken(controls, r + 1, end, t);
    }
  }

  /** Chunk n of the payload, whose copy faults, ends the download if everything before it was
      written: with such a core, exactly then. */
  lemma {:induction false} FaultDecides(
    vacancies: nat -> int, controls: nat -> nat, faults: nat -> bool, r: nat, chunk: nat,
    bytes: nat)
    ensures var b := StreamBursts(vacancies, controls, faults, r, chunk, bytes);
            && (b.fault ==> !b.ok)
            && (b.fault ==> exists n :: chunk <= n && 1024 * (n - chunk) < bytes && faults(n))
    ensures Responsive(vacancies, controls)
            && (exists n :: chunk <= n && 1024 * (n - chunk) < bytes && faults(n)) ==>
              StreamBursts(vacancies, controls, faults, r, chunk, bytes).fault
    decreases bytes
  {
    if bytes > 0 && !faults(chunk) {
      var size := if bytes > CHUNK then CHUNK else bytes;
      var first := HelperBursts(vacancies, controls, r, size / 4);
      FaultDecides(vacancies, controls, faults, first.next, chunk + 1, bytes - size);
      if Responsive(vacancies, controls) {
        HelperCompletes(vacancies, controls, r, size / 4);
      }
    }
  }

  /** A core that has room but never takes the words gets one burst. */
  lemma NeverTaken(
    vacancies: nat -> int, controls: nat -> nat, faults: nat -> bool, r: nat, chunk: nat,
    bytes: nat)
    requires vacancies(r) > 0 && bytes >= 4 && !faults(chunk)
    requires forall n :: controls(n) % 2 == 1
    ensures var words := (if bytes > 1024 then 1024 else bytes) / 4;
            StreamBursts(vacancies, controls, faults, r, chunk, bytes)
            == Bursts(false, false, r + 11, if vacancies(r) < words then vacancies(r) else words)
  {
    BurstDecides(vacancies, controls, r, (if bytes > 1024 then 1024 else bytes) / 4, r + 1);
  }

  predicate NoFault(chunk: nat) {
    false
  }

  /** A core that always has room and takes the words at once */
  ghost predicate Responsive(vacancies: nat -> int, controls: nat -> nat) {
    forall n :: vacancies(n) > 0 && controls(n) % 2 == 0
  }

  lemma {:induction false} HelperCompletes(
    vacancies: nat -> int, controls: nat -> nat, r: nat, words: nat)
    requires Responsive(vacancies, controls)
    ensures HelperBursts(vacancies, controls, r, words).ok
    decreases words
  {
    if words > 0 {
      assert vacancies(r) > 0 && controls(r + 1) % 2 == 0;
      if vacancies(r) < words {
        HelperCompletes(vacancies, controls, PollEnd(controls, r + 1, r + 11),
                        words - vacancies(r));
      }
    }
  }

  /** With such a core and no faults every download completes. */
  lemma {:induction false} StreamCompletes(
    vacancies: nat -> int, controls: nat -> nat, faults: nat -> bool, r: nat, chunk: nat,
    bytes: nat)
    requires Responsive(vacancies, controls) && forall n :: !faults(n)
    ensures StreamBursts(vacancies, controls, faults, r, chunk, bytes).ok
    decreases bytes
  {
    if bytes > 0 {
      var size := if bytes > CHUNK then CHUNK else bytes;
      HelperCompletes(vacancies, controls, r, size / 4);
      var next := HelperBursts(vacancies, controls, r, size / 4).next;
      StreamCompletes(vacancies, controls, faults, next, chunk + 1, bytes - size);
    }
  }

  /** A FIFO without room at the first look takes nothing of a payload of a word or more. */
  lemma FullFifoCutsShort(
    vacancies: nat -> int, controls: nat -> nat, faults: nat -> bool, r: nat, chunk: nat,
    bytes: nat)
    requires vacancies(r) <= 0 && bytes >= 4
    ensures !StreamBursts(vacancies, controls, faults, r, chunk, bytes).ok
    ensures StreamBursts(vacancies, controls, faults, r, chunk, bytes).written == 0
  {
  }

  /** The words of a complete stream are all there are. */
  lemma {:induction false} HelperWrites(
    vacancies: nat -> int, controls: nat -> nat, r: nat, words: nat)
    ensures var b := HelperBursts(vacancies, controls, r, words);
            b.written <= words && (b.ok ==> b.written == words)
    decreases words
  {
    if words > 0 && vacancies(r) > 0 && vacancies(r) < words {
      HelperWrites(vacancies, controls, PollEnd(controls, r + 1, r + 11), words - vacancies(r));
    }
  }

  // The ICAP

  /** The HWICAP core behind the user BAR: what register reads return is up to the hardware; `room`
      is what is left of the write FIFO vacancy last read. */
  class Icap {
    const vacancies: nat -> int
    const controls: nat -> nat
    const statuses: nat -> nat
    var readCount: nat
    var room: int
    var fifo: seq<int>
    /** How many words were in the FIFO when the core was last told to take them */
    var started: nat

    constructor (vacancies: nat -> int, controls: nat -> nat, statuses: nat -> nat)
      ensures fifo == [] && this.vacancies == vacancies && this.controls == controls
      ensures AllStarted()
    {
      this.vacancies, this.controls, this.statuses := vacancies, controls, statuses;
      readCount, room, fifo, started := 0, 0, [], 0;
    }

    /** No word is in the FIFO that the core was not told to take. */
    ghost predicate AllStarted()
      reads this`fifo, this`started
    {
      started == |fifo|
    }

    method ReadVacancy() returns (v: int)
      modifies this`readCount, this`room
      ensures v == vacancies(old(readCount)) == room && readCount == old(readCount) + 1
    {
      v := vacancies(readCount);
      room := v;
      readCount := readCount + 1;
    }

    /** XHWICAP_WF: there must be room. */
    method WriteFifo(w: u32)
      requires room > 0
      modifies this`room, this`fifo
      ensures fifo == old(fifo) + [w] && room == old(room) - 1
    {
      fifo := fifo + [w];
      room := room - 1;
    }

    /** XHWICAP_CR: a written 1 starts the transfer of what is in the FIFO. */
    method WriteControl(value: u32)
      modifies this`started
      ensures started == if value % 2 == 1 then |fifo| else old(started)
    {
      if value % 2 == 1 {
        started := |fifo|;
      }
    }

    method ReadControl() returns (v: nat)
      modifies this`readCount
      ensures v == controls(old(readCount)) && readCount == old(readCount) + 1
    {
      v := controls(readCount);
      readCount := readCount + 1;
    }

    method ReadStatus() returns (v: nat)
      modifies this`readCount
      ensures v == statuses(old(readCount)) && readCount == old(readCount) + 1
    {
      v := statuses(readCount);
      readCount := readCount + 1;
    }

    /** hwicapWrite: `size` words, which must fit the FIFO; then up to ten polls for the core to
        take them. */
    method HwicapWrite(words: seq<byte>, size: nat) returns (rc: int)
      requires 4 * size <= |words| && size <= room
      modifies this`readCount, this`room, this`fifo, this`started
      ensures fifo == old(fifo) + WordsOf(words)[..size]
      ensures started == |fifo| && AllStarted()
      ensures rc == if Taken(controls, old(readCount), old(readCount) + 10) then 0 else -EIO
      ensures rc == 0 <==> exists n :: old(readCount) <= n < old(readCount) + 10
                                       && controls(n) % 2 == 0
      ensures readCount == PollEnd(controls, old(readCount), old(readCount) + 10)
    {
      TakenIs(controls, readCount, readCount + 10);
      WriteWords(words, size);
      WriteControl(1);
      var i := 0;
      while i < 10
        invariant 0 <= i <= 10 && readCount == old(readCount) + i
        invariant Taken(controls, old(readCount), old(readCount) + 10)
                  == Taken(controls, readCount, old(readCount) + 10)
        invariant PollEnd(controls, old(readCount), old(readCount) + 10)
                  == PollEnd(controls, readCount, old(readCount) + 10)
        invariant fifo == old(fifo) + WordsOf(words)[..size] && AllStarted()
      {
        var value := ReadControl();
        if value % 2 == 0 {
          return 0;
        }
        i := i + 1;
      }
      rc := -EIO;
    }

    /** The first loop of hwicapWrite */
    method WriteWords(words: seq<byte>, size: nat)
      requires 4 * size <= |words| && size <= room
      modifies this`room, this`fifo
      ensures fifo == old(fifo) + WordsOf(words)[..size]
    {
      var i := 0;
      while i < size
        invariant 0 <= i <= size && room == old(room) - i
        invariant fifo == old(fifo) + WordsOf(words)[..i]
      {
        var value := HostWord(words[4 * i], words[4 * i + 1], words[4 * i + 2], words[4 * i + 3]);
        SwapLoadsBigEndian(words[4 * i], words[4 * i + 1], words[4 * i + 2], words[4 * i + 3]);
        WriteFifo(Swap32(value));
        WordsOfNext(words, i);
        i := i + 1;
      }
    }

    /** One burst of bitstream_icap_helper, behind `at` words: what is ahead, before and after
        it. */
    method Burst(words: seq<byte>, at: nat, remainWord: nat, ghost ahead: Bursts)
      returns (ok: bool, burst: nat, ghost ahead': Bursts)
      requires remainWord > 0 && 4 * (at + remainWord) <= |words|
      requires ahead == HelperBursts(vacancies, controls, readCount, remainWord)
      requires AllStarted()
      modifies this`readCount, this`room, this`fifo, this`started
      ensures AllStarted()
      ensures burst <= remainWord && (ok ==> burst > 0)
      ensures ahead == if ok then After(burst, ahead') else Bursts(false, false, readCount, burst)
      ensures ok ==> ahead' == HelperBursts(vacancies, controls, readCount, remainWord - burst)
      ensures Extends(old(fifo), fifo, WordsOf(words), at, at + burst)
    {
      ahead' := ahead;
      var vacancy := ReadVacancy();
      if vacancy <= 0 {
        return false, 0, ahead;
      }
      burst := if vacancy < remainWord then vacancy else remainWord;
      var rc := HwicapWrite(words[4 * at..], burst);
      BurstContinues(words, at, burst);
      ok := rc == 0;
      ahead' := HelperBursts(vacancies, controls, readCount, remainWord - burst);
    }

    /** `at` of the words are written, and what is ahead decides about the total. */
    ghost predicate HelperAt(total: Bursts, ahead: Bursts, wordCount: nat, at: nat)
      reads this
      requires at <= wordCount
    {
      && total == After(at, ahead)
      && ahead == HelperBursts(vacancies, controls, readCount, wordCount - at)
    }

    method HelperOn(
      words: seq<byte>, wordCount: nat, at: nat,
      ghost total: Bursts, ghost ahead: Bursts, ghost before: seq<int>)
      returns (ok: bool, at': nat, ghost ahead': Bursts)
      requires at < wordCount <= |words| / 4 && HelperAt(total, ahead, wordCount, at)
      requires fifo == before + WordsOf(words)[..at]
      requires AllStarted()
      modifies this`readCount, this`room, this`fifo, this`started
      ensures AllStarted()
      ensures at <= at' <= wordCount && fifo == before + WordsOf(words)[..at']
      ensures ok ==> at < at' && HelperAt(total, ahead', wordCount, at')
      ensures !ok ==> total == Bursts(false, false, readCount, at')
    {
      var burst;
      ghost var was := fifo;
      ok, burst, ahead' := Burst(words, at, wordCount - at, ahead);
      at' := at + burst;
      ExtendsOn(before, was, fifo, WordsOf(words), at, at');
    }

    /** bitstream_icap_helper: bursts of at most the vacancy just read, until all words are written
        or the FIFO fails. */
    method Helper(words: seq<byte>, wordCount: nat) returns (err: int, ghost written: nat)
      requires 4 * wordCount <= |words|
      requires AllStarted()
      modifies this`readCount, this`room, this`fifo, this`started
      ensures AllStarted()
      ensures err == 0 || err == -EIO
      ensures HelperBursts(vacancies, controls, old(readCount), wordCount)
              == Bursts(err == 0, false, readCount, written)
      ensures written <= wordCount && fifo == old(fifo) + WordsOf(words)[..written]
      ensures err == 0 ==> written == wordCount
    {
      ghost var total := HelperBursts(vacancies, controls, readCount, wordCount);
      ghost var before, ahead := fifo, total;
      var at := 0;
      while at < wordCount
        invariant 0 <= at <= wordCount && fifo == before + WordsOf(words)[..at] && AllStarted()
        invariant HelperAt(total, ahead, wordCount, at)
        decreases wordCount - at
      {
        var ok;
        ok, at, ahead := HelperOn(words, wordCount, at, total, ahead, before);
        if !ok {
          return -EIO, at;
        }
      }
      return 0, at;
    }

    /** One chunk of the download loops. */
    method StreamChunk(payload: seq<byte>, byteRead: nat, size: nat, ghost at: nat)
      returns (rc: int, ghost more: nat)
      requires byteRead == 4 * at && byteRead + size <= |payload|
      requires AllStarted()
      modifies this`readCount, this`room, this`fifo, this`started
      ensures AllStarted()
      ensures HelperBursts(vacancies, controls, old(readCount), size / 4)
              == Bursts(rc == 0, false, readCount, more)
      ensures more <= size / 4 && (rc == 0 ==> more == size / 4)
      ensures Extends(old(fifo), fifo, WordsOf(payload), at, at + more)
    {
      rc, more := Helper(payload[byteRead..byteRead + size], size / 4);
      ChunkContinues(payload, at, size, more);
    }

    /** What is ahead decides about the total, behind `at` words. */
    ghost predicate StreamAt(
      total: Bursts, ahead: Bursts, faults: nat -> bool, chunk: nat, left: nat, at: nat)
      reads this
    {
      && total == After(at, ahead)
      && ahead == StreamBursts(vacancies, controls, faults, readCount, chunk, left)
    }

    /** One turn of the download loops, after the copy. */
    method StreamOn(
      payload: seq<byte>, byteRead: nat, size: nat, ghost at: nat, ghost faults: nat -> bool,
      ghost chunk: nat, ghost total: Bursts, ghost ahead: Bursts)
      returns (rc: int, ghost more: nat, ghost ahead': Bursts)
      requires byteRead == 4 * at && byteRead < |payload| && !faults(chunk)
      requires size == if |payload| - byteRead > CHUNK then CHUNK else |payload| - byteRead
      requires StreamAt(total, ahead, faults, chunk, |payload| - byteRead, at)
      requires AllStarted()
      modifies this`readCount, this`room, this`fifo, this`started
      ensures AllStarted()
      ensures more <= size / 4 && (rc == 0 ==> more == size / 4)
      ensures Extends(old(fifo), fifo, WordsOf(payload), at, at + more)
      ensures rc == 0 ==>
                StreamAt(total, ahead', faults, chunk + 1, |payload| - byteRead - size, at + more)
      ensures rc != 0 ==> total == Bursts(false, false, readCount, at + more)
    {
      StreamStep(vacancies, controls, faults, readCount, chunk, |payload| - byteRead, size);
      rc, more := StreamChunk(payload, byteRead, size, at);
      ahead' := StreamBursts(vacancies, controls, faults, readCount, chunk + 1,
                             |payload| - byteRead - size);
    }

    /** The place of the next chunk. */
    ghost predicate ChunkAt(payload: seq<byte>, byteRead: nat, at: nat) {
      if byteRead < |payload| then byteRead == 4 * at
      else byteRead == |payload| && at == |payload| / 4
    }

    method StreamTurn(
      payload: seq<byte>, byteRead: nat, ghost at: nat, ghost faults: nat -> bool,
      ghost chunk: nat, ghost total: Bursts, ghost ahead: Bursts, ghost before: seq<int>)
      returns (rc: int, byteRead': nat, ghost at': nat, ghost ahead': Bursts)
      requires ChunkAt(payload, byteRead, at) && byteRead < |payload| && !faults(chunk)
      requires StreamAt(total, ahead, faults, chunk, |payload| - byteRead, at)
      requires fifo == before + WordsOf(payload)[..at]
      requires AllStarted()
      modifies this`readCount, this`room, this`fifo, this`started
      ensures AllStarted()
      ensures byteRead < byteRead' <= |payload| && at' <= |payload| / 4
      ensures fifo == before + WordsOf(payload)[..at']
      ensures rc == 0 ==>
                && ChunkAt(payload, byteRead', at')
                && StreamAt(total, ahead', faults, chunk + 1, |payload| - byteRead', at')
      ensures rc != 0 ==> total == Bursts(false, false, readCount, at')
    {
      var numCharsRead := |payload| - byteRead;
      if numCharsRead > CHUNK {
        numCharsRead := CHUNK;
      }
      ghost var more;
      ghost var was := fifo;
      rc, more, ahead' := StreamOn(payload, byteRead, numCharsRead, at, faults, chunk,
                                   total, ahead);
      QuarterAdd(at, numCharsRead);
      byteRead', at' := byteRead + numCharsRead, at + more;
      ExtendsOn(before, was, fifo, WordsOf(payload), at, at');
    }

    /** The download loop: the payload in chunks of 1024 bytes, from the kernel's own buffer
        (bitstream_icap) or copied chunk by chunk from user memory (bitstream_ioctl_icap), where a
        copy may fault. The FIFO gets a prefix of the payload's words; the register reads and the
        faults decide how long it is and whether it is all of them. */
    method Stream(payload: seq<byte>, copyFaults: nat -> bool)
      returns (err: int, complete: bool, ghost written: nat)
      requires AllStarted()
      modifies this`readCount, this`room, this`fifo, this`started
      ensures AllStarted()
      ensures StreamBursts(vacancies, controls, copyFaults, old(readCount), 0, |payload|)
              == Bursts(complete, err == -EFAULT, readCount, written)
      ensures written <= |payload| / 4 && fifo == old(fifo) + WordsOf(payload)[..written]
      ensures complete ==> written == |payload| / 4
      ensures err == 0 || err == -EFAULT
    {
      ghost var total := StreamBursts(vacancies, controls, copyFaults, readCount, 0, |payload|);
      ghost var before, ahead, at := fifo, total, 0;
      var byteRead, chunk := 0, 0;
      while byteRead < |payload|
        invariant 0 <= byteRead <= |payload| && 0 <= at && ChunkAt(payload, byteRead, at)
        invariant StreamAt(total, ahead, copyFaults, chunk, |payload| - byteRead, at)
        invariant fifo == before + WordsOf(payload)[..at] && AllStarted()
        decreases |payload| - byteRead
      {
        if copyFaults(chunk) {
          return -EFAULT, false, at;
        }
        var rc;
        rc, byteRead, at, ahead := StreamTurn(payload, byteRead, at, copyFaults, chunk,
                                              total, ahead, before);
        if rc != 0 {
          return 0, false, at;
        }
        chunk := chunk + 1;
      }
      return 0, true, at;
    }

    /** wait_for_done */
    method WaitForDone() returns (rc: int)
      modifies this`readCount
      ensures rc == if DoneWithin(statuses, old(readCount), old(readCount) + 10) then 0 else -EIO
      ensures rc == 0 <==> exists n :: old(readCount) <= n < old(readCount) + 10
                                       && (statuses(n) % 2 == 1 || statuses(n) / 4 % 2 == 1)
    {
      DoneWithinIs(statuses, readCount, readCount + 10);
      var i := 0;
      while i < 10
        invariant 0 <= i <= 10 && readCount == old(readCount) + i
        invariant DoneWithin(statuses, old(readCount), old(readCount) + 10)
                  == DoneWithin(statuses, readCount, old(readCount) + 10)
      {
        var w := ReadStatus();
        if IsDone(w) {
          return 0;
        }
        i := i + 1;
      }
      rc := -EIO;
    }

    /** bitstream_icap. A bad file is refused; otherwise the reads of the core decide, and a
        download that the FIFO cuts short returns 0 all the same. Nothing is said about a file
        for which the source reads outside the buffer. */
    method Download(data: seq<byte>) returns (v: Verdict, err: int)
      requires |data| < 0x1_0000_0000
      requires AllStarted()
      modifies this`readCount, this`room, this`fifo, this`started
      ensures started == |fifo| && AllStarted()
      ensures v == FileVerdict(data)
      ensures v == Refused ==> err == -EINVAL && fifo == old(fifo)
      ensures v == Accepted ==>
                Downloaded(old(readCount), old(fifo), fifo, Payload(data), err)
      ensures v == Accepted ==>
                var b := StreamBursts(vacancies, controls, NoFault, old(readCount), 0,
                                      |Payload(data)|);
                && err in {0, -EIO}
                && (err == -EIO <==>
                      b.ok && forall n :: b.next <= n < b.next + 10 ==>
                                statuses(n) % 2 == 0 && statuses(n) / 4 % 2 == 0)
      ensures v == Accepted && (forall n :: vacancies(n) > 0 && controls(n) % 2 == 0) ==>
                fifo == old(fifo) + WordsOf(Payload(data))
    {
      var payload;
      v, payload := OpenFile(data);
      err := -EINVAL;
      if v == Accepted {
        ghost var r, before := readCount, fifo;
        err := DownloadPayload(payload);
        DownloadedMeans(r, before, fifo, payload, err);
      }
    }

    /** The same on the reads themselves. */
    lemma DownloadedMeans(
      r: nat, before: seq<int>, after: seq<int>, payload: seq<byte>, err: int)
      requires Downloaded(r, before, after, payload, err)
      ensures var b := StreamBursts(vacancies, controls, NoFault, r, 0, |payload|);
              && err in {0, -EIO}
              && (err == -EIO <==>
                    b.ok && forall n :: b.next <= n < b.next + 10 ==>
                              statuses(n) % 2 == 0 && statuses(n) / 4 % 2 == 0)
      ensures (forall n :: vacancies(n) > 0 && controls(n) % 2 == 0) ==>
                after == before + WordsOf(payload)
    {
      var b := StreamBursts(vacancies, controls, NoFault, r, 0, |payload|);
      DoneWithinIs(statuses, b.next, b.next + 10);
      if forall n :: vacancies(n) > 0 && controls(n) % 2 == 0 {
        StreamCompletes(vacancies, controls, NoFault, r, 0, |payload|);
      }
    }

    /** From read r on, the reads of the core decide what is written and returned. */
    ghost predicate Downloaded(
      r: nat, before: seq<int>, after: seq<int>, payload: seq<byte>, err: int)
    {
      var b := StreamBursts(vacancies, controls, NoFault, r, 0, |payload|);
      && Streamed(before, after, WordsOf(payload), b)
      && err == if b.ok && !DoneWithin(statuses, b.next, b.next + 10) then -EIO else 0
    }

    method DownloadPayload(payload: seq<byte>) returns (err: int)
      requires AllStarted()
      modifies this`readCount, this`room, this`fifo, this`started
      ensures AllStarted()
      ensures Downloaded(old(readCount), old(fifo), fifo, payload, err)
    {
      var complete;
      ghost var written;
      FaultDecides(vacancies, controls, NoFault, readCount, 0, |payload|);
      err, complete, written := Stream(payload, NoFault);
      if complete {
        err := WaitForDone();
      }
    }
  }

  /** A file with a payload of a word or more, downloaded to a core without room: nothing is
      written, and 0 is returned. */
  method CutShortDownload(f: Fields, unchecked: byte, payload: seq<byte>)
    returns (icap: Icap, err: int)
    requires WellFormed(f) && f.bitstreamLength == |payload| && |payload| >= 4
    requires |Print(f, unchecked)| + |payload| < 0x1_0000_0000
    ensures fresh(icap) && icap.fifo == [] && err == 0
  {
    icap := new Icap(_ => 0, _ => 0, _ => 1);
    PrintedPayload(f, unchecked, payload);
    FullFifoCutsShort(icap.vacancies, icap.controls, NoFault, icap.readCount, 0, |payload|);
    var v;
    v, err := icap.Download(Print(f, unchecked) + payload);
  }

  /** Done or end of startup */
  predicate IsDone(status: nat) {
    status % 2 == 1 || status / 4 % 2 == 1
  }

  /** One of the status reads r .. end shows the download done. */
  predicate DoneWithin(statuses: nat -> nat, r: nat, end: nat)
    decreases end - r
  {
    r < end && (IsDone(statuses(r)) || DoneWithin(statuses, r + 1, end))
  }

  lemma {:induction false} DoneWithinIs(statuses: nat -> nat, r: nat, end: nat)
    ensures DoneWithin(statuses, r, end)
            <==> exists n :: r <= n < end && (statuses(n) % 2 == 1 || statuses(n) / 4 % 2 == 1)
    decreases end - r
  {
    if r < end {
      DoneWithinIs(statuses, r + 1, end);
    }
  }

  // Files

  /** The start of every download, for a file of the given length whose beginning is `head`: the sum
      of the header's lengths is a 32-bit one. */
  function OpenVerdict(head: seq<byte>, length: nat): Verdict {
    match Parse(head)
    case OutOfBounds => ReadOutside
    case Rejected => Refused
    case Got(f, n) => if Wrap32(n + f.bitstreamLength) > length then Refused else Accepted
  }

  /** A file in the kernel's own buffer: besides, its payload must really be there. */
  function FileVerdict(file: seq<byte>): Verdict {
    if OpenVerdict(file, |file|) == Accepted
       && Parse(file).index + Parse(file).value.bitstreamLength > |file|
    then ReadOutside
    else OpenVerdict(file, |file|)
  }

  function Payload(file: seq<byte>): seq<byte>
    requires FileVerdict(file) == Accepted
  {
    var n := Parse(file).index;
    file[n..n + Parse(file).value.bitstreamLength]
  }

  /** Parse the header and compare what it announces with the length of the file. */
  method Open(head: seq<byte>, length: nat) returns (v: Verdict, from: nat, size: nat)
    requires |head| < 0x1_0000_0000
    ensures v == OpenVerdict(head, length)
    ensures v == Accepted ==>
              from == Parse(head).index && size == Parse(head).value.bitstreamLength
  {
    var header := new Header();
    v := ParseHeader(head, header);
    from, size := header.headerLength, header.bitstreamLength;
    if v == Accepted && Wrap32(from + size) > length {
      v := Refused;
    }
  }

  method OpenFile(file: seq<byte>) returns (v: Verdict, payload: seq<byte>)
    requires |file| < 0x1_0000_0000
    ensures v == FileVerdict(file)
    ensures v == Accepted ==> payload == Payload(file)
  {
    var from, size;
    v, from, size := Open(file, |file|);
    payload := [];
    if v == Accepted {
      if from + size > |file| {
        v := ReadOutside;
      } else {
        payload := file[from..from + size];
      }
    }
  }

  /** A file whose header is not one is refused; one whose announced length is too long as a 32-bit
      sum, too; and the payload is read outside the buffer exactly when that sum wraps around. */
  lemma OutsideIff(file: seq<byte>)
    requires |file| < 0x1_0000_0000
    ensures Parse(file).Rejected? ==> FileVerdict(file) == Refused
    ensures Parse(file).OutOfBounds? ==> FileVerdict(file) == ReadOutside
    ensures Parse(file).Got? ==>
              (FileVerdict(file) == Refused <==>
                 Wrap32(Parse(file).index + Parse(file).value.bitstreamLength) > |file|)
    ensures Parse(file).Got? ==>
              (FileVerdict(file) == ReadOutside <==>
                 var sum := Parse(file).index + Parse(file).value.bitstreamLength;
                 sum >= 0x1_0000_0000 && Wrap32(sum) <= |file|)
  {
  }

  lemma PayloadBehind(header: seq<byte>, payload: seq<byte>, f: Fields)
    requires Parse(header + payload) == Got(f, |header|) && f.bitstreamLength == |payload|
    requires |header| + |payload| < 0x1_0000_0000
    ensures FileVerdict(header + payload) == Accepted && Payload(header + payload) == payload
  {
  }

  /** What is downloaded from a printed file is its payload. */
  lemma PrintedPayload(f: Fields, unchecked: byte, payload: seq<byte>)
    requires WellFormed(f) && f.bitstreamLength == |payload|
    requires |Print(f, unchecked)| + |payload| < 0x1_0000_0000
    ensures FileVerdict(Print(f, unchecked) + payload) == Accepted
    ensures Payload(Print(f, unchecked) + payload) == payload
  {
    RoundTrip(f, unchecked, payload);
    PayloadBehind(Print(f, unchecked), payload, f);
  }

  lemma WordsOfNext(words: seq<byte>, i: nat)
    requires 4 * i + 4 <= |words|
    ensures WordsOf(words)[..i + 1] == WordsOf(words)[..i] + [WordAt(words, i)]
  {
    assert WordsOf(words)[i] == WordAt(words, i);
  }

  lemma BurstContinues(words: seq<byte>, at: nat, burst: nat)
    requires 4 * (at + burst) <= |words|
    ensures WordsOf(words[4 * at..])[..burst] == WordsOf(words)[at..at + burst]
  {
    assert words == words[..4 * at] + words[4 * at..];
    WordsConcat(words[..4 * at], words[4 * at..]);
  }

  lemma ChunkContinues(payload: seq<byte>, at: nat, size: nat, more: nat)
    requires 4 * at + size <= |payload| && 4 * more <= size
    ensures WordsOf(payload[4 * at..4 * at + size])[..more] == WordsOf(payload)[at..at + more]
  {
    var tail := payload[4 * at..];
    BurstContinues(payload, at, more);
    WordsPrefix(tail, more);
    WordsPrefix(payload[4 * at..4 * at + size], more);
    assert payload[4 * at..4 * at + size][..4 * more] == tail[..4 * more];
  }

  lemma ExtendsOn(
    start: seq<int>, before: seq<int>, after: seq<int>, words: seq<int>, from: nat, to: nat)
    requires Extends(before, after, words, from, to) && before == start + words[..from]
    ensures after == start + words[..to]
  {
  }

  lemma StreamStep(
    vacancies: nat -> int, controls: nat -> nat, faults: nat -> bool, r: nat, chunk: nat,
    bytes: nat, size: nat)
    requires bytes > 0 && !faults(chunk) && size == if bytes > CHUNK then CHUNK else bytes
    ensures var h := HelperBursts(vacancies, controls, r, size / 4);
            StreamBursts(vacancies, controls, faults, r, chunk, bytes)
            == if h.ok
               then After(size / 4, StreamBursts(vacancies, controls, faults, h.next, chunk + 1,
                                                 bytes - size))
               else h
  {
    HelperWrites(vacancies, controls, r, size / 4);
  }
}
