/**
 Downloading through the MCAP: what the partial-reconfiguration and the boot-time download leave in
 the MCAP control register, and what they write to its data register.
 */
module Mcap {
  import opened Words
  import opened BitHeader
  import opened BitStream

  const MODE: bv32 := 0x1
  const REG_READ: bv32 := 0x2
  const RESET: bv32 := 0x10
  const MOD_RESET: bv32 := 0x20
  const IN_USE: bv32 := 0x100
  const DESIGN_SWITCH: bv32 := 0x1000
  const DATA_REG_PROT: bv32 := 0x1_0000

  const LOOP_COUNT := 1_000_000
  const EOS_RETRY_COUNT := 10
  const EOS_LOOP_COUNT := 100
  const NOOP := 0x200_0000

  /** What one read of the status register shows. */
  datatype Status = Status(
    err: bool, eos: bool, regReadComplete: bool, fifoOverflow: bool, configureRequest: bool)

  /** Every status read shows a device that is ready. */
  ghost predicate Healthy(status: nat -> Status) {
    forall n :: status(n) == Status(false, true, false, false, false)
  }

  /** Read r + n of the status register still shows the configure request. */
  predicate RequestAt(status: nat -> Status, r: nat, n: nat) {
    status(r + n).configureRequest
  }

  /** The first of the reads r .. end that shows end of startup, or end if none does. */
  function FirstEos(status: nat -> Status, r: nat, end: nat): nat
    decreases end - r
  {
    if r >= end then end else if status(r).eos then r else FirstEos(status, r + 1, end)
  }

  /** What the status reads from r on must show for a download to count as done: end of startup
      within eleven reads, and then neither an error nor an overflow. */
  predicate DoneFrom(status: nat -> Status, r: nat) {
    var e := FirstEos(status, r, r + 11);
    e < r + 11 && !status(e + 1).err && !status(e + 2).fifoOverflow
  }

  lemma {:induction false} FirstEosIs(status: nat -> Status, r: nat, end: nat)
    requires r <= end
    ensures r <= FirstEos(status, r, end) <= end
    ensures forall n :: r <= n < FirstEos(status, r, end) ==> !status(n).eos
    ensures FirstEos(status, r, end) < end ==> status(FirstEos(status, r, end)).eos
    decreases end - r
  {
    if r < end && !status(r).eos {
      FirstEosIs(status, r + 1, end);
    }
  }

  /** What a download that succeeds has seen: from read `at` on a device that is ready, and behind
      it, from read `end` on, one that is done. */
  predicate Sound(status: nat -> Status, at: nat, end: nat) {
    && !status(at).err && !status(at + 1).regReadComplete && !status(at + 2).fifoOverflow
    && at + 3 <= end
    && status(end).eos && !status(end + 1).err && !status(end + 2).fifoOverflow
  }

  /** Not with an error, a completed register read or an overflow at the start, nor without end of
      startup, with an error or with an overflow at the end. */
  lemma SoundMeans(status: nat -> Status, at: nat, end: nat)
    requires Sound(status, at, end)
    ensures !status(at).err && !status(at + 1).regReadComplete && !status(at + 2).fifoOverflow
    ensures at + 3 <= end && status(end).eos && !status(end + 1).err
    ensures !status(end + 2).fifoOverflow
  {
  }

  /** The control register during a download: programming mode, in use, data register protected; no
      reset and no register read; on request design switch off. */
  function Programming(control: bv32, designSwitch: bool): bv32 {
    var c := (control | (MODE | IN_USE | DATA_REG_PROT)) & !(RESET | MOD_RESET | REG_READ);
    if designSwitch then c & !DESIGN_SWITCH else c
  }

  /** As bits: 0, 8 and 16 set; 1, 4 and 5 clear; and 12 clear on request. */
  lemma ProgrammingIs(control: bv32, designSwitch: bool)
    ensures Programming(control, designSwitch)
            == (control | 0x1_0101) & if designSwitch then 0xFFFF_EFCD else 0xFFFF_FFCD
  {
  }

  /** It does not matter whether programming mode was entered before. */
  lemma ProgrammingAgain(control: bv32, designSwitch: bool)
    ensures Programming(control | MODE | IN_USE, designSwitch)
            == Programming(control, designSwitch)
  {
  }

  /** The configure request shows in read r and in a million polls after it, and clears in the
      next. */
  ghost predicate ClearsLast(status: nat -> Status, r: nat) {
    && (forall n :: r <= n <= r + 1_000_000 ==> status(n).configureRequest)
    && !status(r + 1_000_001).configureRequest
  }

  lemma ClearsLastIs(status: nat -> Status, r: nat)
    ensures ClearsLast(status, r) <==>
              && (forall n :: 0 <= n <= LOOP_COUNT ==> RequestAt(status, r, n))
              && !RequestAt(status, r, LOOP_COUNT + 1)
  {
    if forall n :: 0 <= n <= LOOP_COUNT ==> RequestAt(status, r, n) {
      forall n | r <= n <= r + 1_000_000 ensures status(n).configureRequest {
        assert RequestAt(status, r, n - r);
      }
    }
  }

  lemma NoopsAdd(a: nat, b: nat)
    ensures Noops(a) + Noops(b) == Noops(a + b)
  {
  }

  function Noops(n: nat): (s: seq<int>)
    ensures |s| == n && forall i :: 0 <= i < n ==> s[i] == 0x200_0000
  {
    seq(n, _ => NOOP)
  }

  /** The MCAP capability: a plain control register, a log of what is written to the data register,
      and status reads that are up to the hardware; with the stashed clearing bitstream ([] if there
      is none). */
  class Device {
    const status: nat -> Status
    var readCount: nat
    var control: bv32
    var data: seq<int>
    var stash: seq<byte>

    constructor (status: nat -> Status, control: bv32, stash: seq<byte>)
      ensures this.control == control && this.stash == stash && data == []
    {
      this.status, this.control, this.stash := status, control, stash;
      readCount, data := 0, [];
    }

    method ReadStatus() returns (s: Status)
      modifies this`readCount
      ensures s == status(old(readCount)) && readCount == old(readCount) + 1
    {
      s := status(readCount);
      readCount := readCount + 1;
    }

    /** The polling loop of MCapClearRequestByConfigure, behind read r: its counter is 0 exactly
        when the request is seen cleared on the very last poll. */
    method PollRequest(ghost r: nat) returns (loop: int)
      requires readCount == r + 1
      modifies this`readCount
      ensures readCount > r
      ensures loop == 0 <==>
                && (forall n :: 1 <= n <= LOOP_COUNT ==> RequestAt(status, r, n))
                && !RequestAt(status, r, LOOP_COUNT + 1)
    {
      loop := LOOP_COUNT;
      ghost var n := 1;
      while true
        invariant 0 <= loop == LOOP_COUNT + 1 - n && readCount == r + n
        invariant forall k :: 1 <= k < n ==> RequestAt(status, r, k)
        decreases loop
      {
        var s := ReadStatus();
        assert s.configureRequest == RequestAt(status, r, n);
        if !s.configureRequest {
          break;
        }
        n := n + 1;
        loop := loop - 1;
        if loop == -1 {
          break;
        }
      }
    }

    /** MCapClearRequestByConfigure. Its retry test is off by one: it fails exactly when the request
        is seen cleared on the very last poll, and passes when it never clears. */
    method ClearRequestByConfigure() returns (rc: int, restore: bv32)
      modifies this`readCount, this`control
      ensures restore == old(control)
      ensures rc == 0 || rc == -EIO
      ensures control == if rc == 0 && RequestAt(status, old(readCount), 0)
                         then old(control) | MODE | IN_USE else old(control)
      ensures rc != 0 <==> ClearsLast(status, old(readCount))
      ensures readCount > old(readCount)
      ensures Healthy(status) ==> rc == 0
    {
      restore := control;
      ghost var r := readCount;
      ClearsLastIs(status, r);
      var s := ReadStatus();
      assert s.configureRequest == RequestAt(status, r, 0);
      if s.configureRequest {
        control := control | MODE | IN_USE;
        var loop := PollRequest(r);
        if loop == 0 {
          control := restore;
          return -EIO, restore;
        }
      }
      rc := 0;
    }

    /** One round of no-ops of Checkforcompletion */
    method WriteNoops()
      modifies this`data
      ensures data == old(data) + Noops(EOS_LOOP_COUNT)
    {
      var i := 0;
      while i < EOS_LOOP_COUNT
        invariant 0 <= i <= EOS_LOOP_COUNT && data == old(data) + Noops(i)
      {
        data := data + [NOOP];
        i := i + 1;
      }
    }

    /** Checkforcompletion: e is the deciding read. */
    method CheckForCompletion() returns (rc: int, ghost e: nat)
      modifies this`readCount, this`data
      ensures e == FirstEos(status, old(readCount), old(readCount) + 11) >= old(readCount)
      ensures rc == if e < old(readCount) + 11 then 0 else -EIO
      ensures rc == 0 <==> exists n :: old(readCount) <= n < old(readCount) + 11 && status(n).eos
      ensures rc == 0 ==> readCount == e + 1
      ensures data == old(data) + Noops(100 * (e - old(readCount)))
    {
      var retryCount := 0;
      ghost var r := readCount;
      FirstEosIs(status, r, r + 11);
      var s := ReadStatus();
      while !s.eos
        invariant 0 <= retryCount <= EOS_RETRY_COUNT && s == status(r + retryCount)
        invariant readCount == r + retryCount + 1
        invariant FirstEos(status, r, r + 11) == FirstEos(status, r + retryCount, r + 11)
        invariant data == old(data) + Noops(100 * retryCount)
        decreases EOS_RETRY_COUNT - retryCount
      {
        WriteNoops();
        NoopsAdd(100 * retryCount, EOS_LOOP_COUNT);
        s := ReadStatus();
        retryCount := retryCount + 1;
        if retryCount > EOS_RETRY_COUNT {
          return -EIO, r + 11;
        }
      }
      return 0, r + retryCount;
    }

    /** MCapFullReset: it fails exactly if the configure request clears in the last poll or the read
        behind the polls shows an error. */
    method FullReset() returns (rc: int, ghost at: nat)
      modifies this`readCount, this`control
      ensures control == old(control)
      ensures rc == 0 || rc == -EIO
      ensures rc == 0 <==> !ClearsLast(status, old(readCount)) && !status(at).err
    {
      var restore;
      rc, restore := ClearRequestByConfigure();
      at := readCount;
      if rc != 0 {
        return;
      }
      control := control | MODE | IN_USE | RESET | MOD_RESET;
      var s := ReadStatus();
      if s.err || control & MOD_RESET == 0 || control & RESET == 0 {
        control := restore;
        return -EIO, at;
      }
      control := restore;
      return 0, at;
    }

    /** bitstream_mcap_setup: it succeeds exactly if the configure request does not clear in the
        last poll and the three reads that follow, from `at` on, show no error, no completed
        register read and no overflow. */
    method Setup(designSwitch: bool) returns (err: int, restore: bv32, ghost at: nat)
      modifies this`readCount, this`control
      ensures restore == old(control)
      ensures err == 0 || (err == -EIO && control == old(control))
      ensures err == 0 ==> control == Programming(old(control), designSwitch)
      ensures Healthy(status) ==> err == 0
      ensures old(readCount) < at <= readCount
      ensures err == 0 <==>
                && !ClearsLast(status, old(readCount))
                && !status(at).err && !status(at + 1).regReadComplete
                && !status(at + 2).fifoOverflow
      ensures err == 0 ==> readCount == at + 3
    {
      err, restore := ClearRequestByConfigure();
      at := readCount;
      if err != 0 {
        return;
      }
      var s := ReadStatus();
      var bad := s.err;
      if !bad {
        s := ReadStatus();
        bad := s.regReadComplete;
      }
      if !bad {
        s := ReadStatus();
        bad := s.fifoOverflow;
      }
      if bad {
        control := restore;
        return -EIO, restore, at;
      }
      ProgrammingAgain(restore, designSwitch);
      EnterProgramming(designSwitch);
    }

    method EnterProgramming(designSwitch: bool)
      modifies this`control
      ensures control == Programming(old(control), designSwitch)
    {
      var value := control;
      value := value | (MODE | IN_USE | DATA_REG_PROT);
      value := value & !(RESET | MOD_RESET | REG_READ);
      if designSwitch {
        value := value & !DESIGN_SWITCH;
      }
      control := value;
    }

    /** bitstream_mcap_helper */
    method Helper(words: seq<byte>, wordCount: nat)
      requires 4 * wordCount <= |words|
      modifies this`data
      ensures data == old(data) + WordsOf(words)[..wordCount]
    {
      var i := 0;
      while i < wordCount
        invariant 0 <= i <= wordCount && data == old(data) + WordsOf(words)[..i]
      {
        var value := HostWord(words[4 * i], words[4 * i + 1], words[4 * i + 2], words[4 * i + 3]);
        SwapLoadsBigEndian(words[4 * i], words[4 * i + 1], words[4 * i + 2], words[4 * i + 3]);
        assert WordsOf(words)[i] == WordAt(words, i);
        data := data + [Swap32(value)];
        i := i + 1;
      }
    }

    /** bitstream_clear_mcap: the stashed clearing bitstream, in one go. Nothing is said about one
        for which the source reads outside the stash. */
    method WriteClearing() returns (v: Verdict)
      requires |stash| < 0x1_0000_0000
      modifies this`data, this`stash
      ensures v == StashVerdict(old(stash))
      ensures old(stash) == [] ==> v == Accepted && data == old(data)
      ensures old(stash) != [] ==>
                && v == FileVerdict(old(stash))
                && (v == Accepted ==> data == old(data) + WordsOf(Payload(old(stash))))
      ensures v == Accepted ==> data == old(data) + ClearingWords(old(stash)) && stash == []
      ensures v == Refused ==> data == old(data) && stash == old(stash)
    {
      if stash == [] {
        return Accepted;
      }
      var payload;
      v, payload := OpenFile(stash);
      if v == Accepted {
        Helper(payload, |payload| / 4);
        stash := [];
      }
    }

    /** One turn of the chunk loop of bitstream_ioctl_mcap, behind `at` words. */
    method WriteChunk(memory: seq<byte>, byteRead: nat, size: nat, ghost at: nat)
      requires byteRead == 4 * at && byteRead + size <= |memory|
      modifies this`data
      ensures Extends(old(data), data, WordsOf(memory), at, at + size / 4)
    {
      Helper(memory[byteRead..byteRead + size], size / 4);
      ChunkContinues(memory, at, size, size / 4);
    }

    /** The chunk loop of bitstream_ioctl_mcap: `size` bytes of user memory, chunk by chunk; a copy
        faults if it must, or if the memory ends. */
    method WriteChunks(memory: seq<byte>, size: nat, copyFaults: nat -> bool) returns (err: int)
      modifies this`data
      ensures err == 0 ==> size <= |memory| && data == old(data) + WordsOf(memory[..size])
      ensures err == 0 || err == -EFAULT
      ensures err == 0 <==> size <= |memory| && forall n :: 0 <= 1024 * n < size ==> !copyFaults(n)
    {
      var byteRead, chunk := 0, 0;
      ghost var at, before := 0, data;
      while byteRead < size
        invariant 0 <= byteRead <= size && byteRead <= |memory| && 0 <= at && 0 <= chunk
        invariant byteRead == if 1024 * chunk < size then 1024 * chunk else size
        invariant forall n :: 0 <= n < chunk ==> !copyFaults(n)
        invariant if byteRead < size then byteRead == 4 * at else at == size / 4
        invariant data == before + WordsOf(memory)[..at]
      {
        var numCharsRead := size - byteRead;
        if numCharsRead > CHUNK {
          numCharsRead := CHUNK;
        }
        if copyFaults(chunk) || byteRead + numCharsRead > |memory| {
          return -EFAULT;
        }
        ghost var was := data;
        WriteChunk(memory, byteRead, numCharsRead, at);
        QuarterAdd(at, numCharsRead);
        ExtendsOn(before, was, data, WordsOf(memory), at, at + numCharsRead / 4);
        at := at + numCharsRead / 4;
        byteRead := byteRead + numCharsRead;
        chunk := chunk + 1;
      }
      FirstWords(memory, size);
      err := 0;
    }

    /** The last test of both downloads; after a failure the device is reset with the entry value
        put back. */
    method Finish(restore: bv32) returns (failed: bool, ghost tries: nat, ghost end: nat)
      modifies this`readCount, this`control, this`data
      ensures failed <==> !DoneFrom(status, old(readCount))
      ensures old(readCount) <= end <= old(readCount) + 11
      ensures forall n :: old(readCount) <= n < end ==> !status(n).eos
      ensures !failed <==>
                && end < old(readCount) + 11 && status(end).eos
                && !status(end + 1).err && !status(end + 2).fifoOverflow
      ensures data == old(data) + Noops(tries)
      ensures control == if failed then restore else old(control)
    {
      var err;
      ghost var r := readCount;
      FirstEosIs(status, r, r + 11);
      err, end := CheckForCompletion();
      tries := 100 * (end - r);
      failed := err != 0;
      if !failed {
        var s := ReadStatus();
        failed := s.err;
      }
      if !failed {
        var s := ReadStatus();
        failed := s.fifoOverflow;
      }
      if failed {
        control := restore;
        ghost var at;
        var rc;
        rc, at := FullReset();
      }
    }

    /** bitstream_ioctl_mcap, for user memory from the given buffer on: the first chunk is
        read before the length is looked at. Unless the parser reads outside a buffer, every path
        leaves the control register as it was; and success means that the clearing bitstream and
        then the payload were written, each word once and in order. */
    method IoctlDownload(user: seq<byte>, length: nat, headFault: bool, copyFaults: nat -> bool)
      returns (outside: bool, err: int, ghost tries: nat, ghost at: nat, ghost end: nat)
      requires |stash| < 0x1_0000_0000
      modifies this
      ensures outside ==>
                HeadVerdict(user, length) == ReadOutside
                || StashVerdict(old(stash)) == ReadOutside
      ensures !outside ==> control == old(control)
      ensures !outside && err == 0 ==>
                UserFile(user, length) && StashVerdict(old(stash)) == Accepted
                && data == old(data) + ClearingWords(old(stash))
                           + WordsOf(UserPayload(user, length)) + Noops(tries)
      ensures !outside && err == 0 ==>
                && Sound(status, at, end) && old(readCount) < at && !headFault
                && forall n :: 0 <= 1024 * n < |UserPayload(user, length)| ==> !copyFaults(n)
      ensures headFault || |user| < 1024 ==>
                !outside && err == -EFAULT && data == old(data) && stash == old(stash)
      ensures !headFault && |user| >= 1024 && HeadVerdict(user, length) == Refused ==>
                !outside && err == -EINVAL && data == old(data) && stash == old(stash)
      ensures UserFile(user, length) && StashVerdict(old(stash)) == Accepted
              && !headFault && (forall chunk :: !copyFaults(chunk)) && Healthy(status)
              ==> !outside && err == 0
    {
      tries := 0;
      if headFault || |user| < CHUNK {
        return false, -EFAULT, 0, 0, 0;
      }
      var v, memory, size := OpenUser(user, length);
      if v != Accepted {
        return v == ReadOutside, -EINVAL, 0, 0, 0;
      }
      outside, err, tries, at, end := DownloadBody(memory, size, copyFaults);
    }

    /** What follows once the header is accepted. */
    method DownloadBody(memory: seq<byte>, size: nat, copyFaults: nat -> bool)
      returns (outside: bool, err: int, ghost tries: nat, ghost at: nat, ghost end: nat)
      requires |stash| < 0x1_0000_0000
      modifies this
      ensures outside ==> StashVerdict(old(stash)) == ReadOutside
      ensures !outside ==> control == old(control)
      ensures !outside && err == 0 ==>
                size <= |memory| && StashVerdict(old(stash)) == Accepted
                && data == old(data) + ClearingWords(old(stash)) + WordsOf(memory[..size])
                           + Noops(tries)
      ensures !outside && err == 0 ==>
                && Sound(status, at, end) && old(readCount) < at
                && forall n :: 0 <= 1024 * n < size ==> !copyFaults(n)
      ensures size <= |memory| && StashVerdict(old(stash)) == Accepted
              && (forall chunk :: !copyFaults(chunk)) && Healthy(status)
              ==> !outside && err == 0
    {
      var restore;
      outside, tries, end := false, 0, 0;
      err, restore, at := Setup(false);
      if err == 0 {
        var v := WriteClearing();
        if v == ReadOutside {
          return true, 0, 0, at, end;
        }
        err := if v == Accepted then 0 else -EINVAL;
      }
      if err == 0 {
        err := WriteChunks(memory, size, copyFaults);
      }
      if err == 0 {
        var failed;
        HealthyDone(status, readCount);
        failed, tries, end := Finish(restore);
        if failed {
          err := -EIO;
        }
      }
      control := restore;
    }

    /** bitstream_mcap: the boot-time download, in one go. Success leaves the control register with
        only DESIGN_SWITCH added; failure leaves it as it was. Nothing is said about a file for
        which the source reads outside the buffer. */
    method BootDownload(buffer: seq<byte>)
      returns (v: Verdict, err: int, ghost tries: nat, ghost at: nat, ghost end: nat)
      requires |buffer| < 0x1_0000_0000
      modifies this`readCount, this`control, this`data
      ensures v == FileVerdict(buffer)
      ensures v != ReadOutside ==>
                control == if v == Accepted && err == 0 then old(control) | 0x1000
                           else old(control)
      ensures v == Refused ==> err == -EINVAL && data == old(data)
      ensures v == Accepted && err == 0 ==>
                data == old(data) + WordsOf(Payload(buffer)) + Noops(tries)
      ensures v == Accepted && err == 0 ==>
                && Sound(status, at, end) && old(readCount) < at
      ensures v == Accepted && Healthy(status) ==> err == 0
    {
      var payload;
      tries, err, at, end := 0, -EINVAL, 0, 0;
      v, payload := OpenFile(buffer);
      if v == Accepted {
        err, tries, at, end := BootBody(payload);
      }
    }

    method BootBody(payload: seq<byte>)
      returns (err: int, ghost tries: nat, ghost at: nat, ghost end: nat)
      modifies this`readCount, this`control, this`data
      ensures control == if err == 0 then old(control) | 0x1000 else old(control)
      ensures err == 0 ==> data == old(data) + WordsOf(payload) + Noops(tries)
      ensures err == 0 ==>
                && Sound(status, at, end) && old(readCount) < at
      ensures Healthy(status) ==> err == 0
    {
      var restore;
      tries, end := 0, 0;
      err, restore, at := Setup(true);
      if err != 0 {
        return;
      }
      Helper(payload, |payload| / 4);
      var failed;
      HealthyDone(status, readCount);
      failed, tries, end := Finish(restore);
      if failed {
        return -EIO, tries, at, end;
      }
      restore := restore | DESIGN_SWITCH;
      control := restore;
      err := 0;
    }
  }

  lemma HealthyDone(status: nat -> Status, r: nat)
    ensures Healthy(status) ==> DoneFrom(status, r)
  {
    if Healthy(status) {
      assert status(r).eos && !status(r + 1).err && !status(r + 2).fifoOverflow;
    }
  }

  lemma FirstWords(memory: seq<byte>, size: nat)
    requires size <= |memory|
    ensures WordsOf(memory[..size]) == WordsOf(memory)[..size / 4]
  {
    WordsPrefix(memory, size / 4);
    WordsPrefix(memory[..size], size / 4);
    assert memory[..size][..4 * (size / 4)] == memory[..4 * (size / 4)];
  }

  /** The clearing bitstream, if there is one */
  function StashVerdict(stash: seq<byte>): Verdict {
    if stash == [] then Accepted else FileVerdict(stash)
  }

  function ClearingWords(stash: seq<byte>): seq<int>
    requires StashVerdict(stash) == Accepted
  {
    if stash == [] then [] else WordsOf(Payload(stash))
  }

  /** The header is parsed from a copy of the first chunk. */
  method OpenUser(user: seq<byte>, length: nat)
    returns (v: Verdict, memory: seq<byte>, size: nat)
    requires |user| >= CHUNK
    ensures v == HeadVerdict(user, length)
    ensures v == Accepted ==> (size <= |memory| <==> UserFile(user, length))
    ensures UserFile(user, length) ==> memory[..size] == UserPayload(user, length)
  {
    var from;
    v, from, size := Open(user[..CHUNK], length);
    memory := if v == Accepted then user[from..] else [];
  }

  function HeadVerdict(user: seq<byte>, length: nat): Verdict {
    if |user| < CHUNK then Refused else OpenVerdict(user[..CHUNK], length)
  }

  /** The header is accepted in the first chunk, and the memory holds what it announces. */
  predicate UserFile(user: seq<byte>, length: nat) {
    && |user| >= CHUNK && HeadVerdict(user, length) == Accepted
    && Parse(user[..CHUNK]).index + Parse(user[..CHUNK]).value.bitstreamLength <= |user|
  }

  function UserPayload(user: seq<byte>, length: nat): seq<byte>
    requires UserFile(user, length)
  {
    var n := Parse(user[..CHUNK]).index;
    user[n..n + Parse(user[..CHUNK]).value.bitstreamLength]
  }

  /** A header accepted in the first bytes of a file is the header of the file, so that the
      payload of a file downloaded from user memory is that of the same file in a kernel buffer. */
  lemma UserPayloadIsPayload(user: seq<byte>)
    requires |user| < 0x1_0000_0000 && UserFile(user, |user|)
    ensures FileVerdict(user) == Accepted && UserPayload(user, |user|) == Payload(user)
  {
    HeadDecides(user, CHUNK);
  }

  /** A header accepted in the first bytes of a file is the header of the file. */
  lemma HeadDecides(file: seq<byte>, n: nat)
    requires n <= |file| < 0x1_0000_0000 && Parse(file[..n]).Got?
    ensures Parse(file) == Parse(file[..n])
  {
    var head := Parse(file[..n]);
    AcceptsExactlyPrinted(file[..n], head.value, head.index);
    var unchecked :| At(file[..n], 0, Print(head.value, unchecked));
    var m := |Print(head.value, unchecked)|;
    assert file[..n][0..m] == file[0..m];
    assert At(file, 0, Print(head.value, unchecked));
    AcceptsExactlyPrinted(file, head.value, head.index);
  }
}
