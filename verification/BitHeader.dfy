/**
 The header of a Xilinx bitstream file: the printer its layout calls for, and the parser of the
 driver, which does not know where its input ends. Reading outside the input is an outcome of its
 own.
 */
module BitHeader {
  import opened Words

  type byte = x: nat | x < 256

  const EVEN_MAGIC: byte := 0x0F
  const ODD_MAGIC: byte := 0xF0

  /** The tags 'a' to 'd', of the design name, the part name, the date and the time. */
  const TAGS: seq<byte> := [0x61, 0x62, 0x63, 0x64]
  const LENGTH_TAG: byte := 0x65

  /** What a header says; the names are in the order of their tags. */
  datatype Fields = Fields(magicLength: nat, names: seq<seq<byte>>, bitstreamLength: u32)

  /** A value read and the index behind it, or why there is none. */
  datatype Read<+T> = Got(value: T, index: nat) | Rejected | OutOfBounds

  // Printing

  function MagicByte(i: nat): byte {
    if i % 2 == 0 then EVEN_MAGIC else ODD_MAGIC
  }

  /** Magic bytes i .. count. */
  function MagicBytes(i: nat, count: nat): (s: seq<byte>)
    requires i <= count
    ensures |s| == count - i
    decreases count - i
  {
    if i == count then [] else [MagicByte(i)] + MagicBytes(i + 1, count)
  }

  function Print16(x: nat): seq<byte>
    requires x < 0x1_0000
  {
    [x / 0x100, x % 0x100]
  }

  function Print32(x: u32): seq<byte> {
    Print16(x / 0x1_0000) + Print16(x % 0x1_0000)
  }

  predicate IsName(name: seq<byte>) {
    0 < |name| < 0x1_0000 && name[|name| - 1] == 0
  }

  function PrintName(tag: byte, name: seq<byte>): (s: seq<byte>)
    requires IsName(name)
    ensures |s| == 3 + |name|
  {
    [tag] + Print16(|name|) + name
  }

  predicate AreNames(names: seq<seq<byte>>) {
    forall i :: 0 <= i < |names| ==> IsName(names[i])
  }

  function NamesLength(names: seq<seq<byte>>): nat {
    if names == [] then 0 else 3 + |names[0]| + NamesLength(names[1..])
  }

  function PrintNames(tags: seq<byte>, names: seq<seq<byte>>): (s: seq<byte>)
    requires |names| == |tags| && AreNames(names)
    ensures |s| == NamesLength(names)
  {
    if names == [] then [] else PrintName(tags[0], names[0]) + PrintNames(tags[1..], names[1..])
  }

  /** The magic ends in one byte nobody checks. */
  function PrintMagic(magicLength: nat, unchecked: byte): (s: seq<byte>)
    requires 0 < magicLength < 0x1_0000
    ensures |s| == magicLength + 4
  {
    Print16(magicLength) + MagicBytes(0, magicLength - 1) + [unchecked] + [0, 1]
  }

  predicate WellFormed(f: Fields) {
    IsPrintable(f, TAGS)
  }

  predicate IsPrintable(f: Fields, tags: seq<byte>) {
    0 < f.magicLength < 0x1_0000 && |f.names| == |tags| && AreNames(f.names)
  }

  function PrintWith(f: Fields, tags: seq<byte>, unchecked: byte): (s: seq<byte>)
    requires IsPrintable(f, tags)
    ensures |s| == HeaderLength(f)
  {
    PrintMagic(f.magicLength, unchecked)
    + (PrintNames(tags, f.names) + ([LENGTH_TAG] + Print32(f.bitstreamLength)))
  }

  function Print(f: Fields, unchecked: byte): (s: seq<byte>)
    requires WellFormed(f)
    ensures |s| == HeaderLength(f)
  {
    PrintWith(f, TAGS, unchecked)
  }

  /** HeaderLength of a printed header */
  function HeaderLength(f: Fields): nat {
    f.magicLength + 4 + NamesLength(f.names) + 5
  }

  // Parsing

  /** Shift in one more byte. */
  function Shift8(x: nat, b: nat): nat {
    x * 0x100 + b
  }

  function Read16(data: seq<byte>, index: nat): Read<nat> {
    if index + 1 < |data| then Got(Shift8(data[index], data[index + 1]), index + 2)
    else OutOfBounds
  }

  function Expect(data: seq<byte>, index: nat, tag: nat): Read<nat> {
    if index >= |data| then OutOfBounds
    else if data[index] != tag then Rejected
    else Got(tag, index + 1)
  }

  /** Magic bytes i .. count; gives their number. */
  function ReadMagicBytes(data: seq<byte>, index: nat, i: nat, count: nat): (r: Read<nat>)
    ensures r.Got? ==> r.value == count
    decreases count - i
  {
    if i >= count then Got(count, index)
    else
      match Expect(data, index, MagicByte(i))
      case Got(_, next) => ReadMagicBytes(data, next, i + 1, count)
      case r => r
  }

  /** The loop bound: one less than the length, in unsigned arithmetic. */
  function MagicCount(magicLength: nat): nat {
    if magicLength == 0 then 0xFFFF_FFFF else magicLength - 1
  }

  function ReadMagic(data: seq<byte>): Read<nat> {
    match Read16(data, 0)
    case OutOfBounds => OutOfBounds
    case Rejected => Rejected
    case Got(length, i0) =>
      match ReadMagicBytes(data, i0, 0, MagicCount(length))
      case OutOfBounds => OutOfBounds
      case Rejected => Rejected
      case Got(_, i1) =>
        match Read16(data, i1 + 1)
        case OutOfBounds => OutOfBounds
        case Rejected => Rejected
        case Got(one, i2) => if one != 1 then Rejected else Got(length, i2)
  }

  /** A name of the given length; an empty one has no last byte to look at. */
  function NameAt(data: seq<byte>, index: nat, length: nat): Read<seq<byte>> {
    if index + length > |data| || length == 0 then OutOfBounds
    else if data[index + length - 1] != 0 then Rejected
    else Got(data[index..index + length], index + length)
  }

  function ReadName(data: seq<byte>, index: nat, tag: byte): Read<seq<byte>> {
    match Expect(data, index, tag)
    case OutOfBounds => OutOfBounds
    case Rejected => Rejected
    case Got(_, i0) =>
      match Read16(data, i0)
      case OutOfBounds => OutOfBounds
      case Rejected => Rejected
      case Got(length, i1) => NameAt(data, i1, length)
  }

  function ReadLength(data: seq<byte>, index: nat): Read<nat> {
    match Expect(data, index, LENGTH_TAG)
    case OutOfBounds => OutOfBounds
    case Rejected => Rejected
    case Got(_, i) =>
      if i + 3 >= |data| then OutOfBounds
      else Got(Shift8(Shift8(Shift8(data[i], data[i + 1]), data[i + 2]), data[i + 3]), i + 4)
  }

  /** One name for each tag. */
  function ReadNames(data: seq<byte>, index: nat, tags: seq<byte>): Read<seq<seq<byte>>>
    decreases |tags|
  {
    if tags == [] then Got([], index)
    else
      match ReadName(data, index, tags[0])
      case OutOfBounds => OutOfBounds
      case Rejected => Rejected
      case Got(name, next) =>
        match ReadNames(data, next, tags[1..])
        case OutOfBounds => OutOfBounds
        case Rejected => Rejected
        case Got(names, end) => Got([name] + names, end)
  }

  /** What follows the magic. */
  function ParseRest(data: seq<byte>, tags: seq<byte>, magicLength: nat, index: nat): Read<Fields> {
    match ReadNames(data, index, tags)
    case OutOfBounds => OutOfBounds
    case Rejected => Rejected
    case Got(names, i1) =>
      match ReadLength(data, i1)
      case OutOfBounds => OutOfBounds
      case Rejected => Rejected
      case Got(length, i2) => Got(Fields(magicLength, names, length), i2)
  }

  function ParseWith(data: seq<byte>, tags: seq<byte>): Read<Fields> {
    match ReadMagic(data)
    case OutOfBounds => OutOfBounds
    case Rejected => Rejected
    case Got(magicLength, index) => ParseRest(data, tags, magicLength, index)
  }

  /** bitstream_parse_header: the fields and the header length. */
  function Parse(data: seq<byte>): Read<Fields> {
    ParseWith(data, TAGS)
  }

  // What each part accepts

  /** The bytes s stand at this index. */
  predicate At(data: seq<byte>, index: nat, s: seq<byte>) {
    index + |s| <= |data| && data[index..index + |s|] == s
  }

  lemma AtConcat(data: seq<byte>, index: nat, s: seq<byte>, t: seq<byte>)
    ensures At(data, index, s + t) <==> At(data, index, s) && At(data, index + |s|, t)
  {
    if index + |s + t| <= |data| {
      var whole := data[index..index + |s + t|];
      assert whole[..|s|] == data[index..index + |s|];
      assert whole[|s|..] == data[index + |s|..index + |s| + |t|];
      assert whole == whole[..|s|] + whole[|s|..];
    }
  }

  lemma AtOne(data: seq<byte>, index: nat, b: byte)
    ensures At(data, index, [b]) <==> index < |data| && data[index] == b
  {
  }

  lemma AtTwo(data: seq<byte>, index: nat, a: byte, b: byte)
    ensures At(data, index, [a, b]) <==>
              index + 1 < |data| && data[index] == a && data[index + 1] == b
  {
    assert [a, b] == [a] + [b];
    AtConcat(data, index, [a], [b]);
    AtOne(data, index, a);
    AtOne(data, index + 1, b);
  }

  lemma Read16Iff(data: seq<byte>, index: nat, x: nat, next: nat)
    ensures Read16(data, index) == Got(x, next) <==>
              x < 0x1_0000 && next == index + 2 && At(data, index, Print16(x))
    ensures !Read16(data, index).Rejected?
  {
    if x < 0x1_0000 {
      AtTwo(data, index, x / 0x100, x % 0x100);
    }
  }

  lemma {:induction false} MagicBytesIff(data: seq<byte>, index: nat, i: nat, count: nat, next: nat)
    requires i <= count && index <= |data|
    ensures ReadMagicBytes(data, index, i, count) == Got(count, next) <==>
              next == index + (count - i) && At(data, index, MagicBytes(i, count))
    decreases count - i
  {
    if i < count {
      AtConcat(data, index, [MagicByte(i)], MagicBytes(i + 1, count));
      AtOne(data, index, MagicByte(i));
      if index < |data| && data[index] == MagicByte(i) {
        MagicBytesIff(data, index + 1, i + 1, count, next);
      }
    }
  }

  lemma MagicParts(data: seq<byte>, m: nat)
    requires 0 < m < 0x1_0000 && m + 1 < |data|
    ensures At(data, 0, PrintMagic(m, data[m + 1])) <==>
              && At(data, 0, Print16(m)) && At(data, 2, MagicBytes(0, m - 1))
              && At(data, m + 2, Print16(1))
  {
    var magic, last := MagicBytes(0, m - 1), [data[m + 1]];
    AtConcat(data, 0, Print16(m) + magic + last, [0, 1]);
    AtConcat(data, 0, Print16(m) + magic, last);
    AtConcat(data, 0, Print16(m), magic);
    AtOne(data, m + 1, data[m + 1]);
    assert Print16(1) == [0, 1];
  }

  /** Everything up to the first name, when the magic is not empty. */
  lemma MagicIff(data: seq<byte>, m: nat, next: nat)
    requires m > 0
    ensures ReadMagic(data) == Got(m, next) <==>
              && m < 0x1_0000 && next == m + 4 && m + 1 < |data|
              && At(data, 0, PrintMagic(m, data[m + 1]))
  {
    Read16Iff(data, 0, m, 2);
    if 0 < m < 0x1_0000 && m + 1 < |data| {
      MagicParts(data, m);
    }
    if Read16(data, 0) == Got(m, 2) {
      var rest := ReadMagicBytes(data, 2, 0, m - 1);
      if rest.Got? {
        MagicBytesIff(data, 2, 0, m - 1, rest.index);
        Read16Iff(data, m + 2, 1, m + 4);
      }
      MagicBytesIff(data, 2, 0, m - 1, m + 1);
    }
  }

  lemma NameAtIff(data: seq<byte>, index: nat, length: nat, name: seq<byte>, next: nat)
    requires length < 0x1_0000
    ensures NameAt(data, index, length) == Got(name, next) <==>
              |name| == length && IsName(name) && next == index + length && At(data, index, name)
  {
    if index + length <= |data| && length > 0 {
      assert data[index..index + length][length - 1] == data[index + length - 1];
    }
  }

  lemma NameIff(data: seq<byte>, index: nat, tag: byte, name: seq<byte>, next: nat)
    ensures ReadName(data, index, tag) == Got(name, next) <==>
              IsName(name) && next == index + 3 + |name| && At(data, index, PrintName(tag, name))
  {
    var length := Read16(data, index + 1);
    AtOne(data, index, tag);
    Read16Iff(data, index + 1, |name|, index + 3);
    if length.Got? {
      Read16Iff(data, index + 1, length.value, length.index);
      NameAtIff(data, index + 3, length.value, name, next);
    }
    if |name| < 0x1_0000 {
      AtConcat(data, index, [tag] + Print16(|name|), name);
      AtConcat(data, index, [tag], Print16(|name|));
    }
  }

  lemma {:induction false} NamesPrinted(
    data: seq<byte>, index: nat, tags: seq<byte>, names: seq<seq<byte>>)
    requires |names| == |tags| && AreNames(names) && At(data, index, PrintNames(tags, names))
    ensures ReadNames(data, index, tags) == Got(names, index + NamesLength(names))
    decreases |tags|
  {
    if tags != [] {
      var after := index + 3 + |names[0]|;
      AtConcat(data, index, PrintName(tags[0], names[0]), PrintNames(tags[1..], names[1..]));
      NameIff(data, index, tags[0], names[0], after);
      NamesPrinted(data, after, tags[1..], names[1..]);
      assert names == [names[0]] + names[1..];
    }
  }

  lemma {:induction false} NamesRead(
    data: seq<byte>, index: nat, tags: seq<byte>, names: seq<seq<byte>>, next: nat)
    requires index <= |data| && ReadNames(data, index, tags) == Got(names, next)
    ensures |names| == |tags| && AreNames(names) && next == index + NamesLength(names)
    ensures At(data, index, PrintNames(tags, names))
    decreases |tags|
  {
    if tags != [] {
      var first := ReadName(data, index, tags[0]);
      var rest := ReadNames(data, first.index, tags[1..]);
      NameIff(data, index, tags[0], first.value, first.index);
      NamesRead(data, first.index, tags[1..], rest.value, next);
      assert names[0] == first.value && names[1..] == rest.value;
      AtConcat(data, index, PrintName(tags[0], names[0]), PrintNames(tags[1..], names[1..]));
    }
  }

  lemma Join32(a: byte, b: byte, c: byte, d: byte, x: u32)
    ensures Shift8(Shift8(Shift8(a, b), c), d) == x <==>
              x / 0x1_0000 == Shift8(a, b) && x % 0x1_0000 == Shift8(c, d)
  {
  }

  lemma LengthIff(data: seq<byte>, index: nat, x: u32, next: nat)
    ensures ReadLength(data, index) == Got(x, next) <==>
              next == index + 5 && At(data, index, [LENGTH_TAG] + Print32(x))
  {
    var i := index + 1;
    AtConcat(data, index, [LENGTH_TAG], Print32(x));
    AtOne(data, index, LENGTH_TAG);
    AtConcat(data, i, Print16(x / 0x1_0000), Print16(x % 0x1_0000));
    Read16Iff(data, i, x / 0x1_0000, i + 2);
    Read16Iff(data, i + 2, x % 0x1_0000, i + 4);
    if i + 3 < |data| {
      Join32(data[i], data[i + 1], data[i + 2], data[i + 3], x);
    }
  }

  // The whole header

  lemma PrintParts(data: seq<byte>, f: Fields, tags: seq<byte>, unchecked: byte)
    requires IsPrintable(f, tags)
    ensures var i0, i1 := f.magicLength + 4, f.magicLength + 4 + NamesLength(f.names);
            At(data, 0, PrintWith(f, tags, unchecked)) <==>
              && At(data, 0, PrintMagic(f.magicLength, unchecked))
              && At(data, i0, PrintNames(tags, f.names))
              && At(data, i1, [LENGTH_TAG] + Print32(f.bitstreamLength))
  {
    var length := [LENGTH_TAG] + Print32(f.bitstreamLength);
    var names := PrintNames(tags, f.names);
    AtConcat(data, 0, PrintMagic(f.magicLength, unchecked), names + length);
    AtConcat(data, f.magicLength + 4, names, length);
  }

  /** The magic of an accepted header of less than 4 GiB is not empty. */
  lemma MagicNotEmpty(data: seq<byte>)
    requires |data| < 0x1_0000_0000 && ReadMagic(data).Got?
    ensures 0 < ReadMagic(data).value
  {
    var m := Read16(data, 0).value;
    if m == 0 {
      MagicBytesIff(data, 2, 0, 0xFFFF_FFFF, ReadMagicBytes(data, 2, 0, 0xFFFF_FFFF).index);
    }
  }

  /** The parts are read one after the other. */
  predicate PartsRead(data: seq<byte>, f: Fields, tags: seq<byte>) {
    var i0, i1 := f.magicLength + 4, f.magicLength + 4 + NamesLength(f.names);
    && ReadMagic(data) == Got(f.magicLength, i0)
    && ReadNames(data, i0, tags) == Got(f.names, i1)
    && ReadLength(data, i1) == Got(f.bitstreamLength, HeaderLength(f))
  }

  lemma ReadMagicIsPrinted(data: seq<byte>, m: nat, next: nat)
    requires |data| < 0x1_0000_0000 && ReadMagic(data) == Got(m, next)
    ensures 0 < m < 0x1_0000 && next == m + 4 <= |data|
    ensures At(data, 0, PrintMagic(m, data[m + 1]))
  {
    MagicNotEmpty(data);
    MagicIff(data, m, next);
  }

  lemma ReadLengthIsPrinted(data: seq<byte>, index: nat, x: u32, next: nat)
    requires ReadLength(data, index) == Got(x, next)
    ensures next == index + 5 && At(data, index, [LENGTH_TAG] + Print32(x))
  {
    LengthIff(data, index, x, next);
  }

  lemma ParseReadsParts(data: seq<byte>, f: Fields, tags: seq<byte>, n: nat)
    requires |data| < 0x1_0000_0000 && ParseWith(data, tags) == Got(f, n)
    ensures PartsRead(data, f, tags) && n == HeaderLength(f)
  {
    var magic := ReadMagic(data);
    MagicIndex(data, magic.value, magic.index);
    RestReadsParts(data, f, tags, magic.value, magic.index, n);
  }

  lemma MagicIndex(data: seq<byte>, m: nat, next: nat)
    requires |data| < 0x1_0000_0000 && ReadMagic(data) == Got(m, next)
    ensures next == m + 4
  {
    ReadMagicIsPrinted(data, m, next);
  }

  lemma RestReadsParts(data: seq<byte>, f: Fields, tags: seq<byte>, m: nat, index: nat, n: nat)
    requires |data| < 0x1_0000_0000 && ParseRest(data, tags, m, index) == Got(f, n)
    ensures var i1 := index + NamesLength(f.names);
            && f.magicLength == m && ReadNames(data, index, tags) == Got(f.names, i1)
            && ReadLength(data, i1) == Got(f.bitstreamLength, n) && n == i1 + 5
  {
    var names := ReadNames(data, index, tags);
    NamesRead(data, index, tags, names.value, names.index);
  }

  lemma PartsReadParse(data: seq<byte>, f: Fields, tags: seq<byte>)
    requires PartsRead(data, f, tags)
    ensures ParseWith(data, tags) == Got(f, HeaderLength(f))
  {
  }

  lemma ReadPartsArePrinted(data: seq<byte>, f: Fields, tags: seq<byte>)
    requires |data| < 0x1_0000_0000 && PartsRead(data, f, tags)
    ensures IsPrintable(f, tags) && f.magicLength + 1 < |data|
    ensures At(data, 0, PrintWith(f, tags, data[f.magicLength + 1]))
  {
    var i0, i1 := f.magicLength + 4, f.magicLength + 4 + NamesLength(f.names);
    ReadMagicIsPrinted(data, f.magicLength, i0);
    NamesRead(data, i0, tags, f.names, i1);
    ReadLengthIsPrinted(data, i1, f.bitstreamLength, HeaderLength(f));
    PrintParts(data, f, tags, data[f.magicLength + 1]);
  }

  lemma PrintedMagicIsRead(data: seq<byte>, m: nat)
    requires 0 < m < 0x1_0000 && m + 1 < |data| && At(data, 0, PrintMagic(m, data[m + 1]))
    ensures ReadMagic(data) == Got(m, m + 4)
  {
    MagicIff(data, m, m + 4);
  }

  lemma PrintedLengthIsRead(data: seq<byte>, index: nat, x: u32)
    requires At(data, index, [LENGTH_TAG] + Print32(x))
    ensures ReadLength(data, index) == Got(x, index + 5)
  {
    LengthIff(data, index, x, index + 5);
  }

  lemma PrintedPartsAreRead(data: seq<byte>, f: Fields, tags: seq<byte>)
    requires IsPrintable(f, tags) && f.magicLength + 1 < |data|
    requires At(data, 0, PrintWith(f, tags, data[f.magicLength + 1]))
    ensures PartsRead(data, f, tags)
  {
    var i0, i1 := f.magicLength + 4, f.magicLength + 4 + NamesLength(f.names);
    PrintParts(data, f, tags, data[f.magicLength + 1]);
    PrintedMagicIsRead(data, f.magicLength);
    NamesPrinted(data, i0, tags, f.names);
    PrintedLengthIsRead(data, i1, f.bitstreamLength);
  }

  lemma ParsedIsPrinted(data: seq<byte>, f: Fields, n: nat)
    requires |data| < 0x1_0000_0000 && Parse(data) == Got(f, n)
    ensures WellFormed(f) && n == HeaderLength(f) && f.magicLength + 1 < |data|
    ensures At(data, 0, Print(f, data[f.magicLength + 1]))
  {
    ParseReadsParts(data, f, TAGS, n);
    ReadPartsArePrinted(data, f, TAGS);
  }

  lemma PrintedIsParsed(data: seq<byte>, f: Fields, unchecked: byte)
    requires WellFormed(f) && At(data, 0, Print(f, unchecked))
    ensures Parse(data) == Got(f, HeaderLength(f))
  {
    UncheckedByte(data, f, TAGS, unchecked);
    PrintedPartsAreRead(data, f, TAGS);
    PartsReadParse(data, f, TAGS);
  }

  /** The parser accepts exactly the printed headers: it returns f and n if and only if f is well
      formed and the first n bytes are f printed, with any byte at the one place it does not
      check. */
  lemma AcceptsExactlyPrinted(data: seq<byte>, f: Fields, n: nat)
    requires |data| < 0x1_0000_0000
    ensures Parse(data) == Got(f, n) <==>
              && WellFormed(f) && n == HeaderLength(f)
              && exists unchecked :: At(data, 0, Print(f, unchecked))
  {
    if Parse(data) == Got(f, n) {
      ParsedIsPrinted(data, f, n);
    }
    forall unchecked | WellFormed(f) && At(data, 0, Print(f, unchecked))
      ensures Parse(data) == Got(f, HeaderLength(f))
    {
      PrintedIsParsed(data, f, unchecked);
    }
  }

  lemma UncheckedByte(data: seq<byte>, f: Fields, tags: seq<byte>, unchecked: byte)
    requires IsPrintable(f, tags) && At(data, 0, PrintWith(f, tags, unchecked))
    ensures f.magicLength + 1 < |data| && data[f.magicLength + 1] == unchecked
  {
    PrintParts(data, f, tags, unchecked);
    var m := f.magicLength;
    var magic := Print16(m) + MagicBytes(0, m - 1);
    AtConcat(data, 0, magic + [unchecked], [0, 1]);
    AtConcat(data, 0, magic, [unchecked]);
    AtOne(data, m + 1, unchecked);
  }

  /** Parsing a printed header gives back its fields and its length, whatever follows it. */
  lemma RoundTrip(f: Fields, unchecked: byte, payload: seq<byte>)
    requires WellFormed(f) && |Print(f, unchecked)| + |payload| < 0x1_0000_0000
    ensures Parse(Print(f, unchecked) + payload) == Got(f, |Print(f, unchecked)|)
  {
    var data := Print(f, unchecked) + payload;
    assert data[..|Print(f, unchecked)|] == Print(f, unchecked);
    assert At(data, 0, Print(f, unchecked));
    AcceptsExactlyPrinted(data, f, HeaderLength(f));
  }

  // What is decided early

  /** Longer input decides as shorter input does, if that is long enough to decide. */
  predicate Decides<T(==)>(short: Read<T>, long: Read<T>) {
    short.OutOfBounds? || short == long
  }

  lemma {:induction false} MagicBytesDecide(
    data: seq<byte>, more: seq<byte>, index: nat, i: nat, count: nat)
    ensures Decides(ReadMagicBytes(data, index, i, count),
                    ReadMagicBytes(data + more, index, i, count))
    decreases count - i
  {
    if i < count && index < |data| {
      MagicBytesDecide(data, more, index + 1, i + 1, count);
    }
  }

  lemma MagicDecides(data: seq<byte>, more: seq<byte>)
    ensures Decides(ReadMagic(data), ReadMagic(data + more))
  {
    if Read16(data, 0).Got? {
      MagicBytesDecide(data, more, 2, 0, MagicCount(Read16(data, 0).value));
    }
  }

  lemma NameDecides(data: seq<byte>, more: seq<byte>, index: nat, tag: byte)
    ensures Decides(ReadName(data, index, tag), ReadName(data + more, index, tag))
  {
    var length := Read16(data, index + 1);
    if length.Got? && index + 3 + length.value <= |data| {
      assert (data + more)[index + 3..index + 3 + length.value]
             == data[index + 3..index + 3 + length.value];
    }
  }

  lemma {:induction false} NamesDecide(
    data: seq<byte>, more: seq<byte>, index: nat, tags: seq<byte>)
    ensures Decides(ReadNames(data, index, tags), ReadNames(data + more, index, tags))
    decreases |tags|
  {
    if tags != [] {
      NameDecides(data, more, index, tags[0]);
      var first := ReadName(data, index, tags[0]);
      if first.Got? {
        NamesDecide(data, more, first.index, tags[1..]);
      }
    }
  }

  lemma RestDecides(
    data: seq<byte>, more: seq<byte>, tags: seq<byte>, magicLength: nat, index: nat)
    ensures Decides(ParseRest(data, tags, magicLength, index),
                    ParseRest(data + more, tags, magicLength, index))
  {
    NamesDecide(data, more, index, tags);
  }

  lemma WithDecides(data: seq<byte>, more: seq<byte>, tags: seq<byte>)
    ensures Decides(ParseWith(data, tags), ParseWith(data + more, tags))
  {
    MagicDecides(data, more);
    var magic := ReadMagic(data);
    if magic.Got? {
      RestDecides(data, more, tags, magic.value, magic.index);
    }
  }

  /** A verdict that does not read outside the input stays when the input goes on. */
  lemma VerdictStays(data: seq<byte>, more: seq<byte>)
    ensures Parse(data).Rejected? ==> Parse(data + more).Rejected?
    ensures Parse(data).Got? ==> Parse(data + more) == Parse(data)
  {
    WithDecides(data, more, TAGS);
  }

  // A header

  /** The header of design "x", part "y", date "d" and time "t" with a payload of 260 bytes, byte by
      byte */
  function ExampleBytes(): seq<byte> {
    ExampleMagic() + (ExampleNames() + [0x65, 0x00, 0x00, 0x01, 0x04])
  }

  function ExampleMagic(): seq<byte> {
    [0x00, 0x09, 0x0F, 0xF0, 0x0F, 0xF0, 0x0F, 0xF0, 0x0F, 0xF0, 0x00, 0x00, 0x01]
  }

  function ExampleNames(): seq<byte> {
    [0x61, 0x00, 0x02, 0x78, 0x00]
    + ([0x62, 0x00, 0x02, 0x79, 0x00]
       + ([0x63, 0x00, 0x02, 0x64, 0x00]
          + ([0x64, 0x00, 0x02, 0x74, 0x00] + [])))
  }

  function ExampleFields(): Fields {
    Fields(9, [[0x78, 0x00], [0x79, 0x00], [0x64, 0x00], [0x74, 0x00]], 260)
  }

  lemma ExampleMagicPrinted()
    ensures PrintMagic(9, 0x00) == ExampleMagic()
  {
    assert MagicBytes(0, 8) == [0x0F, 0xF0, 0x0F, 0xF0, 0x0F, 0xF0, 0x0F, 0xF0] by {
      assert MagicBytes(8, 8) == [];
      assert MagicBytes(6, 8) == [0x0F, 0xF0];
      assert MagicBytes(4, 8) == [0x0F, 0xF0] + MagicBytes(6, 8);
      assert MagicBytes(2, 8) == [0x0F, 0xF0] + MagicBytes(4, 8);
      assert MagicBytes(0, 8) == [0x0F, 0xF0] + MagicBytes(2, 8);
    }
  }

  lemma ShortName(
    tag: byte, letter: byte, tags: seq<byte>, names: seq<seq<byte>>,
    tags': seq<byte>, names': seq<seq<byte>>)
    requires |names| == |tags| && AreNames(names)
    requires tags' == [tag] + tags && names' == [[letter, 0x00]] + names
    ensures AreNames(names')
    ensures PrintNames(tags', names')
            == [tag, 0x00, 0x02, letter, 0x00] + PrintNames(tags, names)
  {
    assert tags'[1..] == tags && names'[1..] == names;
    assert PrintName(tag, [letter, 0x00]) == [tag, 0x00, 0x02, letter, 0x00];
  }

  lemma ExampleNamesPrinted()
    ensures AreNames(ExampleFields().names)
    ensures PrintNames(TAGS, ExampleFields().names) == ExampleNames()
  {
    var x, y, d, t: seq<byte> := [0x78, 0x00], [0x79, 0x00], [0x64, 0x00], [0x74, 0x00];
    ShortName(0x64, 0x74, [], [], [0x64], [t]);
    ShortName(0x63, 0x64, [0x64], [t], [0x63, 0x64], [d, t]);
    ShortName(0x62, 0x79, [0x63, 0x64], [d, t], [0x62, 0x63, 0x64], [y, d, t]);
    ShortName(0x61, 0x78, [0x62, 0x63, 0x64], [y, d, t], TAGS, [x, y, d, t]);
  }

  lemma ExamplePrinted()
    ensures WellFormed(ExampleFields()) && Print(ExampleFields(), 0x00) == ExampleBytes()
  {
    ExampleMagicPrinted();
    ExampleNamesPrinted();
    assert [LENGTH_TAG] + Print32(260) == [0x65, 0x00, 0x00, 0x01, 0x04];
  }

  /** These bytes, with anything behind them, are parsed to these fields. */
  lemma ExampleHeader(payload: seq<byte>)
    requires |payload| < 0x1000_0000
    ensures Parse(ExampleBytes() + payload) == Got(ExampleFields(), 38)
  {
    ExamplePrinted();
    RoundTrip(ExampleFields(), 0x00, payload);
  }

  // The parser as it runs

  const HEADER_FAILURE: u32 := 0xFFFF_FFFF

  /** XHwIcap_Bit_Header */
  class Header {
    var headerLength: u32
    var bitstreamLength: u32
    var magicLength: nat
    var designName: seq<byte>
    var partName: seq<byte>
    var date: seq<byte>
    var time: seq<byte>

    constructor ()
    {
      headerLength, bitstreamLength, magicLength := 0, 0, 0;
      designName, partName, date, time := [], [], [], [];
    }

    function Abs(): Fields
      reads this
    {
      Fields(magicLength, [designName, partName, date, time], bitstreamLength)
    }
  }

  /** The magic, byte by byte, and the half word behind it. */
  method ScanMagic(data: seq<byte>) returns (r: Read<nat>)
    ensures r == ReadMagic(data)
  {
    if |data| < 2 {
      return OutOfBounds;
    }
    var length := Shift8(data[0], data[1]);
    var index, i := 2, 0;
    while i < MagicCount(length)
      invariant i <= MagicCount(length)
      invariant ReadMagicBytes(data, 2, 0, MagicCount(length))
                == ReadMagicBytes(data, index, i, MagicCount(length))
    {
      if index >= |data| {
        return OutOfBounds;
      }
      if i % 2 == 0 && data[index] != EVEN_MAGIC {
        return Rejected;
      }
      if i % 2 == 1 && data[index] != ODD_MAGIC {
        return Rejected;
      }
      index := index + 1;
      i := i + 1;
    }
    index := index + 1;
    if index + 1 >= |data| {
      return OutOfBounds;
    }
    if Shift8(data[index], data[index + 1]) != 0x01 {
      return Rejected;
    }
    r := Got(length, index + 2);
  }

  /** Copy n bytes into a fresh buffer. */
  method CopyBytes(data: seq<byte>, index: nat, n: nat) returns (name: array<byte>)
    requires index + n <= |data|
    ensures fresh(name) && name[..] == data[index..index + n]
  {
    name := new byte[n];
    var i := 0;
    while i < n
      invariant i <= n && name[..i] == data[index..index + i]
    {
      name[i] := data[index + i];
      assert name[..i + 1] == name[..i] + [name[i]];
      assert data[index..index + (i + 1)] == data[index..index + i] + [data[index + i]];
      i := i + 1;
    }
    assert name[..] == name[..n];
  }

  /** One tagged name. */
  method ScanName(data: seq<byte>, at: nat, tag: byte) returns (r: Read<seq<byte>>)
    ensures r == ReadName(data, at, tag)
  {
    var index := at;
    if index >= |data| {
      return OutOfBounds;
    }
    if data[index] != tag {
      return Rejected;
    }
    index := index + 1;
    if index + 1 >= |data| {
      return OutOfBounds;
    }
    var length := Shift8(data[index], data[index + 1]);
    index := index + 2;
    if index + length > |data| || length == 0 {
      return OutOfBounds;
    }
    var name := CopyBytes(data, index, length);
    if name[length - 1] != 0 {
      return Rejected;
    }
    r := Got(name[..], index + length);
  }

  datatype Verdict = Accepted | Refused | ReadOutside

  function VerdictOf<T>(r: Read<T>): (v: Verdict)
    ensures v == Accepted <==> r.Got?
    ensures v == Refused <==> r.Rejected?
  {
    match r
    case Got(_, _) => Accepted
    case Rejected => Refused
    case OutOfBounds => ReadOutside
  }

  /** r is what reading one name and then the rest comes to. */
  predicate Continues(first: Read<seq<byte>>, rest: Read<seq<seq<byte>>>, r: Read<seq<seq<byte>>>) {
    if !first.Got? then VerdictOf(r) == VerdictOf(first)
    else if !rest.Got? then VerdictOf(r) == VerdictOf(rest)
    else r == Got([first.value] + rest.value, rest.index)
  }

  lemma NamesStep(data: seq<byte>, index: nat, tags: seq<byte>, tail: seq<byte>)
    requires tags != [] && tags[1..] == tail
    ensures var first := ReadName(data, index, tags[0]);
            Continues(first, if first.Got? then ReadNames(data, first.index, tail) else Rejected,
                      ReadNames(data, index, tags))
  {
  }

  /** The four names, stored as they are read. */
  method ScanNames(data: seq<byte>, at: nat, header: Header) returns (v: Verdict, next: nat)
    modifies header`designName, header`partName, header`date, header`time
    ensures v == VerdictOf(ReadNames(data, at, TAGS))
    ensures v == Accepted ==>
              ReadNames(data, at, TAGS)
              == Got([header.designName, header.partName, header.date, header.time], next)
  {
    next := at;
    NamesStep(data, next, TAGS, [0x62, 0x63, 0x64]);
    var name := ScanName(data, next, 0x61);
    if !name.Got? {
      return VerdictOf(name), next;
    }
    header.designName, next := name.value, name.index;
    NamesStep(data, next, [0x62, 0x63, 0x64], [0x63, 0x64]);
    name := ScanName(data, next, 0x62);
    if !name.Got? {
      return VerdictOf(name), next;
    }
    header.partName, next := name.value, name.index;
    NamesStep(data, next, [0x63, 0x64], [0x64]);
    name := ScanName(data, next, 0x63);
    if !name.Got? {
      return VerdictOf(name), next;
    }
    header.date, next := name.value, name.index;
    NamesStep(data, next, [0x64], []);
    name := ScanName(data, next, 0x64);
    if !name.Got? {
      return VerdictOf(name), next;
    }
    header.time, next := name.value, name.index;
    assert [header.designName] + ([header.partName] + ([header.date] + ([header.time] + [])))
           == [header.designName, header.partName, header.date, header.time];
    v := Accepted;
  }

  /** The payload length, shifted in byte by byte. */
  method ScanLength(data: seq<byte>, at: nat, header: Header) returns (r: Read<nat>)
    modifies header`bitstreamLength
    ensures r == ReadLength(data, at)
    ensures r.Got? ==> header.bitstreamLength == r.value && r.index <= |data|
  {
    var index := at;
    if index >= |data| {
      return OutOfBounds;
    }
    if data[index] != LENGTH_TAG {
      return Rejected;
    }
    index := index + 1;
    if index + 3 >= |data| {
      return OutOfBounds;
    }
    header.bitstreamLength := Shift8(data[index], data[index + 1]);
    header.bitstreamLength := Shift8(header.bitstreamLength, data[index + 2]);
    header.bitstreamLength := Shift8(header.bitstreamLength, data[index + 3]);
    return Got(header.bitstreamLength, index + 4);
  }

  /** Everything behind the magic. */
  method ScanRest(data: seq<byte>, index: nat, header: Header) returns (v: Verdict)
    requires |data| < 0x1_0000_0000
    modifies header
    ensures v == VerdictOf(ParseRest(data, TAGS, old(header.magicLength), index))
    ensures if v == Accepted
            then ParseRest(data, TAGS, old(header.magicLength), index)
                 == Got(header.Abs(), header.headerLength)
            else header.headerLength == old(header.headerLength)
  {
    var next;
    v, next := ScanNames(data, index, header);
    if v != Accepted {
      return;
    }
    var length := ScanLength(data, next, header);
    if !length.Got? {
      return VerdictOf(length);
    }
    header.headerLength := length.index;
    return Accepted;
  }

  /** bitstream_parse_header: fills in the header; its length stays at the failure value unless the
      header is accepted. */
  method ParseHeader(data: seq<byte>, header: Header) returns (v: Verdict)
    requires |data| < 0x1_0000_0000
    modifies header
    ensures v == VerdictOf(Parse(data))
    ensures if v == Accepted then Parse(data) == Got(header.Abs(), header.headerLength)
            else header.headerLength == 0xFFFF_FFFF
    ensures v == Accepted ==>
              var f := Parse(data).value;
              f.names == [header.designName, header.partName, header.date, header.time]
              && f.bitstreamLength == header.bitstreamLength
  {
    header.headerLength := HEADER_FAILURE;
    var magic := ScanMagic(data);
    if !magic.Got? {
      return VerdictOf(magic);
    }
    header.magicLength := magic.value;
    v := ScanRest(data, magic.index, header);
  }
}
