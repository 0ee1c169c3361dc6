/**
 Machine words of the driver: 32-bit descriptor words, 64-bit bus addresses, and the split of an
 address into two words.
 */
module Words {

  type u32 = x: nat | x < 0x1_0000_0000

  type u64 = x: nat | x < 0x1_0000_0000_0000_0000

  const PAGE_SIZE := 4096

  // Error numbers, returned negated

  const EIO := 5
  const ENOMEM := 12
  const EFAULT := 14
  const EINVAL := 22
  const ERESTARTSYS := 512

  /** Unsigned 32-bit arithmetic. Written as repeated subtraction of 2^32, which keeps division out
      of the proofs that only pass wrapped values around; Wrap32IsMod gives the usual form. */
  function Wrap32(a: nat): u32 {
    if a < 0x1_0000_0000 then a else Wrap32(a - 0x1_0000_0000)
  }

  /** Unsigned 64-bit arithmetic (bus addresses, endpoint addresses, user pointers). */
  function Wrap64(a: nat): u64 {
    if a < 0x1_0000_0000_0000_0000 then a else Wrap64(a - 0x1_0000_0000_0000_0000)
  }

  lemma {:induction false} Wrap32IsMod(a: nat)
    ensures Wrap32(a) == a % 0x1_0000_0000
  {
    if a >= 0x1_0000_0000 {
      Wrap32IsMod(a - 0x1_0000_0000);
    }
  }

  lemma {:induction false} Wrap64IsMod(a: nat)
    ensures Wrap64(a) == a % 0x1_0000_0000_0000_0000
  {
    if a >= 0x1_0000_0000_0000_0000 {
      Wrap64IsMod(a - 0x1_0000_0000_0000_0000);
    }
  }

  lemma {:induction false} Wrap32Add(a: nat, b: nat)
    ensures Wrap32(Wrap32(a) + b) == Wrap32(a + b)
  {
    if a >= 0x1_0000_0000 {
      Wrap32Add(a - 0x1_0000_0000, b);
    }
  }

  lemma {:induction false} Wrap64Add(a: nat, b: nat)
    ensures Wrap64(Wrap64(a) + b) == Wrap64(a + b)
  {
    if a >= 0x1_0000_0000_0000_0000 {
      Wrap64Add(a - 0x1_0000_0000_0000_0000, b);
    }
  }

  /** A C int holding the low 32 bits of a wider value. */
  function TruncateToInt(a: int): (i: int)
    ensures -0x8000_0000 <= i < 0x8000_0000 && (a - i) % 0x1_0000_0000 == 0
  {
    var w := a % 0x1_0000_0000;
    if w < 0x8000_0000 then w else w - 0x1_0000_0000
  }

  /** PCI_DMA_L */
  function LowWord(a: u64): u32 {
    a % 0x1_0000_0000
  }

  /** PCI_DMA_H: shifted down twice by 16 bits */
  function HighWord(a: u64): u32 {
    (a / 0x1_0000 / 0x1_0000) % 0x1_0000_0000
  }

  /** The address the hardware reads back from a pair of descriptor words. */
  function JoinWords(lo: u32, hi: u32): u64 {
    hi * 0x1_0000_0000 + lo
  }

  lemma SplitJoin(a: u64)
    ensures JoinWords(LowWord(a), HighWord(a)) == a
    ensures LowWord(a) == a % 0x1_0000_0000 && HighWord(a) == a / 0x1_0000_0000
  {
    assert a / 0x1_0000 / 0x1_0000 == a / 0x1_0000_0000;
  }
}
