/** Facts about multiplication, division and ring positions the solver does not find by itself. */
module Arith {

  lemma MulAtLeast(d: int, n: nat)
    requires d >= 1
    ensures d * n >= n
  {
    assert d * n == (d - 1) * n + n;
  }

  lemma DivModUnique(a: int, n: nat, q: int, r: nat)
    requires n > 0 && r < n && a == q * n + r
    ensures a % n == r && a / n == q
  {
    var q' := a / n;
    assert (q - q') * n == q * n - q' * n == a % n - r;
    if q > q' {
      MulAtLeast(q - q', n);
    } else if q < q' {
      assert (q' - q) * n == r - a % n;
      MulAtLeast(q' - q, n);
    }
  }

  lemma ModAddMultiple(r: nat, k: nat, n: nat)
    requires n > 0
    ensures (k * n + r) % n == r % n
  {
    assert k * n + r == (k + r / n) * n + r % n by {
      assert (k + r / n) * n == k * n + r / n * n;
    }
    DivModUnique(k * n + r, n, k + r / n, r % n);
  }

  lemma MulAssoc(q: nat, c: nat, n: nat)
    ensures q * (c * n) == (q * c) * n
  {
  }

  /** Reducing modulo a multiple of n first does not change the residue modulo n. */
  lemma ModOfMod(x: nat, big: nat, n: nat)
    requires n > 0 && big > 0 && big % n == 0
    ensures x % big % n == x % n
  {
    var c, q, r := big / n, x / big, x % big;
    MulAssoc(q, c, n);
    ModAddMultiple(r, q * c, n);
    assert x == (q * c) * n + r by {
      assert x == q * big + r;
      assert big == c * n;
    }
  }

  /** Adding the same amount keeps two numbers congruent, and does not make them so. */
  lemma {:induction false} ShiftCongruence(a: nat, b: nat, k: nat, n: nat)
    requires n > 0
    ensures (a + k) % n == (b + k) % n <==> a % n == b % n
  {
    if k > 0 {
      ShiftCongruence(a, b, k - 1, n);
      StepCongruence(a + (k - 1), n);
      StepCongruence(b + (k - 1), n);
    }
  }

  lemma StepCongruence(a: nat, n: nat)
    requires n > 0
    ensures (a + 1) % n == if a % n == n - 1 then 0 else a % n + 1
  {
    if a % n == n - 1 {
      assert a + 1 == (a / n + 1) * n by {
        assert (a / n + 1) * n == a / n * n + n;
      }
      DivModUnique(a + 1, n, a / n + 1, 0);
    } else {
      DivModUnique(a + 1, n, a / n, a % n + 1);
    }
  }

  // Masks

  /** Bitwise and. */
  function BitAnd(x: nat, y: nat): nat {
    if x == 0 || y == 0 then 0
    else 2 * BitAnd(x / 2, y / 2) + if x % 2 == 1 && y % 2 == 1 then 1 else 0
  }

  predicate IsPowerOf2(n: nat) {
    n == 1 || (n > 1 && n % 2 == 0 && IsPowerOf2(n / 2))
  }

  lemma PowersOf2(n: nat)
    requires IsPowerOf2(n)
    ensures IsPowerOf2(1) && IsPowerOf2(2 * n)
  {
  }

  lemma BitAndOdd(x: nat, h: nat)
    requires x > 0 && h > 0
    ensures BitAnd(x, 2 * h - 1) == 2 * BitAnd(x / 2, h - 1) + x % 2
  {
    assert (2 * h - 1) / 2 == h - 1 && (2 * h - 1) % 2 == 1;
  }

  lemma ZeroMod(n: nat)
    requires n > 0
    ensures 0 % n == 0
  {
  }

  /** Masking with a power of two less one is taking the remainder. */
  lemma {:induction false} MaskIsMod(x: nat, n: nat)
    requires IsPowerOf2(n)
    ensures BitAnd(x, n - 1) == x % n
    decreases n
  {
    if x == 0 {
      ZeroMod(n);
    } else if n > 1 {
      var h := n / 2;
      MaskIsMod(x / 2, h);
      BitAndOdd(x, h);
      HalfMod(x, h);
    }
  }

  lemma HalfMod(x: nat, h: nat)
    requires h > 0
    ensures x % (2 * h) == 2 * (x / 2 % h) + x % 2
  {
    var q, r := x / 2 / h, x / 2 % h;
    assert x / 2 == q * h + r;
    assert x == q * (2 * h) + (2 * r + x % 2) by {
      assert q * (2 * h) == 2 * (q * h);
    }
    DivModUnique(x, 2 * h, q, 2 * r + x % 2);
  }

  // Positions in a ring of n slots

  function NextSlot(n: nat, i: nat): (j: nat)
    requires i < n
    ensures j < n
  {
    if i == n - 1 then 0 else i + 1
  }

  /** The slot k steps after slot i. */
  function Slot(n: nat, i: nat, k: nat): (j: nat)
    requires i < n
    ensures j < n
  {
    if k == 0 then i else NextSlot(n, Slot(n, i, k - 1))
  }

  lemma {:induction false} SlotIsMod(n: nat, i: nat, k: nat)
    requires i < n
    ensures Slot(n, i, k) == (i + k) % n
  {
    if k > 0 {
      SlotIsMod(n, i, k - 1);
      StepCongruence(i + (k - 1), n);
    }
  }

  lemma {:induction false} SlotFromNext(n: nat, i: nat, k: nat)
    requires i < n
    ensures Slot(n, NextSlot(n, i), k) == Slot(n, i, k + 1)
  {
    if k > 0 {
      SlotFromNext(n, i, k - 1);
    }
  }

  /** The slot k steps after slot i, for at most one round. */
  function Ahead(n: nat, i: nat, k: nat): (j: nat)
    requires i < n && k <= n
    ensures j < n
  {
    if i + k < n then i + k else i + k - n
  }

  lemma {:induction false} AheadIsSlot(n: nat, i: nat, k: nat)
    requires i < n && k <= n
    ensures Ahead(n, i, k) == Slot(n, i, k)
  {
    if k > 0 {
      AheadIsSlot(n, i, k - 1);
    }
  }

  lemma {:induction false} SlotAdd(n: nat, i: nat, a: nat, b: nat)
    requires i < n
    ensures Slot(n, Slot(n, i, a), b) == Slot(n, i, a + b)
  {
    if b > 0 {
      SlotAdd(n, i, a, b - 1);
    }
  }

  /** The slot k after the one that a running count has reached. */
  lemma AheadOfCount(n: nat, count: nat, k: nat)
    requires n > 0 && k <= n
    ensures Ahead(n, Slot(n, 0, count), k) == Slot(n, 0, count + k)
  {
    AheadIsSlot(n, Slot(n, 0, count), k);
    SlotAdd(n, 0, count, k);
  }

  lemma NextSlotIsMod(n: nat, i: nat)
    requires i < n
    ensures (i + 1) % n == NextSlot(n, i)
  {
    if i == n - 1 {
      DivModUnique(i + 1, n, 1, 0);
    } else {
      DivModUnique(i + 1, n, 0, i + 1);
    }
  }
}
