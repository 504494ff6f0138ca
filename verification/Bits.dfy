/** Non-negative integers of unbounded width read bit by bit, as Python reads its integers. */
module Bits {

  const TWO_64: nat := 0x1_0000_0000_0000_0000

  /** What the first 8 bytes of a digest, or a 64-bit fingerprint, can be. */
  type Word = n: nat | n < TWO_64

  function Pow2(k: nat): (p: nat)
    ensures p >= 1
  {
    if k == 0 then 1 else 2 * Pow2(k - 1)
  }

  lemma Pow2Plus4(k: nat)
    ensures Pow2(k + 4) == 16 * Pow2(k)
  {
    assert Pow2(k + 2) == 2 * Pow2(k + 1);
    assert Pow2(k + 4) == 2 * Pow2(k + 3);
  }

  lemma Pow2Plus16(k: nat)
    ensures Pow2(k + 16) == 0x1_0000 * Pow2(k)
  {
    Pow2Plus4(k);
    Pow2Plus4(k + 4);
    Pow2Plus4(k + 8);
    Pow2Plus4(k + 12);
  }

  lemma Pow2Plus64(k: nat)
    ensures Pow2(k + 64) == TWO_64 * Pow2(k)
  {
    Pow2Plus16(k);
    Pow2Plus16(k + 16);
    Pow2Plus16(k + 32);
    Pow2Plus16(k + 48);
  }

  lemma Pow2Is64()
    ensures Pow2(64) == TWO_64
  {
    Pow2Plus64(0);
  }

  /** `n >> i` */
  function Shr(n: nat, i: nat): nat {
    if i == 0 then n else Shr(n, i - 1) / 2
  }

  /** `(n >> i) & 1` */
  predicate Bit(n: nat, i: nat) {
    Shr(n, i) % 2 == 1
  }

  /** `a | b` */
  function Or(a: nat, b: nat): nat {
    if a == 0 && b == 0 then 0
    else (if a % 2 == 1 || b % 2 == 1 then 1 else 0) + 2 * Or(a / 2, b / 2)
  }

  /** `a ^ b` */
  function Xor(a: nat, b: nat): nat {
    if a == 0 && b == 0 then 0
    else (if a % 2 != b % 2 then 1 else 0) + 2 * Xor(a / 2, b / 2)
  }

  /** `bin(n).count("1")` */
  function PopCount(n: nat): nat {
    if n == 0 then 0 else n % 2 + PopCount(n / 2)
  }

  /** Shifting is dividing: bit i of n is the parity of n / 2^i. */
  lemma {:induction false} ShrDivides(n: nat, i: nat)
    ensures Shr(n, i) * Pow2(i) <= n < (Shr(n, i) + 1) * Pow2(i)
  {
    if i > 0 {
      ShrDivides(n, i - 1);
      var q, p := Shr(n, i - 1), Pow2(i - 1);
      Halved(q, p, n);
    }
  }

  lemma Halved(q: nat, p: nat, n: nat)
    requires q * p <= n < (q + 1) * p
    ensures q / 2 * (2 * p) <= n < (q / 2 + 1) * (2 * p)
  {
    var h, b := q / 2, q % 2;
    assert q == 2 * h + b;
    assert q * p == h * (2 * p) + b * p;
    assert (h + 1) * (2 * p) == h * (2 * p) + 2 * p;
    assert (q + 1) * p == q * p + p;
    assert b == 0 || b == 1;
  }

  lemma {:induction false} ShrBound(n: nat, i: nat, k: nat)
    requires n < Pow2(k) && i <= k
    ensures Shr(n, i) < Pow2(k - i)
  {
    if i > 0 {
      ShrBound(n, i - 1, k);
    }
  }

  /** Setting a bit above everything set so far is an addition, and it touches that bit alone. */
  lemma {:induction false} OrAbove(n: nat, i: nat)
    requires n < Pow2(i)
    ensures Or(n, Pow2(i)) == n + Pow2(i)
  {
    if i > 0 {
      OrAbove(n / 2, i - 1);
      assert Pow2(i) % 2 == 0 && Pow2(i) / 2 == Pow2(i - 1);
    }
  }

  lemma {:induction false} ShrAbove(n: nat, i: nat, j: nat)
    requires n < Pow2(i) && j <= i
    ensures Shr(n + Pow2(i), j) == Shr(n, j) + Pow2(i - j)
  {
    if j > 0 {
      ShrAbove(n, i, j - 1);
    }
  }

  lemma BitsAbove(n: nat, i: nat)
    requires n < Pow2(i)
    ensures Bit(n + Pow2(i), i) && !Bit(n, i)
    ensures forall j :: 0 <= j < i ==> Bit(n + Pow2(i), j) == Bit(n, j)
  {
    ShrAbove(n, i, i);
    ShrBound(n, i, i);
    forall j | 0 <= j < i
      ensures Bit(n + Pow2(i), j) == Bit(n, j)
    {
      BitBelow(n, i, j);
    }
  }

  lemma BitBelow(n: nat, i: nat, j: nat)
    requires n < Pow2(i) && j < i
    ensures Bit(n + Pow2(i), j) == Bit(n, j)
  {
    ShrAbove(n, i, j);
    assert Pow2(i - j) == 2 * Pow2(i - j - 1);
    SameParity(Shr(n, j), Pow2(i - j - 1));
  }

  lemma SameParity(x: nat, y: nat)
    ensures (x + 2 * y) % 2 == x % 2
  {
  }

  /** Numbers below 2^k are determined by their k low bits. */
  lemma {:induction false} BitsDetermine(a: nat, b: nat, j: nat, k: nat)
    requires a < Pow2(k) && b < Pow2(k) && j <= k
    requires forall i :: j <= i < k ==> Bit(a, i) == Bit(b, i)
    ensures Shr(a, j) == Shr(b, j)
    decreases k - j
  {
    if j == k {
      ShrBound(a, k, k);
      ShrBound(b, k, k);
    } else {
      BitsDetermine(a, b, j + 1, k);
      assert Bit(a, j) == Bit(b, j);
      assert Shr(a, j + 1) == Shr(a, j) / 2 && Shr(b, j + 1) == Shr(b, j) / 2;
    }
  }
}
