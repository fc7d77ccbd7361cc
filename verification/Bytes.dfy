/** Bytes as C promotes them, and the unsigned 32-bit arithmetic the codec's registers use. */
module Bytes {
  type byte = b: int | 0 <= b < 256

  type word = w: int | 0 <= w < 0x1_0000_0000

  function Shr(w: word, n: int): (r: word)
    ensures r <= w
    decreases n
  {
    if n <= 0 then w else Shr(w, n - 1) / 2
  }

  function Shl(w: word, n: int): word
    decreases n
  {
    if n <= 0 then w else Shl(w, n - 1) * 2 % 0x1_0000_0000
  }

  /** The bitwise or. */
  function Or(u: nat, v: nat): nat
    decreases u + v
  {
    if u == 0 && v == 0 then 0
    else (if u % 2 == 1 || v % 2 == 1 then 1 else 0) + 2 * Or(u / 2, v / 2)
  }

  /** Bit `k` of a number, counted from the lowest. */
  predicate LowBit(w: nat, k: nat) {
    if k == 0 then w % 2 == 1 else LowBit(w / 2, k - 1)
  }

  lemma {:induction false} OrLowBit(u: nat, v: nat, k: nat)
    ensures LowBit(Or(u, v), k) == (LowBit(u, k) || LowBit(v, k))
  {
    if u == 0 && v == 0 {
      ZeroBits(k);
    } else if k > 0 {
      OrLowBit(u / 2, v / 2, k - 1);
    }
  }

  lemma {:induction false} ZeroBits(k: nat)
    ensures !LowBit(0, k)
  {
    if k > 0 { ZeroBits(k - 1); }
  }

  function Pow2(n: nat): (r: nat)
    ensures r >= 1
  {
    if n == 0 then 1 else 2 * Pow2(n - 1)
  }

  lemma {:induction false} OrSmall(u: nat, v: nat, n: nat)
    requires u < Pow2(n) && v < Pow2(n)
    ensures Or(u, v) < Pow2(n)
  {
    if n > 0 { OrSmall(u / 2, v / 2, n - 1); }
  }

  /** Nothing above bit `n` matters to the bits below it. */
  lemma {:induction false} LowBitsOnly(w: nat, y: nat, n: nat, k: nat)
    requires k < n
    ensures LowBit(w + Pow2(n) * y, k) == LowBit(w, k)
  {
    assert Pow2(n) * y == 2 * (Pow2(n - 1) * y);
    if k > 0 { LowBitsOnly(w / 2, y, n - 1, k - 1); }
  }

  lemma PowTable()
    ensures Pow2(8) == 0x100 && Pow2(15) == 0x8000 && Pow2(16) == 0x10000 && Pow2(31) == 0x8000_0000 && Pow2(32) == 0x1_0000_0000
  {
    assert Pow2(4) == 16 && Pow2(8) == 0x100 && Pow2(12) == 0x1000;
    assert Pow2(15) == 0x8000 && Pow2(16) == 0x10000 && Pow2(20) == 0x10_0000 && Pow2(24) == 0x100_0000;
    assert Pow2(28) == 0x1000_0000 && Pow2(31) == 0x8000_0000;
  }
}
