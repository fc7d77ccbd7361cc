/**
  The code for match positions: the upper six bits by a prefix code of 3 to 8 bits, the lower
  six as they are.
 */
module Positions {
  import opened Bytes
  import opened Bits
  import Huffman

  // ----- the tables, written by their ranges -----

  /** p_len: the length of the prefix for the upper six bits. */
  function PLen(i: int): (l: int)
    requires 0 <= i < 64
    ensures 3 <= l <= 8
  {
    if i < 1 then 3 else if i < 4 then 4 else if i < 12 then 5 else if i < 24 then 6 else if i < 48 then 7 else 8
  }

  /** p_code: the prefix, at the top of a byte. */
  function PCode(i: int): byte
    requires 0 <= i < 64
  {
    if i < 1 then 0x00 else if i < 4 then 0x20 + 0x10 * (i - 1) else if i < 12 then 0x50 + 8 * (i - 4)
    else if i < 24 then 0x90 + 4 * (i - 12) else if i < 48 then 0xC0 + 2 * (i - 24) else 0xF0 + (i - 48)
  }

  /** d_code: the upper six bits, from the first byte of the code. */
  function DCode(b: byte): (i: int)
    ensures 0 <= i < 64
  {
    if b < 0x20 then 0 else if b < 0x50 then 1 + (b - 0x20) / 16 else if b < 0x90 then 4 + (b - 0x50) / 8
    else if b < 0xC0 then 12 + (b - 0x90) / 4 else if b < 0xF0 then 24 + (b - 0xC0) / 2 else 48 + (b - 0xF0)
  }

  /** d_len: the length of the prefix, from the first byte of the code. */
  function DLen(b: byte): (l: int)
    ensures 3 <= l <= 8
  {
    if b < 0x20 then 3 else if b < 0x50 then 4 else if b < 0x90 then 5 else if b < 0xC0 then 6 else if b < 0xF0 then 7 else 8
  }

  // ----- numbers in bits -----

  /** The number whose binary digits are `bits`, the highest first. */
  function Value(bits: seq<bool>): nat {
    if bits == [] then 0 else 2 * Value(bits[..|bits| - 1]) + Huffman.Num(bits[|bits| - 1])
  }

  lemma ValueSnoc(bits: seq<bool>, b: bool)
    ensures Value(bits + [b]) == 2 * Value(bits) + Huffman.Num(b)
  {
    assert (bits + [b])[..|bits|] == bits;
  }

  lemma {:induction false} ValueConcat(x: seq<bool>, y: seq<bool>)
    ensures Value(x + y) == Value(x) * Pow2(|y|) + Value(y)
    ensures Value(y) < Pow2(|y|)
  {
    if y == [] {
      assert x + y == x;
    } else {
      var y', b := y[..|y| - 1], y[|y| - 1];
      ValueConcat(x, y');
      ValueSnoc(x + y', b);
      assert x + y == (x + y') + [b];
      Doubling(Value(x), Pow2(|y'|), Value(y'));
    }
  }

  lemma Doubling(x: nat, p: nat, v: nat)
    ensures 2 * (x * p + v) == x * (2 * p) + 2 * v
  {
    assert x * (2 * p) == 2 * (x * p);
  }

  lemma {:induction false} ShrDigit(w: word, k: nat)
    ensures Shr(w, k) == 2 * Shr(w, k + 1) + Huffman.Num(LowBit(w, k))
    decreases k
  {
    if k > 0 {
      ShrStep(w, k - 1);
      ShrStep(w, k);
      ShrDigit(w / 2, k - 1);
    }
  }

  lemma {:induction false} ShrStep(w: word, k: nat)
    ensures Shr(w, k + 1) == Shr(w / 2, k)
  {
    if k > 0 { ShrStep(w, k - 1); }
  }

  lemma {:induction false} ShrSmall(w: word, k: nat)
    requires w < Pow2(k)
    ensures Shr(w, k) == 0
  {
    if k > 0 {
      ShrStep(w, k - 1);
      ShrSmall(w / 2, k - 1);
    }
  }

  /** The bits of a value are the bits it was made of, and every string of eight is that of a byte. */
  lemma {:induction false} ValueBit(bits: seq<bool>, k: nat)
    requires k < |bits|
    ensures LowBit(Value(bits), k) == bits[|bits| - 1 - k]
  {
    hide Value, LowBit;
    var front, b := bits[..|bits| - 1], bits[|bits| - 1];
    assert bits == front + [b];
    ValueSnoc(front, b);
    LowBitDouble(Value(front), b, k);
    if k > 0 { ValueBit(front, k - 1); }
  }

  lemma LowBitDouble(v: nat, b: bool, k: nat)
    ensures LowBit(2 * v + Huffman.Num(b), k) == if k == 0 then b else LowBit(v, k - 1)
  {
    assert (2 * v + Huffman.Num(b)) / 2 == v;
  }

  lemma ByteOfBits(w: seq<bool>)
    requires |w| == 8
    ensures Value(w) < 256 && ByteBits(Value(w)) == w
  {
    hide Value, LowBit;
    ValueConcat([], w);
    PowTable();
    forall i | 0 <= i < 8 ensures ByteBit(Value(w), i) == w[i] { ValueBit(w, 7 - i); }
  }

  function ByteOf(w: seq<bool>): (b: byte)
    requires |w| == 8
    ensures ByteBits(b) == w
  {
    ByteOfBits(w);
    Value(w)
  }

  lemma NoValue()
    ensures Value([]) == 0
  {
  }

  lemma {:induction false} TopValue(w: word, n: nat)
    requires w < 0x10000 && n <= 16
    ensures Value(Top(w, n)) == Shr(w, 16 - n)
  {
    hide Shr, Value, LowBit;
    if n == 0 {
      PowTable();
      ShrSmall(w, 16);
      NoValue();
    } else {
      TopValue(w, n - 1);
      assert Top(w, n) == Top(w, n - 1) + [Bit(w, n - 1)];
      ValueSnoc(Top(w, n - 1), Bit(w, n - 1));
      ShrDigit(w, 16 - n);
    }
  }

  lemma ByteValue(b: byte)
    ensures Value(ByteBits(b)) == b
  {
    var w := b * 256;
    assert Shr(w, 4) == b * 16;
    assert Shr(w, 8) == b;
    TopValue(w, 8);
    TopOfHighByte(w);
    assert HighByte(w) == b;
  }

  // ----- coding -----

  predicate IsPosition(c: int) { 0 <= c < 4096 }

  /** The two words that EncodePosition writes. */
  function Upper(c: int): word
    requires IsPosition(c)
  {
    PCode(c / 64) * 256
  }

  function Lower(c: int): word
    requires IsPosition(c)
  {
    c % 64 * 1024
  }

  function PositionBits(c: int): (r: seq<bool>)
    requires IsPosition(c)
    ensures |r| == PLen(c / 64) + 6
  {
    Top(Upper(c), PLen(c / 64)) + Top(Lower(c), 6)
  }

  lemma {:induction false} MultipleClean(w: nat, n: nat, k: nat)
    requires k < n
    ensures !LowBit(w * Pow2(n), k)
  {
    assert w * Pow2(n) == 2 * (w * Pow2(n - 1));
    if k > 0 { MultipleClean(w, n - 1, k - 1); }
  }

  lemma CleanBelow(w: word, v: nat, n: nat)
    requires n <= 16 && w == v * Pow2(16 - n)
    ensures Clean(w, n)
  {
    forall i | n <= i ensures !Bit(w, i) { if i < 16 { MultipleClean(v, 16 - n, 15 - i); } }
  }

  lemma WordsClean(c: int)
    requires IsPosition(c)
    ensures Clean(Upper(c), PLen(c / 64)) && Clean(Lower(c), 6)
  {
    PrefixTable(c / 64);
    assert Pow2(10) == 1024 by { assert Pow2(5) == 32; }
    CleanBelow(Lower(c), c % 64, 6);
    var l := PLen(c / 64);
    CleanBelow(Upper(c), PrefixNumber(c / 64), l);
  }

  /** The prefix as a number of its own length. */
  function PrefixNumber(i: int): nat
    requires 0 <= i < 64
  {
    if i < 1 then 0 else if i < 4 then 1 + i else if i < 12 then 6 + i else if i < 24 then 24 + i else if i < 48 then 72 + i else 192 + i
  }

  lemma PrefixTable(i: int)
    requires 0 <= i < 64
    ensures PCode(i) == PrefixNumber(i) * Pow2(8 - PLen(i))
    ensures PCode(i) * 256 == PrefixNumber(i) * Pow2(16 - PLen(i))
  {
    assert Pow2(3) == 8 && Pow2(5) == 32;
    assert Pow2(8) == 256 && Pow2(9) == 512 && Pow2(10) == 1024 && Pow2(11) == 2048 && Pow2(12) == 4096 && Pow2(13) == 8192;
  }

  /** Whatever follows a prefix in its byte, the decoding tables know the prefix. */
  lemma PrefixKnown(i: int, h: nat)
    requires 0 <= i < 64 && h < Pow2(8 - PLen(i))
    ensures PCode(i) + h < 256 && DCode(PCode(i) + h) == i && DLen(PCode(i) + h) == PLen(i)
  {
    assert Pow2(3) == 8 && Pow2(5) == 32;
  }

  /** What DecodePosition reads from `cur` on: a byte, and then what the table of lengths says. */
  ghost function DecodePosition(bits: seq<bool>, cur: nat): (r: (int, nat))
    ensures IsPosition(r.0) && r.1 > cur
  {
    var b := Value(Huffman.Padded(bits, cur, 8));
    ValueConcat([], Huffman.Padded(bits, cur, 8));
    PowTable();
    var n: nat := 8 + (DLen(b) - 2);
    (64 * DCode(b) + Value(Huffman.Padded(bits, cur, n)) % 64, cur + n)
  }

  /** The first byte of a code is its prefix and the top of the lower six bits. */
  lemma FirstByte(c: int) returns (h: nat)
    requires IsPosition(c)
    ensures h < Pow2(8 - PLen(c / 64)) && Value(PositionBits(c)[..8]) == PCode(c / 64) + h
  {
    hide Top, Shl;
    var l := PLen(c / 64);
    var up, a := Top(Upper(c), l), Top(Lower(c), 8 - l);
    ShiftedTop(Lower(c), 8 - l, 6);
    UpperValue(c);
    ValueConcat(up, a);
    PrefixTable(c / 64);
    assert PositionBits(c)[..8] == up + a;
    h := Value(a);
  }

  lemma WholeCode(c: int)
    requires IsPosition(c)
    ensures Value(PositionBits(c)) % 64 == c % 64
  {
    hide Top, Value, PLen, Upper, Lower;
    LowerValue(c);
    var up := Top(Upper(c), PLen(c / 64));
    ValueConcat(up, Top(Lower(c), 6));
    assert Pow2(6) == 64 by { assert Pow2(3) == 8; }
    LastSix(Value(up), c % 64);
  }

  lemma LastSix(v: nat, low: nat)
    requires low < 64
    ensures (v * 64 + low) % 64 == low
  {
  }

  /** Reading back the code of a position gives the position, and reads exactly its code. */
  lemma PositionInverts(c: int, bits: seq<bool>, cur: nat)
    requires IsPosition(c) && Huffman.ReadsAt(bits, cur, PositionBits(c))
    ensures DecodePosition(bits, cur) == (c, cur + |PositionBits(c)|)
  {
    hide PositionBits, Value;
    var h := FirstByte(c);
    PrefixKnown(c / 64, h);
    PaddedReads(c, bits, cur, 8);
    PaddedReads(c, bits, cur, PLen(c / 64) + 6);
    WholeCode(c);
    assert PositionBits(c)[..PLen(c / 64) + 6] == PositionBits(c);
  }

  lemma PaddedReads(c: int, bits: seq<bool>, cur: nat, n: nat)
    requires IsPosition(c) && Huffman.ReadsAt(bits, cur, PositionBits(c)) && n <= |PositionBits(c)|
    ensures Huffman.Padded(bits, cur, n) == PositionBits(c)[..n]
  {
    hide PositionBits;
    assert forall i :: 0 <= i < n ==> Huffman.Padded(bits, cur, n)[i] == Huffman.BitAt(bits, cur + i) == PositionBits(c)[i];
  }

  lemma UpperValue(c: int)
    requires IsPosition(c)
    ensures Value(Top(Upper(c), PLen(c / 64))) == PrefixNumber(c / 64)
  {
    var l := PLen(c / 64);
    TopValue(Upper(c), l);
    PrefixTable(c / 64);
    ShrMultiple(PrefixNumber(c / 64), 16 - l);
  }

  lemma LowerValue(c: int)
    requires IsPosition(c)
    ensures Value(Top(Lower(c), 6)) == c % 64
  {
    TopValue(Lower(c), 6);
    assert Pow2(10) == 1024 by { assert Pow2(5) == 32; }
    ShrMultiple(c % 64, 10);
  }

  lemma Halving(v: nat, p: nat)
    ensures v * (2 * p) / 2 == v * p
  {
    assert v * (2 * p) == 2 * (v * p);
  }

  lemma {:induction false} ShrMultiple(v: nat, n: nat)
    requires v * Pow2(n) < 0x1_0000_0000
    ensures Shr(v * Pow2(n), n) == v
  {
    if n > 0 {
      Halving(v, Pow2(n - 1));
      ShrStep(v * Pow2(n), n - 1);
      ShrMultiple(v, n - 1);
    }
  }

  // ----- what fixes the tables -----

  /** The prefixes begin at 0, each where the one before ends, the shorter ones first, and end with the byte. */
  lemma PrefixesFill(i: int)
    requires 0 <= i < 64
    ensures PCode(0) == 0
    ensures i < 63 ==> PCode(i + 1) == PCode(i) + Pow2(8 - PLen(i)) && PLen(i) <= PLen(i + 1)
    ensures i == 63 ==> PCode(i) + Pow2(8 - PLen(i)) == 256
  {
    PowTable();
    assert Pow2(3) == 8 && Pow2(5) == 32;
  }

  /** How many of the first `n` prefixes have `l` bits. */
  function OfLength(l: nat, n: nat): nat
    requires n <= 64
  {
    if n == 0 then 0 else OfLength(l, n - 1) + (if PLen(n - 1) == l then 1 else 0)
  }

  lemma {:induction false} OfLengthIs(l: nat, n: nat)
    requires n <= 64
    ensures OfLength(l, n) == if l == 3 then Within(n, 0, 1) else if l == 4 then Within(n, 1, 4) else if l == 5 then Within(n, 4, 12)
      else if l == 6 then Within(n, 12, 24) else if l == 7 then Within(n, 24, 48) else if l == 8 then Within(n, 48, 64) else 0
  {
    if n > 0 { OfLengthIs(l, n - 1); }
  }

  function Within(n: nat, lo: nat, hi: nat): nat
    requires lo <= hi
  {
    if n <= lo then 0 else if n <= hi then n - lo else hi - lo
  }

  /** There are 1, 3, 8, 12, 24 and 16 prefixes of 3 to 8 bits. */
  lemma LengthCounts()
    ensures OfLength(3, 64) == 1 && OfLength(4, 64) == 3 && OfLength(5, 64) == 8
    ensures OfLength(6, 64) == 12 && OfLength(7, 64) == 24 && OfLength(8, 64) == 16
  {
    OfLengthIs(3, 64);
    OfLengthIs(4, 64);
    OfLengthIs(5, 64);
    OfLengthIs(6, 64);
    OfLengthIs(7, 64);
    OfLengthIs(8, 64);
  }

  /** A byte belongs to the one prefix in whose range it is. */
  lemma PrefixOfByte(b: byte, i: int)
    requires 0 <= i < 64
    ensures DCode(b) == i <==> PCode(i) <= b < PCode(i) + Pow2(8 - PLen(i))
    ensures DLen(b) == PLen(DCode(b))
  {
    hide DLen;
    PowTable();
    assert Pow2(3) == 8 && Pow2(5) == 32;
    LengthOfByte(b);
    if i != DCode(b) { OtherRange(b, i); }
  }

  lemma LengthOfByte(b: byte)
    ensures DLen(b) == PLen(DCode(b))
  {
  }

  lemma OtherRange(b: byte, i: int)
    requires 0 <= i < 64 && DCode(b) != i
    ensures b < PCode(i) || b >= PCode(i) + Pow2(8 - PLen(i))
  {
    hide DLen;
    PowTable();
    assert Pow2(3) == 8 && Pow2(5) == 32;
  }

  /** The code of a position as a number, filled up to 14 bits. */
  ghost function Aligned(c: int): nat
    requires IsPosition(c)
  {
    Value(PositionBits(c)) * Pow2(14 - |PositionBits(c)|)
  }

  lemma AlignedIs(c: int)
    requires IsPosition(c)
    ensures Aligned(c) == PCode(c / 64) * 64 + c % 64 * Pow2(8 - PLen(c / 64))
  {
    hide Top, Value, Upper, Lower, PLen, PCode;
    UpperValue(c);
    LowerValue(c);
    var l := PLen(c / 64);
    ValueConcat(Top(Upper(c), l), Top(Lower(c), 6));
    assert Pow2(6) == 64 by { assert Pow2(3) == 8; }
    PrefixTable(c / 64);
    AlignedProduct(PrefixNumber(c / 64), c % 64, Pow2(8 - l));
  }

  lemma AlignedProduct(p: nat, low: nat, k: nat)
    ensures (p * 64 + low) * k == p * k * 64 + low * k
  {
    assert (p * 64 + low) * k == p * 64 * k + low * k;
    assert p * 64 * k == p * k * 64;
  }

  /** The codes of the positions begin at 0, each where the one before ends, the shorter ones first, and fill 14 bits. */
  lemma CodesFill(c: int)
    requires IsPosition(c)
    ensures Aligned(0) == 0
    ensures c < 4095 ==> Aligned(c + 1) == Aligned(c) + Pow2(14 - |PositionBits(c)|) && |PositionBits(c)| <= |PositionBits(c + 1)|
    ensures c == 4095 ==> Aligned(c) + Pow2(14 - |PositionBits(c)|) == 0x4000
  {
    hide PositionBits, Aligned, PLen, PCode;
    var i := c / 64;
    AlignedIs(0);
    AlignedIs(c);
    PrefixesFill(i);
    if c < 4095 { AlignedIs(c + 1); }
    if c % 64 < 63 { NextLow(c); } else { LastLow(c); }
    OneMore(c % 64, Pow2(8 - PLen(i)));
  }

  lemma OneMore(n: nat, k: nat)
    ensures (n + 1) * k == n * k + k
  {
  }

  lemma NextLow(c: int)
    requires IsPosition(c) && c % 64 < 63
    ensures c < 4095 && (c + 1) / 64 == c / 64 && (c + 1) % 64 == c % 64 + 1
  {
  }

  lemma LastLow(c: int)
    requires IsPosition(c) && c % 64 == 63
    ensures c < 4095 ==> (c + 1) / 64 == c / 64 + 1 && (c + 1) % 64 == 0
    ensures c == 4095 ==> c / 64 == 63
  {
  }

  /** Strings of the same length with the same value are the same. */
  lemma {:induction false} SameValue(x: seq<bool>, y: seq<bool>)
    requires |x| == |y| && Value(x) == Value(y)
    ensures x == y
  {
    if x != [] {
      var n := |x| - 1;
      SameValue(x[..n], y[..n]);
      assert x == x[..n] + [x[n]] && y == y[..n] + [y[n]];
    }
  }

  /** Whatever bits there are, the position decoded is the one whose code stands there, and just that is read. */
  lemma PositionFound(bits: seq<bool>, cur: nat)
    ensures var (c, n) := DecodePosition(bits, cur); Huffman.ReadsAt(bits, cur, PositionBits(c)) && n == cur + |PositionBits(c)|
  {
    hide Value, PLen, PCode, DCode, DLen, PositionBits, Huffman.ReadsAt, Huffman.Padded;
    var (c, n) := DecodePosition(bits, cur);
    var b := Value(Huffman.Padded(bits, cur, 8));
    ValueConcat([], Huffman.Padded(bits, cur, 8));
    PowTable();
    var i, l := DCode(b), DLen(b);
    PrefixOfByte(b, i);
    var low := Value(Huffman.Padded(bits, cur, 6 + l)) % 64;
    assert c == 64 * i + low;
    assert c / 64 == i && c % 64 == low;
    PrefixStands(bits, cur, i, b);
    CodeStands(bits, cur, c);
    PaddedIs(bits, cur, PositionBits(c));
  }

  lemma PaddedIs(bits: seq<bool>, cur: nat, word: seq<bool>)
    requires Huffman.Padded(bits, cur, |word|) == word
    ensures Huffman.ReadsAt(bits, cur, word)
  {
    assert forall i :: 0 <= i < |word| ==> Huffman.Padded(bits, cur, |word|)[i] == Huffman.BitAt(bits, cur + i);
  }

  lemma PaddedSplit(bits: seq<bool>, cur: nat, m: nat, n: nat)
    requires m <= n
    ensures Huffman.Padded(bits, cur, n) == Huffman.Padded(bits, cur, m) + Huffman.Padded(bits, cur + m, n - m)
  {
  }

  lemma PrefixStands(bits: seq<bool>, cur: nat, i: int, b: byte)
    requires 0 <= i < 64 && b == Value(Huffman.Padded(bits, cur, 8)) && PCode(i) <= b < PCode(i) + Pow2(8 - PLen(i))
    ensures Value(Huffman.Padded(bits, cur, PLen(i))) == PrefixNumber(i)
  {
    hide Value, PCode, PrefixNumber, Huffman.Padded;
    var l := PLen(i);
    var x, y := Huffman.Padded(bits, cur, l), Huffman.Padded(bits, cur + l, 8 - l);
    PaddedSplit(bits, cur, l, 8);
    ValueConcat(x, y);
    PrefixTable(i);
    SameQuotient(Value(x), Value(y), PrefixNumber(i), b - PCode(i), Pow2(8 - l));
  }

  lemma SameQuotient(x: nat, y: nat, p: nat, h: nat, k: nat)
    requires x * k + y == p * k + h && y < k && h < k
    ensures x == p
  {
    AtLeast(x, p, k);
    AtLeast(p, x, k);
  }

  lemma AtLeast(x: nat, p: nat, k: nat)
    ensures x > p ==> x * k >= p * k + k
  {
    if x > p {
      Distribute(p, x - p, k);
      Distribute(1, x - p - 1, k);
    }
  }

  lemma Distribute(a: nat, b: nat, k: nat)
    ensures (a + b) * k == a * k + b * k && b * k >= 0
  {
  }

  lemma CodeStands(bits: seq<bool>, cur: nat, c: int)
    requires IsPosition(c) && Value(Huffman.Padded(bits, cur, PLen(c / 64))) == PrefixNumber(c / 64)
    requires Value(Huffman.Padded(bits, cur, PLen(c / 64) + 6)) % 64 == c % 64
    ensures Huffman.Padded(bits, cur, |PositionBits(c)|) == PositionBits(c)
  {
    hide Value, PLen, PrefixNumber, Huffman.Padded, Top, Upper, Lower;
    var l := PLen(c / 64);
    var x, y := Huffman.Padded(bits, cur, l), Huffman.Padded(bits, cur + l, 6);
    PaddedSplit(bits, cur, l, l + 6);
    ValueConcat(x, y);
    assert Pow2(6) == 64 by { assert Pow2(3) == 8; }
    LastSix(Value(x), Value(y));
    UpperValue(c);
    LowerValue(c);
    SameValue(x, Top(Upper(c), l));
    SameValue(y, Top(Lower(c), 6));
  }
}
