/**
  Bit strings, and the bits of the registers and bytes that the codec shifts them through.
  A code word sits at the top of the lower 16 bits of a register; bit 0 is the top one.
 */
module Bits {
  import opened Bytes

  /** Bit `i` of the lower half of a register, from the top; none from 16 on. */
  predicate Bit(w: word, i: nat) { i < 16 && LowBit(w, 15 - i) }

  predicate ByteBit(b: byte, i: nat) { i < 8 && LowBit(b, 7 - i) }

  function ByteBits(b: byte): (r: seq<bool>)
    ensures |r| == 8 && forall i :: 0 <= i < 8 ==> r[i] == ByteBit(b, i)
  {
    seq(8, i requires 0 <= i < 8 => ByteBit(b, i))
  }

  /** The bits of a byte string, in order. */
  function BytesBits(s: seq<byte>): (r: seq<bool>)
    ensures |r| == 8 * |s|
  {
    if s == [] then [] else BytesBits(s[..|s| - 1]) + ByteBits(s[|s| - 1])
  }

  lemma BytesBitsSnoc(s: seq<byte>, b: byte)
    ensures BytesBits(s + [b]) == BytesBits(s) + ByteBits(b)
  {
    assert (s + [b])[..|s|] == s;
  }

  lemma {:induction false} BytesBitsConcat(s: seq<byte>, t: seq<byte>)
    ensures BytesBits(s + t) == BytesBits(s) + BytesBits(t)
  {
    if t == [] {
      assert s + t == s;
    } else {
      var t', b := t[..|t| - 1], t[|t| - 1];
      BytesBitsConcat(s, t');
      BytesBitsSnoc(s + t', b);
      assert s + t == (s + t') + [b];
      assert BytesBits(s) + BytesBits(t) == (BytesBits(s) + BytesBits(t')) + ByteBits(b);
    }
  }

  lemma {:induction false} BytesBitsAt(s: seq<byte>, k: nat, i: nat)
    requires k < |s| && i < 8
    ensures BytesBits(s)[8 * k + i] == ByteBit(s[k], i)
  {
    if k < |s| - 1 { BytesBitsAt(s[..|s| - 1], k, i); }
  }

  // ----- registers -----

  lemma ShrOnce(w: word, i: nat)
    requires i < 16 && w < 0x10000
    ensures Bit(w / 2, i) == (i > 0 && Bit(w, i - 1))
  {
    if i == 0 {
      PowTable();
      HighBitsClear(w / 2, 15);
    }
  }

  lemma {:induction false} HighBitsClear(w: nat, k: nat)
    requires w < Pow2(k)
    ensures !LowBit(w, k)
  {
    if k > 0 { HighBitsClear(w / 2, k - 1); }
  }

  lemma ShlOnce(w: word, i: nat)
    ensures Bit(w * 2 % 0x1_0000_0000, i) == Bit(w, i + 1)
  {
    var v := w * 2 % 0x1_0000_0000;
    if i < 15 {
      PowTable();
      var y := w / 0x8000_0000;
      assert w == v / 2 + Pow2(31) * y;
      LowBitsOnly(v / 2, y, 31, 14 - i);
    }
  }

  lemma {:induction false} ShrBit(w: word, n: nat, i: nat)
    requires i < 16 && w < 0x10000
    ensures Bit(Shr(w, n), i) == (i >= n && Bit(w, i - n))
  {
    if n > 0 {
      ShrBit(w, n - 1, if i > 0 then i - 1 else i);
      ShrOnce(Shr(w, n - 1), i);
    }
  }

  lemma {:induction false} ShlBit(w: word, n: nat, i: nat)
    ensures Bit(Shl(w, n), i) == Bit(w, i + n)
  {
    if n > 0 {
      ShlBit(w, n - 1, i + 1);
      ShlOnce(Shl(w, n - 1), i);
    }
  }

  /** The bitwise or of two registers. */
  function OrWord(u: word, v: word): word {
    PowTable();
    OrSmall(u, v, 32);
    Or(u, v)
  }

  lemma OrBit(u: word, v: word, i: nat)
    ensures Bit(OrWord(u, v), i) == (Bit(u, i) || Bit(v, i))
  {
    if i < 16 { OrLowBit(u, v, 15 - i); }
  }

  // ----- bytes and registers -----

  function LowByte(w: word): byte { w % 256 }
  function HighByte(w: word): byte { w / 256 % 256 }

  lemma ModByteBit(w: nat, k: nat)
    requires k < 8
    ensures LowBit(w % 256, k) == LowBit(w, k)
  {
    PowTable();
    assert w == w % 256 + Pow2(8) * (w / 256);
    LowBitsOnly(w % 256, w / 256, 8, k);
  }

  lemma DivBit(w: nat, k: nat)
    ensures LowBit(w / 256, k) == LowBit(w, k + 8)
  {
    var a, b := w / 2 / 2 / 2 / 2, k + 4;
    assert LowBit(w, k + 8) == LowBit(w / 2, k + 7) == LowBit(w / 2 / 2, k + 6);
    assert LowBit(w / 2 / 2, k + 6) == LowBit(w / 2 / 2 / 2, k + 5) == LowBit(a, b);
    assert LowBit(a, b) == LowBit(a / 2, k + 3) == LowBit(a / 2 / 2, k + 2);
    assert LowBit(a / 2 / 2, k + 2) == LowBit(a / 2 / 2 / 2, k + 1) == LowBit(a / 2 / 2 / 2 / 2, k);
  }

  lemma HighByteBit(w: word, i: nat)
    requires i < 8
    ensures ByteBit(HighByte(w), i) == Bit(w, i)
  {
    ModByteBit(w / 256, 7 - i);
    DivBit(w, 7 - i);
  }

  lemma LowByteBit(w: word, i: nat)
    requires i < 8
    ensures ByteBit(LowByte(w), i) == Bit(w, i + 8)
  {
    ModByteBit(w, 7 - i);
  }

  lemma ByteWordBit(b: byte, i: nat)
    ensures Bit(b, i) == (i >= 8 && ByteBit(b, i - 8))
  {
    if i < 8 { ByteHigh(b, 15 - i); }
  }

  lemma {:induction false} ByteHigh(b: nat, k: nat)
    requires k >= 8 && b < 256
    ensures !LowBit(b, k)
  {
    if k == 8 {
      PowTable();
      HighBitsClear(b, 8);
    } else {
      ByteHigh(b / 2, k - 1);
    }
  }

  /** The top `n` bits of the lower half of a word, with zeros below that. */
  function Top(w: word, n: nat): (r: seq<bool>)
    ensures |r| == n && forall i :: 0 <= i < n ==> r[i] == Bit(w, i)
  {
    seq(n, i requires 0 <= i < n => Bit(w, i))
  }

  /** Nothing is set below the top `n` bits. */
  ghost predicate Clean(w: word, n: nat) {
    forall i :: n <= i ==> !Bit(w, i)
  }

  // ----- packing -----

  /** The accumulator after a code word has been merged in below the `p` bits that wait. */
  function Merged(buf: word, p: nat, c: word): word { OrWord(buf, Shr(c, p)) }

  lemma MergedBit(buf: word, p: nat, c: word, i: nat)
    requires p <= 16 && 0 <= i < 16 && c < 0x10000 && Clean(buf, p)
    ensures Bit(Merged(buf, p, c), i) == (if i < p then Bit(buf, i) else Bit(c, i - p))
  {
    ShrBit(c, p, i);
    OrBit(buf, Shr(c, p), i);
  }

  lemma TopOfHighByte(w: word)
    ensures ByteBits(HighByte(w)) == Top(w, 8)
  {
    forall i | 0 <= i < 8 ensures ByteBits(HighByte(w))[i] == Top(w, 8)[i] { HighByteBit(w, i); }
  }

  lemma BothBytes(w: word)
    ensures ByteBits(HighByte(w)) + ByteBits(LowByte(w)) == Top(w, 16)
  {
    forall i | 0 <= i < 8
      ensures ByteBits(HighByte(w))[i] == Top(w, 16)[i] && ByteBits(LowByte(w))[i] == Top(w, 16)[i + 8]
    {
      HighByteBit(w, i);
      LowByteBit(w, i);
    }
  }

  /** Merging puts the word behind the bits that wait, as far as the accumulator reaches. */
  lemma MergedTop(buf: word, p: nat, c: word, n: nat)
    requires p <= n <= 16 && c < 0x10000 && Clean(buf, p)
    ensures Top(Merged(buf, p, c), n) == Top(buf, p) + Top(c, n - p)
  {
    forall i | 0 <= i < n
      ensures Top(Merged(buf, p, c), n)[i] == (Top(buf, p) + Top(c, n - p))[i]
    { MergedBit(buf, p, c, i); }
  }

  lemma MergedClean(buf: word, p: nat, c: word, l: nat)
    requires p <= 16 && c < 0x10000 && Clean(buf, p) && Clean(c, l)
    ensures Clean(Merged(buf, p, c), p + l)
  {
    forall i | p + l <= i ensures !Bit(Merged(buf, p, c), i) {
      if i < 16 { MergedBit(buf, p, c, i); }
    }
  }

  /** Shifting out the top `k` bits. */
  lemma ShiftedTop(w: word, k: nat, n: nat)
    requires k <= n
    ensures Top(w, n) == Top(w, k) + Top(Shl(w, k), n - k)
  {
    forall i | k <= i < n ensures Top(w, n)[i] == Top(Shl(w, k), n - k)[i - k] { ShlBit(w, k, i - k); }
  }

  lemma ShiftedClean(w: word, k: nat, n: nat)
    requires k <= n && Clean(w, n)
    ensures Clean(Shl(w, k), n - k)
  {
    forall i | n - k <= i ensures !Bit(Shl(w, k), i) { ShlBit(w, k, i); }
  }

  lemma Associate(x: seq<bool>, y: seq<bool>, z: seq<bool>)
    ensures (x + y) + z == x + (y + z)
  {
  }

  /** How many bits wait after a word of `l` bits has been written behind the `p` bits that waited. */
  function Waits(p: nat, l: nat): nat {
    if p + l < 8 then p + l else if p + l < 16 then p + l - 8 else p + l - 16
  }

  /** What a 16-bit register holds of a word: its first 16 bits, and zeros after them. */
  function Cut(word: seq<bool>): (r: seq<bool>)
    ensures |r| == |word| && forall i :: 0 <= i < |word| ==> r[i] == (i < 16 && word[i])
  {
    seq(|word|, i requires 0 <= i < |word| => i < 16 && word[i])
  }

  /** Fewer than eight bits wait: they are all still in the accumulator. */
  lemma PackNone(buf: word, p: nat, c: word, l: nat)
    requires p + l < 8 && c < 0x10000 && Clean(buf, p) && Clean(c, l)
    ensures Top(Merged(buf, p, c), p + l) == Top(buf, p) + Top(c, l)
    ensures Clean(Merged(buf, p, c), p + l)
  {
    MergedTop(buf, p, c, p + l);
    MergedClean(buf, p, c, l);
  }

  /** One byte is complete: it and what stays in the accumulator are the bits that waited and the word. */
  lemma PackOne(buf: word, p: nat, c: word, l: nat)
    requires 8 <= p + l < 16 && c < 0x10000 && Clean(buf, p) && Clean(c, l)
    ensures var m := Merged(buf, p, c);
      && ByteBits(HighByte(m)) + Top(Shl(m, 8), p + l - 8) == Top(buf, p) + Top(c, l)
      && Clean(Shl(m, 8), p + l - 8)
  {
    var m := Merged(buf, p, c);
    TopOfHighByte(m);
    MergedTop(buf, p, c, p + l);
    MergedClean(buf, p, c, l);
    ShiftedTop(m, 8, p + l);
    ShiftedClean(m, 8, p + l);
  }

  /**
    Two bytes are complete: the rest of the word is taken from the word itself.  A word of more
    than 16 bits goes on with zeros, and more than eight bits may then wait.
   */
  lemma PackTwo(buf: word, p: nat, c: word, l: nat)
    requires p <= 16 <= p + l && c < 0x10000 && Clean(buf, p) && Clean(c, l)
    ensures var m := Merged(buf, p, c); var p' := p + l - 16;
      && ByteBits(HighByte(m)) + ByteBits(LowByte(m)) + Top(Shl(c, l - p'), p') == Top(buf, p) + Top(c, l)
      && Clean(Shl(c, l - p'), p')
  {
    var m := Merged(buf, p, c);
    var k := 16 - p;
    var p' := p + l - 16;
    assert l - p' == k;
    BothBytes(m);
    MergedTop(buf, p, c, 16);
    ShiftedTop(c, k, l);
    ShiftedClean(c, k, l);
    Associate(Top(buf, p), Top(c, k), Top(Shl(c, k), p'));
  }
}
