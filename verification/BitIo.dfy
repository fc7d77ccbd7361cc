/**
  The bit layer of the codec: code words packed into bytes, and bits read back out of them, with
  the CRC of every byte that passes.
 */
module BitIo {
  import opened Bytes
  import opened Bits
  import opened Buffers
  import opened Crc
  import Huffman

  class BitIo {
    var crc: crc16
    var putbuf: word
    var putlen: byte
    var getbuf: word
    var getlen: byte
    ghost var first: nat
    ghost var start: nat
    ghost var fetched: nat

    // ----- writing -----

    /** Nothing lies below the bits that wait in the accumulator, */
    ghost predicate Tidy()
      reads this
    {
      Clean(putbuf, putlen)
    }

    /** and no more than 16 wait, so that the shifts of the next call are defined. */
    ghost predicate Writing()
      reads this
    {
      putlen <= 16 && Tidy()
    }

    /** All bits written so far: the bytes sent and the bits that wait. */
    ghost function Written(out: Buffer): seq<bool>
      reads this, out
      requires out.Valid()
    {
      BytesBits(out.Contents()) + Bits.Top(putbuf, putlen)
    }

    constructor () { }

    method CrcPutc(c: word, out: Buffer)
      requires out.Valid()
      modifies this`crc, out
      ensures out.Valid() && out.i == old(out.i) && out.Contents() == old(out.Contents()) + [LowByte(c)]
      ensures old(crc == CrcOf(out.Contents())) ==> crc == CrcOf(out.Contents())
    {
      CrcOfSnoc(out.Contents(), LowByte(c));
      crc := UpdCrc(LowByte(c), crc);
      out.AddChar(LowByte(c));
    }

    method CrcGetc(inb: Buffer) returns (r: Char)
      requires inb.Valid()
      modifies this`crc, inb`i
      ensures var s := inb.Contents();
        && inb.i == NextIndex(|s|, old(inb.i))
        && if old(inb.i) < |s| then r == Got(s[old(inb.i)]) && crc == UpdCrc(r.c, old(crc)) else r == Eof && crc == old(crc)
    {
      r := inb.IterChar();
      if r.Got? {
        crc := UpdCrc(r.c, crc);
      }
    }

    /** Write the top `l` bits of the word `c`, which has 16 of them; zeros follow when `l` is more. */
    method Putcode(l: nat, c: word, out: Buffer)
      requires out.Valid() && c < 0x10000
      modifies this`crc, this`putbuf, this`putlen, out
      ensures out.Valid() && out.i == old(out.i) && old(out.Contents()) <= out.Contents()
      ensures old(crc == CrcOf(out.Contents())) ==> crc == CrcOf(out.Contents())
      ensures |out.Contents()| <= |old(out.Contents())| + 2
      ensures old(Writing()) && l < 240 && Clean(c, l) ==>
        Tidy() && putlen == Waits(old(putlen), l) && Written(out) == old(Written(out)) + Bits.Top(c, l)
    {
      hide CrcOf, UpdCrc, BytesBits, Clean, Shr, Shl, Or, Bit, ByteBits, Bits.Top;
      ghost var m := Merged(putbuf, putlen, c);
      if Writing() && l < 240 && Clean(c, l) { Packing(out.Contents(), putbuf, putlen, c, l); }
      putbuf := OrWord(putbuf, Shr(c, putlen));
      putlen := (putlen + l) % 256;
      if putlen >= 8 {
        CrcPutc(putbuf / 256, out);
        putlen := putlen - 8;
        if putlen >= 8 {
          CrcPutc(putbuf, out);
          putlen := putlen - 8;
          putbuf := Shl(c, l - putlen);
        } else {
          putbuf := Shl(putbuf, 8);
        }
      }
    }

    /** Send the first eight of the bits that still wait, or all of them with zeros behind them. */
    method EncodeEnd(out: Buffer)
      requires out.Valid()
      modifies this`crc, out
      ensures out.Valid() && out.i == old(out.i) && old(out.Contents()) <= out.Contents()
      ensures old(crc == CrcOf(out.Contents())) ==> crc == CrcOf(out.Contents())
      ensures |out.Contents()| <= |old(out.Contents())| + 1
      ensures old(Tidy()) ==> Flushed(BytesBits(out.Contents()), old(Written(out)), putlen)
    {
      ghost var sent := out.Contents();
      if putlen != 0 {
        CrcPutc(putbuf / 256, out);
        BytesBitsSnoc(sent, HighByte(putbuf));
        TopOfHighByte(putbuf);
        if Tidy() { LastByte(BytesBits(sent), putbuf, putlen); }
      }
    }

    // ----- reading -----

    /** The bits to be read: those of the bytes from `start` on. */
    ghost function Source(inb: Buffer): seq<bool>
      reads this, inb
      requires inb.Valid() && start <= |inb.Contents()|
    {
      BytesBits(inb.Contents()[start..])
    }

    /** How many bits have been read. */
    ghost function Cursor(): int
      reads this
    {
      8 * fetched - getlen
    }

    /** The bits that wait are the next ones of the source, then zeros; the CRC covers what has been taken. */
    ghost predicate Reading(inb: Buffer)
      reads this, inb
    {
      && inb.Valid() && |inb.Contents()| < WORDS
      && first <= start <= |inb.Contents()|
      && inb.i == (if start + fetched <= |inb.Contents()| then start + fetched else |inb.Contents()|)
      && crc == CrcOf(inb.Contents()[first..inb.i])
      && getlen <= 16 && getlen <= 8 * fetched
      && Waiting(Source(inb), getbuf, getlen, 8 * fetched)
    }

    /** From here on the bytes of `inb` are read as bits. */
    ghost method StartBits(inb: Buffer, first: nat)
      requires inb.Valid() && |inb.Contents()| < WORDS
      requires first <= inb.i <= |inb.Contents()| && crc == CrcOf(inb.Contents()[first..inb.i])
      requires getbuf == 0 && getlen == 0
      modifies this`first, this`start, this`fetched
      ensures Reading(inb) && start == inb.i && Cursor() == 0 && this.first == first
    {
      this.first := first;
      start := inb.i;
      fetched := 0;
      NothingWaits(Source(inb), 0);
    }

    /** Take one more byte into the accumulator; zeros come after the end. */
    method Fetch(inb: Buffer)
      requires Reading(inb) && getlen <= 8
      modifies this`crc, this`getbuf, this`getlen, this`fetched, inb`i
      ensures Reading(inb) && Cursor() == old(Cursor()) && getlen == old(getlen) + 8
    {
      hide CrcOf, UpdCrc, BytesBits, Shl, Or, Waiting, NextByte;
      ghost var s, i0 := inb.Contents(), inb.i;
      if i0 < |s| { NextCrc(s, first, i0); }
      var x := CrcGetc(inb);
      var b: byte := if x.Got? then x.c else 0;
      NextByteIs(s[start..], fetched, b);
      MergeByte(Source(inb), getbuf, getlen, b, fetched);
      getbuf := OrWord(getbuf, Shl(b, 8 - getlen));
      getlen := getlen + 8;
      fetched := fetched + 1;
    }

    /** Fill the accumulator to more than eight bits. */
    method Refill(inb: Buffer)
      requires Reading(inb)
      modifies this`crc, this`getbuf, this`getlen, this`fetched, inb`i
      ensures Reading(inb) && 9 <= getlen && Cursor() == old(Cursor())
    {
      hide CrcOf, BytesBits, Waiting;
      while getlen <= 8
        invariant Reading(inb) && Cursor() == old(Cursor())
        decreases 16 - getlen
      {
        Fetch(inb);
      }
    }

    method GetBit(inb: Buffer) returns (bit: int)
      requires Reading(inb)
      modifies this`crc, this`getbuf, this`getlen, this`fetched, inb`i
      ensures Reading(inb) && 8 <= getlen < 16 && Cursor() == old(Cursor()) + 1
      ensures bit == Huffman.Num(Huffman.BitAt(Source(inb), old(Cursor())))
    {
      hide CrcOf, BytesBits, Shl, Clean;
      Refill(inb);
      var i := getbuf;
      Shifting(Source(inb), getbuf, getlen, 8 * fetched, 1);
      getbuf := Shl(getbuf, 1);
      getlen := getlen - 1;
      bit := if Bit(i, 0) then 1 else 0;
    }

    method GetByte(inb: Buffer) returns (b: byte)
      requires Reading(inb)
      modifies this`crc, this`getbuf, this`getlen, this`fetched, inb`i
      ensures Reading(inb) && Cursor() == old(Cursor()) + 8
      ensures ByteBits(b) == Huffman.Padded(Source(inb), old(Cursor()), 8)
    {
      hide CrcOf, BytesBits, Shl, Clean;
      Refill(inb);
      var i := getbuf;
      Shifting(Source(inb), getbuf, getlen, 8 * fetched, 8);
      getbuf := Shl(getbuf, 8);
      getlen := getlen - 8;
      b := HighByte(i);
      TopOfHighByte(i);
    }
  }

  // ----- writing -----

  /** One call of Putcode, in terms of the bits that wait before and after. */
  lemma Packing(sent: seq<byte>, buf: word, p: nat, c: word, l: nat)
    requires p <= 16 && c < 0x10000 && Clean(buf, p) && Clean(c, l)
    ensures var m, w := Merged(buf, p, c), BytesBits(sent) + Bits.Top(buf, p) + Bits.Top(c, l);
      if p + l < 8 then BytesBits(sent) + Bits.Top(m, p + l) == w && Clean(m, p + l)
      else if p + l < 16 then BytesBits(sent + [HighByte(m)]) + Bits.Top(Shl(m, 8), p + l - 8) == w && Clean(Shl(m, 8), p + l - 8)
      else var p' := p + l - 16;
        BytesBits(sent + [HighByte(m)] + [LowByte(m)]) + Bits.Top(Shl(c, l - p'), p') == w && Clean(Shl(c, l - p'), p')
  {
    hide BytesBits, Clean, Shr, Shl, Or, Bit, ByteBits, Bits.Top;
    var m := Merged(buf, p, c);
    Associate(BytesBits(sent), Bits.Top(buf, p), Bits.Top(c, l));
    if p + l < 8 {
      PackNone(buf, p, c, l);
    } else if p + l < 16 {
      PackOne(buf, p, c, l);
      BytesBitsSnoc(sent, HighByte(m));
      Associate(BytesBits(sent), ByteBits(HighByte(m)), Bits.Top(Shl(m, 8), p + l - 8));
    } else {
      var p' := p + l - 16;
      PackTwo(buf, p, c, l);
      BytesBitsSnoc(sent, HighByte(m));
      BytesBitsSnoc(sent + [HighByte(m)], LowByte(m));
      Rejoin3(BytesBits(sent), ByteBits(HighByte(m)), ByteBits(LowByte(m)), Bits.Top(Shl(c, l - p'), p'));
    }
  }

  lemma Rejoin3(x: seq<bool>, y: seq<bool>, z: seq<bool>, w: seq<bool>)
    ensures ((x + y) + z) + w == x + (y + z + w)
  {
  }

  /** What is left of `bits` when only the first eight of the last `wait` are sent. */
  function Kept(bits: seq<bool>, wait: nat): (r: seq<bool>)
    requires wait <= |bits|
  {
    if wait <= 8 then bits else bits[..|bits| - wait + 8]
  }

  /** `padded` is what is kept of `bits`, filled up to a whole byte with zeros. */
  ghost predicate Flushed(padded: seq<bool>, bits: seq<bool>, wait: nat) {
    wait <= |bits| && ZeroPadded(padded, Kept(bits, wait))
  }

  ghost predicate ZeroPadded(padded: seq<bool>, bits: seq<bool>) {
    |bits| <= |padded| < |bits| + 8 && padded[..|bits|] == bits && forall i :: |bits| <= i < |padded| ==> !padded[i]
  }

  lemma LastByte(sent: seq<bool>, buf: word, p: nat)
    requires Clean(buf, p)
    ensures 0 < p ==> Flushed(sent + Bits.Top(buf, 8), sent + Bits.Top(buf, p), p)
  {
    if p > 8 {
      assert Bits.Top(buf, p)[..8] == Bits.Top(buf, 8);
      assert Kept(sent + Bits.Top(buf, p), p) == sent + Bits.Top(buf, 8);
    }
  }

  // ----- reading -----

  lemma NextCrc(s: seq<byte>, first: nat, i: nat)
    requires first <= i < |s|
    ensures CrcOf(s[first..i + 1]) == UpdCrc(s[i], CrcOf(s[first..i]))
  {
    hide CrcOf, UpdCrc;
    assert s[first..i + 1] == s[first..i] + [s[i]];
    CrcOfSnoc(s[first..i], s[i]);
  }

  /** The accumulator's top `len` bits are those of `bits` that end before `end`, and the rest is clear. */
  ghost predicate Waiting(bits: seq<bool>, buf: word, len: nat, end: nat)
    requires len <= end
  {
    && (forall j :: 0 <= j < len ==> Bit(buf, j) == Huffman.BitAt(bits, end - len + j))
    && Clean(buf, len)
  }

  lemma NothingWaits(bits: seq<bool>, end: nat)
    ensures Waiting(bits, 0, 0, end)
  {
    forall i | 0 <= i ensures !Bit(0, i) { if i < 16 { ZeroBits(15 - i); } }
  }

  /** `b` is byte `k` of the source, or zero after its end. */
  ghost predicate NextByte(bits: seq<bool>, k: nat, b: byte) {
    forall i :: 0 <= i < 8 ==> ByteBit(b, i) == Huffman.BitAt(bits, 8 * k + i)
  }

  lemma NextByteIs(s: seq<byte>, k: nat, b: byte)
    requires b == if k < |s| then s[k] else 0
    ensures NextByte(BytesBits(s), k, b)
  {
    hide BytesBits, LowBit;
    forall i | 0 <= i < 8 ensures ByteBit(b, i) == Huffman.BitAt(BytesBits(s), 8 * k + i) {
      if k < |s| { BytesBitsAt(s, k, i); } else { ZeroBits(7 - i); }
    }
  }

  lemma MergeByte(bits: seq<bool>, buf: word, len: nat, b: byte, k: nat)
    requires len <= 8 && len <= 8 * k && Waiting(bits, buf, len, 8 * k) && NextByte(bits, k, b)
    ensures Waiting(bits, OrWord(buf, Shl(b, 8 - len)), len + 8, 8 * k + 8)
  {
    var m := OrWord(buf, Shl(b, 8 - len));
    forall j | 0 <= j
      ensures Bit(m, j) == (if j < len then Bit(buf, j) else 0 <= j - len < 8 && ByteBit(b, j - len))
    {
      OrBit(buf, Shl(b, 8 - len), j);
      ShlBit(b, 8 - len, j);
      ByteWordBit(b, j + 8 - len);
    }
    assert forall i :: 0 <= i < 8 ==> ByteBit(b, i) == Huffman.BitAt(bits, 8 * k + i);
    forall j | 0 <= j < len + 8 ensures Bit(m, j) == Huffman.BitAt(bits, 8 * k + 8 - (len + 8) + j) {
      if j >= len { assert ByteBit(b, j - len) == Huffman.BitAt(bits, 8 * k + (j - len)); }
    }
  }

  lemma Shifting(bits: seq<bool>, buf: word, len: nat, end: nat, n: nat)
    requires n <= len <= end && Waiting(bits, buf, len, end)
    ensures Waiting(bits, Shl(buf, n), len - n, end)
  {
    forall j | 0 <= j ensures Bit(Shl(buf, n), j) == Bit(buf, j + n) { ShlBit(buf, n, j); }
  }
}
