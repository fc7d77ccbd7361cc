/**
  Coding and decoding one symbol or one position: the Huffman tables and the bit layer together.
 */
module Symbols {
  import opened Bytes
  import opened Bits
  import opened Buffers
  import opened BitIo
  import opened HuffTree
  import opened HuffCoder
  import opened Positions
  import Huffman
  import Crc

  // ----- collecting a code word -----

  lemma {:induction false} HighestBit(w: nat, k: nat)
    requires w < Pow2(k)
    ensures LowBit(w + Pow2(k), k)
  {
    if k > 0 { HighestBit(w / 2, k - 1); }
  }

  lemma TopBitSet(w: word, i: nat)
    requires w < 0x8000
    ensures Bit(w + 0x8000, i) == (i == 0 || Bit(w, i))
  {
    PowTable();
    if i == 0 { HighestBit(w, 15); }
    else if i < 16 { LowBitsOnly(w, 1, 15, 15 - i); }
  }

  /** The register after one more bit has been put in front of it. */
  function PushBit(i: word, b: bool): (r: word)
    requires i < 0x10000
    ensures r < 0x10000
  {
    if b then i / 2 + 0x8000 else i / 2
  }

  lemma PushBits(i: word, b: bool, k: nat)
    requires i < 0x10000 && k < 16
    ensures Bit(PushBit(i, b), k) == (if k == 0 then b else Bit(i, k - 1))
  {
    ShrOnce(i, k);
    if b { TopBitSet(i / 2, k); }
  }

  /** A bit put in front of the bits that the register holds of a word. */
  lemma PushTop(i: word, b: bool, low: seq<bool>)
    requires i < 0x10000 && Clean(i, |low|) && Top(i, |low|) == Cut(low)
    ensures Clean(PushBit(i, b), |low| + 1) && Top(PushBit(i, b), |low| + 1) == Cut([b] + low)
  {
    forall k | |low| + 1 <= k ensures !Bit(PushBit(i, b), k) { if k < 16 { PushBits(i, b, k); } }
    forall k | 0 <= k < |low| + 1 ensures Top(PushBit(i, b), |low| + 1)[k] == Cut([b] + low)[k] {
      if k < 16 { PushBits(i, b, k); }
      if 0 < k { assert Top(i, |low|)[k - 1] == Cut(low)[k - 1]; }
    }
  }

  /** One step up the tree puts the bit for the node left in front of the bits below it. */
  lemma PathStep(t: Tree, word: seq<bool>, k: int, i: word, low: seq<bool>)
    requires Shape(t) && 0 <= k < R && i < 0x10000 && Clean(i, |low|) && Top(i, |low|) == Cut(low)
    requires word == Huffman.Path(t, k) + low
    ensures k < t.prnt[k] <= R
    ensures var b := k % 2 == 1;
      && Clean(PushBit(i, b), |low| + 1) && Top(PushBit(i, b), |low| + 1) == Cut([b] + low)
      && word == Huffman.Path(t, t.prnt[k]) + ([b] + low)
  {
    hide Clean, Top, PushBit, Cut;
    ParentAbove(t, -1, k);
    PushTop(i, k % 2 == 1, low);
    Associate(Huffman.Path(t, t.prnt[k]), [k % 2 == 1], low);
  }

  class SymbolCoder {
    const coder: Coder
    const io: BitIo

    ghost predicate Allocated() { coder.Allocated() }

    constructor ()
      ensures Allocated() && fresh(coder.freq) && fresh(coder.son) && fresh(coder.prnt) && fresh(io)
    {
      coder := new Coder();
      io := new BitIo();
    }

    /** The code word of `c`, from the leaf up: its length, and what 16 bits hold of it. */
    method CollectCode(c: int) returns (ok: bool, j: nat, i: word)
      requires Allocated() && Shape(coder.View()) && IsSymbol(c)
      ensures ok && j == |Huffman.Code(coder.View(), c)| && i < 0x10000
      ensures Clean(i, j) && Top(i, j) == Cut(Huffman.Code(coder.View(), c))
    {
      hide Huffman.Path, Clean, Top, Shape, PushBit, Cut;
      ghost var t := coder.View();
      i, j := 0, 0;
      var k := coder.prnt[c + T];
      ghost var word, low := Huffman.Code(t, c), [];
      CodeStarts(t, c);
      while true
        invariant 0 <= k < R && i < 0x10000 && j == |low| && Clean(i, j) && Top(i, j) == Cut(low)
        invariant word == Huffman.Path(t, k) + low
        decreases R - k
      {
        PathStep(t, word, k, i, low);
        low := [k % 2 == 1] + low;
        i := PushBit(i, k % 2 == 1);
        j := j + 1;
        if k == coder.prnt[k] && k != R {
          return false, j, i;
        }
        k := coder.prnt[k];
        if k == R { break; }
      }
      PathOfRoot(t, k);
      assert word == low;
      return true, j, i;
    }

    /** Write the code word of `c`, zeros in place of its bits from the 17th on, and count the symbol. */
    method EncodeChar(c: int, out: Buffer) returns (ok: bool)
      requires Allocated() && Huffman.Inv(coder.View()) && IsSymbol(c) && out.Valid()
      modifies coder.freq, coder.son, coder.prnt, io, out
      ensures ok && coder.View() == Huffman.Update(old(coder.View()), c)
      ensures out.Valid() && out.i == old(out.i) && old(out.Contents()) <= out.Contents()
      ensures old(io.crc == Crc.CrcOf(out.Contents())) ==> io.crc == Crc.CrcOf(out.Contents())
      ensures |out.Contents()| <= |old(out.Contents())| + 2
      ensures old(io.Writing()) ==> var word := old(Huffman.Code(coder.View(), c));
        io.Tidy() && io.putlen == Waits(old(io.putlen), |word|) && io.Written(out) == old(io.Written(out)) + Cut(word)
    {
      hide Cut, Clean, Huffman.Code, Huffman.Update, Crc.CrcOf;
      var j, i;
      Huffman.CodeFits(coder.View(), c);
      ok, j, i := CollectCode(c);
      if !ok { return; }
      io.Putcode(j, i, out);
      coder.Update(c);
    }

    method EncodePosition(c: int, out: Buffer)
      requires IsPosition(c) && out.Valid()
      modifies io, out
      ensures out.Valid() && out.i == old(out.i) && old(out.Contents()) <= out.Contents()
      ensures old(io.crc == Crc.CrcOf(out.Contents())) ==> io.crc == Crc.CrcOf(out.Contents())
      ensures |out.Contents()| <= |old(out.Contents())| + 4
      ensures old(io.Writing()) ==>
        io.Tidy() && io.putlen == Waits(Waits(old(io.putlen), PLen(c / 64)), 6) < 8
        && io.Written(out) == old(io.Written(out)) + PositionBits(c)
    {
      hide Clean, PCode, Crc.CrcOf;
      WordsClean(c);
      var i := c / 64;
      ghost var w := io.Written(out);
      io.Putcode(PLen(i), PCode(i) * 256, out);
      io.Putcode(6, c % 64 * 1024, out);
      Associate(w, Top(Upper(c), PLen(i)), Top(Lower(c), 6));
    }

    method DecodeChar(inb: Buffer) returns (c: int)
      requires Allocated() && Huffman.Inv(coder.View()) && io.Reading(inb)
      modifies coder.freq, coder.son, coder.prnt, io`crc, io`getbuf, io`getlen, io`fetched, inb`i
      ensures io.Reading(inb) && 8 <= io.getlen < 16
      ensures (c, io.Cursor()) == Huffman.DecodeSymbol(old(coder.View()), io.Source(inb), old(io.Cursor()))
      ensures coder.View() == Huffman.Update(old(coder.View()), c)
    {
      hide Huffman.Walk, Shape, Huffman.Update, Waiting, BytesBits, Crc.CrcOf, Huffman.DecodeSymbol, Huffman.BitAt;
      ghost var t, bits, cur0 := coder.View(), io.Source(inb), io.Cursor();
      WalkStart(t, bits, cur0);
      c := coder.son[R];
      while c < T
        invariant 0 <= c < T + N_CHAR && (c < T ==> c % 2 == 0 && c < R)
        invariant io.Reading(inb) && io.Cursor() >= 0 && coder.View() == t
        invariant c >= T ==> 8 <= io.getlen < 16
        invariant Huffman.Walk(t, c, bits, io.Cursor()) == Huffman.DecodeSymbol(t, bits, cur0)
        decreases if c < T then c + 1 else 0
      {
        WalkStep(t, c, bits, io.Cursor());
        var b := io.GetBit(inb);
        c := coder.son[c + b];
      }
      WalkEnd(t, c, bits, io.Cursor());
      c := c - T;
      coder.Update(c);
    }

    method DecodePosition(inb: Buffer) returns (p: int)
      requires io.Reading(inb)
      modifies io`crc, io`getbuf, io`getlen, io`fetched, inb`i
      ensures io.Reading(inb) && 8 <= io.getlen < 16
      ensures (p, io.Cursor()) == Positions.DecodePosition(io.Source(inb), old(io.Cursor()))
    {
      hide Value, Waiting, BytesBits, Crc.CrcOf, Huffman.Padded, Huffman.BitAt, Positions.DecodePosition;
      ghost var bits, cur: nat := io.Source(inb), io.Cursor();
      var b := io.GetByte(inb);
      ByteValue(b);
      var c := 64 * DCode(b);
      var j := DLen(b) - 2;
      var i: nat := b;
      ghost var n: nat := 8;
      while j > 0
        invariant 0 <= j <= DLen(b) - 2 && n == 8 + (DLen(b) - 2) - j
        invariant io.Reading(inb) && io.Cursor() == cur + n
        invariant i == Value(Huffman.Padded(bits, cur, n))
        invariant j < DLen(b) - 2 ==> 8 <= io.getlen < 16
      {
        var bit := io.GetBit(inb);
        PaddedSnoc(bits, cur, n);
        i := i * 2 + bit;
        j, n := j - 1, n + 1;
      }
      p := c + i % 64;
      PositionRead(bits, cur, b, i);
    }
  }

  lemma CodeStarts(t: Tree, c: int)
    requires Shape(t) && IsSymbol(c)
    ensures 0 <= t.prnt[c + T] < R && Clean(0, 0)
    ensures Huffman.Code(t, c) == Huffman.Path(t, t.prnt[c + T]) == Huffman.Path(t, t.prnt[c + T]) + [] && Top(0, 0) == Cut([])
  {
    assert LinkOk(t, c + T);
    Huffman.RootInternal(t);
    forall i | 0 <= i ensures !Bit(0, i) { if i < 16 { ZeroBits(15 - i); } }
  }

  lemma PathOfRoot(t: Tree, k: int)
    requires Shape(t) && k == R
    ensures Huffman.Path(t, k) == []
  {
  }

  lemma PositionRead(bits: seq<bool>, cur: nat, b: byte, i: nat)
    requires b == Value(Huffman.Padded(bits, cur, 8)) && DLen(b) >= 2 && i == Value(Huffman.Padded(bits, cur, 8 + DLen(b) - 2))
    ensures Positions.DecodePosition(bits, cur) == (64 * DCode(b) + i % 64, cur + 8 + DLen(b) - 2)
  {
    hide Value, Huffman.Padded;
  }

  lemma WalkStart(t: Tree, bits: seq<bool>, cur: nat)
    requires Shape(t)
    ensures 0 <= t.son[R] < R && t.son[R] % 2 == 0
    ensures Huffman.DecodeSymbol(t, bits, cur) == Huffman.Walk(t, t.son[R], bits, cur)
  {
    Huffman.RootInternal(t);
  }

  lemma WalkStep(t: Tree, c: int, bits: seq<bool>, cur: nat)
    requires Shape(t) && 0 <= c < R && c % 2 == 0
    ensures var s := t.son[c + Huffman.Num(Huffman.BitAt(bits, cur))];
      && 0 <= s < T + N_CHAR && (s < T ==> s % 2 == 0 && s < R && s < c)
      && Huffman.Walk(t, c, bits, cur) == Huffman.Walk(t, s, bits, cur + 1)
  {
    var k := c + Huffman.Num(Huffman.BitAt(bits, cur));
    assert NodeOk(t, k, -1);
    if t.son[k] < T { ParentAbove(t, -1, t.son[k] + 1); }
  }

  lemma WalkEnd(t: Tree, c: int, bits: seq<bool>, cur: nat)
    requires Shape(t) && T <= c < T + N_CHAR
    ensures Huffman.Walk(t, c, bits, cur) == (c - T, cur)
  {
  }

  lemma PaddedSnoc(bits: seq<bool>, cur: nat, n: nat)
    ensures Value(Huffman.Padded(bits, cur, n + 1)) == 2 * Value(Huffman.Padded(bits, cur, n)) + Huffman.Num(Huffman.BitAt(bits, cur + n))
  {
    assert Huffman.Padded(bits, cur, n + 1) == Huffman.Padded(bits, cur, n) + [Huffman.BitAt(bits, cur + n)];
    ValueSnoc(Huffman.Padded(bits, cur, n), Huffman.BitAt(bits, cur + n));
  }
}
