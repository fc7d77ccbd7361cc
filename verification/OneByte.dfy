/**
  The smallest example in full: the compressed file of a text of one byte, the letter A.
 */
module OneByte {
  import opened Bytes
  import opened Bits
  import opened BitIo
  import opened HuffTree
  import opened Huffman
  import opened Lzss
  import opened Stream
  import opened Station
  import opened Positions
  import Archive
  import Crc
  import Forest
  import Options

  const TEXT: seq<byte> := [65]

  /** The CRC, low byte first; the length, low byte first; and nine bits of code, filled up to two bytes. */
  const FILE: seq<byte> := [0x3c, 0x6e, 1, 0, 0, 0, 0xe6, 0x80]

  /** The code word of the letter in the start tree. */
  const WORD: seq<bool> := [true, true, true, false, false, true, true, false, true]

  // ----- the code word -----

  lemma PathStep(k: int, p: int, word: seq<bool>)
    requires 0 <= k < R && p == N_CHAR + k / 2 <= R && Path(InitialTree(), p) == word
    ensures Path(InitialTree(), k) == word + [k % 2 == 1]
  {
    InitialLink(k);
  }

  lemma CodeOfA()
    ensures Code(InitialTree(), 65) == WORD
  {
    hide Path, InitialTree;
    var t := InitialTree();
    InitialLink(T + 65);
    assert Path(t, R) == [] by { PathEmpty(t); }
    PathStep(625, R, []);
    PathStep(623, 625, [true]);
    PathStep(619, 623, [true, true]);
    PathStep(610, 619, [true, true, true]);
    PathStep(592, 610, [true, true, true, false]);
    PathStep(557, 592, [true, true, true, false, false]);
    PathStep(487, 557, [true, true, true, false, false, true]);
    PathStep(346, 487, [true, true, true, false, false, true, true]);
    PathStep(65, 346, [true, true, true, false, false, true, true, false]);
  }

  lemma PathEmpty(t: Tree)
    requires Shape(t)
    ensures Path(t, R) == []
  {
  }

  // ----- the CRC -----

  lemma CrcStep(s: seq<byte>, b: byte, crc: Crc.crc16, i: byte, r: Crc.crc16)
    requires Crc.CrcOf(s) == crc && Crc.Xor(Crc.Poly(b), Crc.High(crc)) == Crc.Poly(i)
    requires Crc.Xor(Crc.Shifted(crc), Crc.Entry(i)) == r
    ensures Crc.CrcOf(s + [b]) == r
  {
    hide Crc.Xor, Crc.Entry, Crc.Shifted, Crc.Poly, Crc.Number;
    Crc.CrcOfSnoc(s, b);
    PowTable();
    Crc.NumberPoly(i, 8);
  }

  lemma PolyIs(i: byte, p: Crc.crc16, r: Crc.crc16)
    requires i > 0 && Crc.Poly(i / 2) == p && r == Crc.Xor(Crc.Doubled(p), if i % 2 == 1 then 1 else 0)
    ensures Crc.Poly(i) == r
  {
    hide Crc.Xor, Crc.Doubled;
  }

  lemma PolyDouble(i: byte, p: Crc.crc16)
    requires i < 128 && Crc.Poly(i) == p
    ensures i > 0 ==> Crc.Poly(2 * i) == Crc.Xor(Crc.Doubled(p), 0)
    ensures Crc.Poly(2 * i + 1) == Crc.Xor(Crc.Doubled(p), 1)
  {
    hide Crc.Xor, Crc.Doubled, Crc.Poly;
    if i > 0 { PolyIs(2 * i, p, Crc.Xor(Crc.Doubled(p), 0)); }
    PolyIs(2 * i + 1, p, Crc.Xor(Crc.Doubled(p), 1));
  }

  lemma Polys()
    ensures Crc.Poly(0) == 0 && Crc.Poly(1) == 1 && Crc.Poly(0xe6) == 0xe6 && Crc.Poly(0x80) == 0x80 && Crc.Poly(0x10) == 0x10 && Crc.Poly(0x33) == 0x33
    ensures Crc.Poly(0x37) == 0x37 && Crc.Poly(0x90) == 0x90 && Crc.Poly(0xb7) == 0xb7 && Crc.Poly(0x3c) == 0x3c && Crc.Poly(0x6e) == 0x6e
  {
    hide Crc.Poly;
    PolyZero();
    PolyDouble(0x00, 0x00);
    PolyDouble(0x01, 0x01);
    PolyDouble(0x03, 0x03);
    PolyDouble(0x07, 0x07);
    PolyDouble(0x0e, 0x0e);
    PolyDouble(0x1c, 0x1c);
    PolyDouble(0x39, 0x39);
    PolyDouble(0x73, 0x73);
    PolyDouble(0x02, 0x02);
    PolyDouble(0x04, 0x04);
    PolyDouble(0x08, 0x08);
    PolyDouble(0x10, 0x10);
    PolyDouble(0x20, 0x20);
    PolyDouble(0x40, 0x40);
    PolyDouble(0x06, 0x06);
    PolyDouble(0x0c, 0x0c);
    PolyDouble(0x19, 0x19);
    PolyDouble(0x0d, 0x0d);
    PolyDouble(0x1b, 0x1b);
    PolyDouble(0x09, 0x09);
    PolyDouble(0x12, 0x12);
    PolyDouble(0x24, 0x24);
    PolyDouble(0x48, 0x48);
    PolyDouble(0x05, 0x05);
    PolyDouble(0x0b, 0x0b);
    PolyDouble(0x16, 0x16);
    PolyDouble(0x2d, 0x2d);
    PolyDouble(0x5b, 0x5b);
    PolyDouble(0x0f, 0x0f);
    PolyDouble(0x1e, 0x1e);
    PolyDouble(0x37, 0x37);
  }

  lemma PolyZero()
    ensures Crc.Poly(0) == 0
  {
  }

  lemma BodyCrc()
    ensures Crc.CrcOf(FILE[2..]) == 0x6e3c == Crc.CrcJoin(0x3c, 0x6e)
  {
    hide Crc.Poly, Crc.CrcOf;
    Polys();
    NoCrc();
    CrcStep([], 0x01, 0x0000, 0x01, 0x1021);
    assert [] + [0x1] == [0x1];
    CrcStep([0x1], 0x00, 0x1021, 0x10, 0x3331);
    assert [0x1] + [0x0] == [0x1, 0x0];
    CrcStep([0x1, 0x0], 0x00, 0x3331, 0x33, 0x3730);
    assert [0x1, 0x0] + [0x0] == [0x1, 0x0, 0x0];
    CrcStep([0x1, 0x0, 0x0], 0x00, 0x3730, 0x37, 0x76b4);
    assert [0x1, 0x0, 0x0] + [0x0] == [0x1, 0x0, 0x0, 0x0];
    CrcStep([0x1, 0x0, 0x0, 0x0], 0xe6, 0x76b4, 0x90, 0x37b9);
    assert [0x1, 0x0, 0x0, 0x0] + [0xe6] == [0x1, 0x0, 0x0, 0x0, 0xe6];
    CrcStep([0x1, 0x0, 0x0, 0x0, 0xe6], 0x80, 0x37b9, 0xb7, 0x6e3c);
    assert [0x1, 0x0, 0x0, 0x0, 0xe6] + [0x80] == [0x1, 0x0, 0x0, 0x0, 0xe6, 0x80];
    assert FILE[2..] == [0x1, 0x0, 0x0, 0x0, 0xe6, 0x80];
  }

  lemma NoCrc()
    ensures Crc.CrcOf([]) == 0
  {
  }

  // ----- the parse -----

  lemma OneParse()
    ensures Parses([Lit(65)], TEXT)
  {
    hide Longest, Blind;
    var v := Blanks() + TEXT;
    NoTokens();
    GreedyNone(v);
    assert v[..Forest.N - Forest.F] == Blanks();
    TooShort(v);
    GreedySnoc(v, [], Lit(65));
    assert [] + [Lit(65)] == [Lit(65)];
  }

  lemma TooShort(v: seq<byte>)
    requires v == Blanks() + TEXT
    ensures !Blind(v, Forest.N - Forest.F) && Longest(v, Forest.N - Forest.F, 0)
  {
  }

  lemma OnlyParse(ts: seq<Token>)
    requires Parses(ts, TEXT)
    ensures ts == [Lit(65)]
  {
    hide Sound, Expand, Greedy;
    OneParse();
    SameParse(Blanks() + TEXT, [Lit(65)], ts);
    assert Alike([Lit(65)][0], ts[0]);
  }

  lemma OneSent()
    ensures Sound([Lit(65)]) && Roomy([Lit(65)]) && Pending([Lit(65)]) == 1 && Sent([Lit(65)]) == WORD
  {
    hide Sound, Expand, Sent, Pending, Roomy, Code, InitialTree;
    NoTokens();
    CodeOfA();
    CutShort();
    assert TokenOk(Expand([]), Lit(65));
    Snoc([], Lit(65));
    assert [] + [Lit(65)] == [Lit(65)] && [] + WORD == WORD;
  }

  lemma CutShort()
    ensures Cut(WORD) == WORD && Waits(0, 9) == 1
  {
  }

  // ----- the file -----

  lemma TwoBytes()
    ensures BytesBits([0xe6, 0x80]) == WORD + seq(7, _ => false)
  {
    hide BytesBits, ByteBits;
    var e, f: byte := 0xe6, 0x80;
    assert [e, f] == [] + [e] + [f];
    BytesBitsSnoc([e], f);
    BytesBitsSnoc([], e);
    assert [] + [e] == [e];
    NothingBits();
    ByteE6();
    Byte80();
    assert BytesBits([e, f]) == ByteBits(e) + ByteBits(f);
  }

  lemma NothingBits()
    ensures BytesBits([]) == []
  {
  }

  lemma ByteE6()
    ensures ByteBits(0xe6) == [true, true, true, false, false, true, true, false]
  {
    assert LowBit(230, 7) && LowBit(230, 6) && LowBit(230, 5) && !LowBit(230, 4);
    assert !LowBit(230, 3) && LowBit(230, 2) && LowBit(230, 1) && !LowBit(230, 0);
  }

  lemma Byte80()
    ensures ByteBits(0x80) == [true, false, false, false, false, false, false, false]
  {
    assert LowBit(128, 7) && !LowBit(128, 6) && !LowBit(128, 5) && !LowBit(128, 4);
    assert !LowBit(128, 3) && !LowBit(128, 2) && !LowBit(128, 1) && !LowBit(128, 0);
  }

  /** Nine bits of code make two bytes. */
  lemma SentBytes(s: seq<byte>)
    ensures Flushed(BytesBits(s), WORD, 1) <==> s == [0xe6, 0x80]
  {
    hide BytesBits;
    TwoBytes();
    var bits, known := BytesBits(s), BytesBits([0xe6, 0x80]);
    if Flushed(bits, WORD, 1) {
      assert |s| == 2;
      assert bits[..9] == WORD;
      forall i | 0 <= i < 16 ensures bits[i] == known[i] { if i < 9 { assert bits[i] == bits[..9][i]; } }
      assert bits == known;
      SameBits(s, [0xe6, 0x80]);
    }
    assert known[..9] == WORD;
  }

  lemma SameBits(s: seq<byte>, t: seq<byte>)
    requires BytesBits(s) == BytesBits(t) && |s| == |t|
    ensures s == t
  {
    hide BytesBits;
    forall k | 0 <= k < |s| ensures s[k] == t[k] {
      forall i | 0 <= i < 8 ensures ByteBits(s[k])[i] == ByteBits(t[k])[i] {
        BytesBitsAt(s, k, i);
        BytesBitsAt(t, k, i);
      }
      ByteValue(s[k]);
      ByteValue(t[k]);
      assert ByteBits(s[k]) == ByteBits(t[k]);
    }
  }

  lemma BodyIs(body: seq<byte>)
    ensures Archive.Packs(body, TEXT, [Lit(65)]) <==> body == FILE[2..]
  {
    hide Sound, Expand, Sent, Pending, Roomy, BytesBits, Flushed;
    OneSent();
    OneParse();
    assert Archive.Header(1) == [1, 0, 0, 0];
    assert FILE[2..] == [1, 0, 0, 0] + [0xe6, 0x80];
    if |body| >= 4 {
      SentBytes(body[4..]);
      assert body == body[..4] + body[4..];
    }
  }

  /** The encoder makes of the letter A this file and no other. */
  lemma FileIs(file: seq<byte>)
    ensures Encodes(file, TEXT) <==> file == FILE
  {
    hide Parses, Archive.Packs, Crc.CrcOf, Crc.CrcJoin;
    OneParse();
    BodyCrc();
    BodyIs(FILE[2..]);
    if Encodes(file, TEXT) {
      var ts :| Parses(ts, TEXT) && Archive.Packed(file, TEXT, ts);
      OnlyParse(ts);
      BodyIs(file[2..]);
      Crc.JoinInjective(file[0], file[1], 0x3c, 0x6e);
      assert file == [file[0], file[1]] + file[2..] && FILE == [FILE[0], FILE[1]] + FILE[2..];
    }
    assert Archive.Packed(FILE, TEXT, [Lit(65)]);
  }

  /** Of that file the decoder recovers the letter, whatever its ring holds, and of the file with any other CRC nothing. */
  lemma FileRecovered(lo: byte, hi: byte, ring: Ring)
    ensures Archive.Unpacked([lo, hi] + FILE[2..], ring) == if lo == 0x3c && hi == 0x6e then Options.Some(TEXT) else Options.None
  {
    hide Archive.Unpacked, Encodes;
    FileIs(FILE);
    ShortSendable(TEXT);
    Recovers(FILE, TEXT, ring);
    if lo == 0x3c && hi == 0x6e { assert [lo, hi] + FILE[2..] == FILE; } else { OtherCrc(lo, hi, ring); }
  }

  lemma OtherCrc(lo: byte, hi: byte, ring: Ring)
    requires lo != 0x3c || hi != 0x6e
    ensures Archive.Unpacked([lo, hi] + FILE[2..], ring) == Options.None
  {
    hide Archive.Packed, Archive.Unpacked, Fits, Sound;
    OneSent();
    FewFit([Lit(65)]);
    FilePacked();
    assert FILE[..2] == [0x3c, 0x6e] && [lo, hi][0] == lo && [lo, hi][1] == hi;
    Archive.WrongCrc(FILE, TEXT, [Lit(65)], lo, hi, ring);
  }

  lemma FilePacked()
    ensures Archive.Packed(FILE, TEXT, [Lit(65)])
  {
    hide Archive.Packs, Crc.CrcOf, Crc.CrcJoin;
    BodyCrc();
    BodyIs(FILE[2..]);
  }
}
