/**
  The compressed file: two bytes of CRC, four bytes of length, and the bit stream.
 */
module Archive {
  import opened Bytes
  import opened Bits
  import opened Options
  import opened BitIo
  import opened Forest
  import opened Lzss
  import opened Stream
  import opened Crc
  import opened Positions
  import Huffman

  const SIZES := 0x1_0000_0000

  /** The length field: the low 32 bits, the lowest byte first. */
  function Header(size: nat): (h: seq<byte>)
    requires size < SIZES
    ensures |h| == 4
  {
    [size % 256, size / 0x100 % 256, size / 0x10000 % 256, size / 0x100_0000 % 256]
  }

  function SizeField(h: seq<byte>): (n: nat)
    requires |h| >= 4
    ensures n < SIZES
  {
    h[0] as int + 0x100 * h[1] as int + 0x10000 * h[2] as int + 0x100_0000 * h[3] as int
  }

  lemma SizeInverts(size: nat)
    requires size < SIZES
    ensures SizeField(Header(size)) == size
  {
    Quarter(size);
    Quarter(size / 0x100);
    Quarter(size / 0x100 / 0x100);
    assert size / 0x100 / 0x100 == size / 0x10000 && size / 0x10000 / 0x100 == size / 0x100_0000;
  }

  lemma Quarter(n: nat)
    ensures n == n % 256 + 0x100 * (n / 0x100)
  {
  }

  // ----- what the encoder writes -----

  /**
    `body` is the length and what is sent of the tokens, and the tokens stand for the text `x`.
    Of a text whose length is a multiple of 2^32 only the length field is written, and of other
    texts of more than 2^32 bytes nothing, because the encoder does not come to an end.
   */
  ghost predicate Packs(body: seq<byte>, x: seq<byte>, ts: seq<Token>) {
    && 4 <= |body| <= 2 * |x| + 5
    && (|x| % SIZES == 0 ==> body == Header(0))
    && (|x| % SIZES != 0 ==> |x| < SIZES && body[..4] == Header(|x|))
    && (|x| % SIZES != 0 ==> Sound(ts) && Expand(ts) == Blanks() + x && Sends(BytesBits(body[4..]), ts))
  }

  ghost predicate Packed(file: seq<byte>, x: seq<byte>, ts: seq<Token>) {
    |file| >= 2 && CrcJoin(file[0], file[1]) == CrcOf(file[2..]) && Packs(file[2..], x, ts)
  }

  /** Bits as bytes, the last of which is filled up with zeros. */
  function PackBits(bits: seq<bool>): (s: seq<byte>)
    ensures 8 * |s| < |bits| + 8
  {
    if bits == [] then []
    else if |bits| < 8 then [ByteOf(bits + seq(8 - |bits|, _ => false))]
    else [ByteOf(bits[..8])] + PackBits(bits[8..])
  }

  lemma OneByteBits(b: byte)
    ensures BytesBits([b]) == ByteBits(b)
  {
    assert [b] == [] + [b];
    BytesBitsSnoc([], b);
  }

  lemma {:induction false} PackedBits(bits: seq<bool>)
    ensures ZeroPadded(BytesBits(PackBits(bits)), bits)
  {
    hide ByteOf, BytesBits, ZeroPadded;
    if bits == [] {
      NoBits();
    } else if |bits| < 8 {
      LastBits(bits);
    } else {
      var b, rest := ByteOf(bits[..8]), PackBits(bits[8..]);
      PackedBits(bits[8..]);
      OneByteBits(b);
      BytesBitsConcat([b], rest);
      PaddedBehind(bits[..8], BytesBits(rest), bits[8..]);
      assert bits[..8] + bits[8..] == bits;
    }
  }

  lemma NoBits()
    ensures ZeroPadded(BytesBits([]), [])
  {
  }

  lemma LastBits(bits: seq<bool>)
    requires 0 < |bits| < 8
    ensures ZeroPadded(BytesBits(PackBits(bits)), bits)
  {
    hide ByteOf, BytesBits;
    OneByteBits(PackBits(bits)[0]);
  }

  lemma PaddedBehind(h: seq<bool>, padded: seq<bool>, bits: seq<bool>)
    requires ZeroPadded(padded, bits)
    ensures ZeroPadded(h + padded, h + bits)
  {
    assert (h + padded)[..|h + bits|] == h + padded[..|bits|];
    forall i | |h + bits| <= i < |h + padded| ensures !(h + padded)[i] { assert (h + padded)[i] == padded[i - |h|]; }
  }

  /** Every list of tokens with code words of at most 16 bits, but for a last literal, is that of some file. */
  lemma SomeFile(x: seq<byte>, ts: seq<Token>) returns (file: seq<byte>)
    requires Sound(ts) && Expand(ts) == Blanks() + x && 0 < |x| < SIZES && LastLoses(ts)
    ensures Packed(file, x, ts) && |file| <= 2 * |x| + 7
  {
    hide Sound, Expand, CrcOf, CrcJoin, CrcLow, CrcHigh, BytesBits, PackBits, Header, Sent, Coded, Roomy, Pending, Huffman.Code, After, Short,
      Whole;
    LastSize(ts);
    var kept := Kept(Sent(ts), Pending(ts));
    var bytes := PackBits(kept);
    PackedBits(kept);
    var body := Header(|x|) + bytes;
    assert body[4..] == bytes;
    var crc := CrcOf(body);
    CrcJoins(crc);
    file := [CrcLow(crc), CrcHigh(crc)] + body;
    assert file[2..] == body;
  }

  /** How much is kept of the bits of such a list. */
  lemma LastSize(ts: seq<Token>)
    requires Sound(ts) && LastLoses(ts)
    ensures Pending(ts) <= |Sent(ts)| && |Kept(Sent(ts), Pending(ts))| <= 16 * (|Expand(ts)| - (N - F)) + 5
  {
    hide Sound, Expand, Sent, Coded, Roomy, Pending, Huffman.Code, After, Short, Whole;
    var us, t := ts[..|ts| - 1], ts[|ts| - 1];
    LastToken(ts);
    WholeShort(Huffman.Code(After(us), Symbol(t)));
    LastKept(ts);
    ShortSize(us);
  }

  // ----- what the decoder makes of any file -----

  /** The window as decoding starts: blanks, and whatever was in the rest of it. */
  function Blanked(text: seq<byte>): (r: seq<byte>)
    requires |text| == TEXT_SIZE
    ensures |r| == TEXT_SIZE
  {
    Blanks() + text[N - F..]
  }

  ghost function Start(text: seq<byte>): (d: Dec)
    requires |text| == TEXT_SIZE
    ensures DecOk(d)
  {
    Dec(Huffman.InitialTree(), 0, Blanked(text), N - F, [])
  }

  /** Where decoding a body ends. */
  ghost function Final(body: seq<byte>, text: seq<byte>): Dec
    requires |body| >= 4 && |text| == TEXT_SIZE
  {
    Run(Start(text), BytesBits(body[4..]), SizeField(body))
  }

  /** How many bytes of a body have been taken: the decoder reads ahead by one to two bytes. */
  ghost function Taken(body: seq<byte>, text: seq<byte>): (n: nat)
    requires |body| >= 4 && |text| == TEXT_SIZE
    ensures n <= |body|
  {
    var n := if SizeField(body) == 0 then 4 else 4 + (Final(body, text).cur + 15) / 8;
    if n <= |body| then n else |body|
  }

  /** The text that a file stands for; none if it is cut short in front or its CRC is wrong. */
  ghost function Unpacked(file: seq<byte>, text: seq<byte>): Option<seq<byte>>
    requires |text| == TEXT_SIZE
  {
    if |file| < 6 then None
    else
      var body := file[2..];
      if CrcOf(body[..Taken(body, text)]) == CrcJoin(file[0], file[1]) then Some(Final(body, text).out) else None
  }

  // ----- the round trip -----

  lemma StartBegins(text: seq<byte>)
    requires |text| == TEXT_SIZE
    ensures Begins(Start(text))
  {
  }

  lemma BodyDecodes(body: seq<byte>, x: seq<byte>, ts: seq<Token>, text: seq<byte>)
    requires Packs(body, x, ts) && Sound(ts) && Fits(ts) && |text| == TEXT_SIZE && |x| < SIZES
    ensures Final(body, text).out == x && Taken(body, text) == |body|
  {
    hide Sound, Expand, Coded, Sent, Run, CrcOf, Header, SizeField, BytesBits, DecOk, Huffman.InitialTree, Begins, Roomy, Intact, Pending,
      Huffman.ReadsAt, Start;
    SizeInverts(|x|);
    SameSize(body, Header(|x|));
    if |x| == 0 {
      NothingToDecode(body, text);
    } else {
      var bits := BytesBits(body[4..]);
      StartBegins(text);
      FitsReads(ts, bits);
      FitsSize(ts, bits);
      DecodesTokens(ts, Start(text), bits);
      assert (Blanks() + x)[N - F..] == x;
    }
  }

  /** When every set bit arrives there is less than a byte behind the bits of the tokens. */
  lemma FitsSize(ts: seq<Token>, bits: seq<bool>)
    requires Sound(ts) && Fits(ts) && Sends(bits, ts)
    ensures |bits| < |Coded(ts)| + 8
  {
    hide Sent, Coded, Pending, Roomy, Intact;
  }

  lemma SameSize(body: seq<byte>, h: seq<byte>)
    requires |body| >= 4 && body[..4] == h
    ensures SizeField(body) == SizeField(h)
  {
    assert forall i :: 0 <= i < 4 ==> body[i] == h[i];
  }

  lemma NothingToDecode(body: seq<byte>, text: seq<byte>)
    requires |body| >= 4 && |text| == TEXT_SIZE && SizeField(body) == 0
    ensures Final(body, text).out == []
  {
  }

  /** Unpacking gives back the text, when every set bit arrives, exactly when its length fits the length field. */
  lemma RoundTrip(file: seq<byte>, x: seq<byte>, ts: seq<Token>, text: seq<byte>)
    requires Packed(file, x, ts) && Sound(ts) && Fits(ts) && |text| == TEXT_SIZE
    ensures Unpacked(file, text) == Some(x) <==> |x| < SIZES
  {
    hide CrcOf, CrcJoin, Taken, Final, Packs, Fits;
    var body := file[2..];
    assert |body| >= 4 by { PackedSize(body, x, ts); }
    if |x| < SIZES {
      BodyDecodes(body, x, ts, text);
      assert body[..|body|] == body;
    } else {
      LengthLost(body, x, ts, text);
    }
  }

  /** Of a text that is too long for the length field nothing comes back. */
  lemma LengthLost(body: seq<byte>, x: seq<byte>, ts: seq<Token>, text: seq<byte>)
    requires Packs(body, x, ts) && |text| == TEXT_SIZE && |x| >= SIZES
    ensures Final(body, text).out == [] && x != []
  {
    hide Run, BytesBits, SizeField, Header, Start, Sound, Expand, Sends;
    SizeInverts(0);
    assert body[..4] == Header(0);
    SameSize(body, Header(0));
    NothingToDecode(body, text);
  }

  lemma PackedSize(body: seq<byte>, x: seq<byte>, ts: seq<Token>)
    requires Packs(body, x, ts)
    ensures 4 <= |body| <= 2 * |x| + 5
  {
  }

  // ----- what the CRC refuses -----

  /** Nothing is unpacked unless the CRC is that of some bytes that follow it, the length field among them. */
  lemma CrcChecked(file: seq<byte>, text: seq<byte>) returns (n: nat)
    requires |text| == TEXT_SIZE && Unpacked(file, text).Some?
    ensures 4 <= n && 2 + n <= |file| && CrcOf(file[2..2 + n]) == CrcJoin(file[0], file[1])
  {
    hide CrcOf, CrcJoin, Final, SizeField;
    n := Taken(file[2..], text);
    assert file[2..][..n] == file[2..2 + n];
  }

  lemma BodySize(file: seq<byte>, x: seq<byte>, ts: seq<Token>)
    requires Packed(file, x, ts)
    ensures |file| >= 6
  {
  }

  /** With any other CRC in front nothing is unpacked of a compressed text. */
  lemma WrongCrc(file: seq<byte>, x: seq<byte>, ts: seq<Token>, lo: byte, hi: byte, text: seq<byte>)
    requires Packed(file, x, ts) && Sound(ts) && Fits(ts) && |x| < SIZES && |text| == TEXT_SIZE
    requires [lo, hi] != file[..2]
    ensures |file| >= 6 && Unpacked([lo, hi] + file[2..], text) == None
  {
    hide CrcOf, CrcJoin, Packs, Fits, Sound, Final, Taken;
    var body, bad := file[2..], [lo, hi] + file[2..];
    BodySize(file, x, ts);
    BodyDecodes(body, x, ts, text);
    assert bad[2..] == body && body[..|body|] == body;
    assert file[..2] == [file[0], file[1]];
    if CrcJoin(lo, hi) == CrcJoin(file[0], file[1]) { JoinInjective(lo, hi, file[0], file[1]); }
  }

  /** Nor when the bytes differ from it at no more than two adjacent places and the decoder takes all of them. */
  lemma BurstRefused(file: seq<byte>, x: seq<byte>, ts: seq<Token>, i: nat, bad: seq<byte>, text: seq<byte>)
    requires Packed(file, x, ts) && |text| == TEXT_SIZE && 2 <= i && i + 2 <= |file| == |bad| && bad != file
    requires forall k :: 0 <= k < |file| && k != i && k != i + 1 ==> bad[k] == file[k]
    requires |bad| >= 6 && Taken(bad[2..], text) == |bad| - 2
    ensures Unpacked(bad, text) == None
  {
    hide CrcOf, CrcJoin, Packs, Final, Taken;
    var head, tail := file[2..i], file[i + 2..];
    assert file[2..] == head + [file[i], file[i + 1]] + tail;
    assert bad[2..] == head + [bad[i], bad[i + 1]] + tail;
    BurstDetected(head, file[i], file[i + 1], bad[i], bad[i + 1], tail);
    assert bad[2..][..|bad[2..]|] == bad[2..];
  }

  // ----- when a set bit is lost -----

  /** The decoder finds every symbol at its place exactly when every set bit of the code words arrives. */
  lemma SymbolsFound(file: seq<byte>, x: seq<byte>, ts: seq<Token>, text: seq<byte>)
    requires Packed(file, x, ts) && |x| % SIZES != 0 && Sound(ts) && Roomy(ts) && |text| == TEXT_SIZE
    ensures |file| >= 6
    ensures AllDecoded(ts, Start(text), BytesBits(file[6..])) <==> Fits(ts)
  {
    hide CrcOf, CrcJoin, BytesBits, Sound, Expand, Sends, Begins, Fits, Roomy, AllDecoded, Start, Header;
    assert file[2..][4..] == file[6..];
    StartBegins(text);
    EverySymbol(ts, Start(text), BytesBits(file[6..]));
  }

  /** A literal found as another literal in its place: that byte of what is decoded is the other one. */
  lemma Altered(file: seq<byte>, x: seq<byte>, ts: seq<Token>, k: nat, text: seq<byte>)
    requires Packed(file, x, ts) && |x| % SIZES != 0 && |text| == TEXT_SIZE && k < |ts| && Sound(ts[..k])
    requires Huffman.ReadsAt(BytesBits(file[6..]), 0, Coded(ts[..k]))
    requires var d := At(Start(text), BytesBits(file[6..]), k);
      var c := Huffman.DecodeSymbol(d.tree, BytesBits(file[6..]), d.cur).0;
      ts[k].Lit? && c < 256 && c != ts[k].c
    ensures var (y, i) := (Final(file[2..], text).out, |Expand(ts[..k])| - (N - F)); i < |x| && i < |y| && y[i] != x[i]
    ensures Unpacked(file, text) != Some(x)
  {
    hide CrcOf, CrcJoin, BytesBits, Sound, Expand, Sends, Begins, Run, At, Header, SizeField, Huffman.DecodeSymbol, Coded, Huffman.ReadsAt, Start;
    var body := file[2..];
    assert body[4..] == file[6..];
    SizeInverts(|x|);
    SameSize(body, Header(|x|));
    StartBegins(text);
    LiteralAlters(ts, k, Start(text), BytesBits(body[4..]));
    assert (Blanks() + x)[N - F..] == x;
  }

  /** A last literal that loses a set bit in the register, the words before it having at most 16: the CRC is right, and
      what is unpacked is not the text but differs from it in its last byte, or goes on in place of it. */
  lemma LastAltered(file: seq<byte>, x: seq<byte>, ts: seq<Token>, text: seq<byte>)
    requires Packed(file, x, ts) && |x| % SIZES != 0 && |text| == TEXT_SIZE && Sound(ts) && LastLoses(ts)
    ensures Unpacked(file, text).Some?
    ensures var y := Unpacked(file, text).value; x != [] && y != x && x[..|x| - 1] < y
  {
    hide CrcOf, CrcJoin, BytesBits, Sound, Expand, Sends, Begins, Run, Header, SizeField, Start, LastLoses;
    var body := file[2..];
    SizeInverts(|x|);
    SameSize(body, Header(|x|));
    StartBegins(text);
    LastLost(ts, Start(text), BytesBits(body[4..]));
    assert (Blanks() + x)[N - F..] == x;
    BitsTaken(body, text);
    assert body[..|body|] == body;
  }

  /** A decoder that has read to within 15 bits of the end has taken every byte. */
  lemma BitsTaken(body: seq<byte>, text: seq<byte>)
    requires |body| >= 4 && |text| == TEXT_SIZE && SizeField(body) != 0
    requires |BytesBits(body[4..])| <= Final(body, text).cur + 15
    ensures Taken(body, text) == |body|
  {
    hide Final, SizeField;
  }

  /** Whatever the bytes: what is unpacked has the length the file says, or up to 59 more. */
  lemma UnpackedLength(file: seq<byte>, text: seq<byte>)
    requires |text| == TEXT_SIZE && Unpacked(file, text).Some?
    ensures SizeField(file[2..]) <= |Unpacked(file, text).value| < SizeField(file[2..]) + F
  {
    hide CrcOf, CrcJoin, Run, BytesBits, SizeField;
    RunLength(Start(text), BytesBits(file[6..]), SizeField(file[2..]));
  }
}
