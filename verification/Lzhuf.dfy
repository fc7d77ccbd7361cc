/**
  The LZHUF codec: compression and recovery of whole buffers.  The statics of the codec are the
  fields of one object; nothing is assumed about what earlier calls have left in them.
 */
module Lzhuf {
  import opened Bytes
  import opened Buffers
  import opened BitIo
  import opened Forest
  import opened ForestOps
  import opened Window
  import opened Lzss
  import opened Sliding
  import opened Opening
  import opened Stream
  import opened Symbols
  import opened Bits
  import HuffTree
  import opened Positions
  import Archive
  import Crc
  import Huffman
  import Options

  /** What holds at the head of the coding loop: ring and index are those of the text up to `rv`. */
  ghost predicate WindowOk(text: seq<byte>, a: Links, trees: seq<BT>, v: seq<byte>, rv: nat, len: nat) {
    match a case Links(_, _, _) =>
      Holds(text, v, rv, len) && Indexed(text, a, trees, rv % N, N - F, Reach(rv) + 1)
      && Fronts(text, trees, v, rv % N, rv - (N - F)) && Lonely(text, trees, v, rv, rv)
  }

  class Codec {
    const index: Index
    const sym: SymbolCoder

    ghost predicate Allocated() {
      index.Allocated() && sym.Allocated()
      && {index.lson, index.rson, index.dad} !! {sym.coder.freq, sym.coder.son, sym.coder.prnt}
    }

    constructor ()
      ensures Allocated()
    {
      index := new Index();
      sym := new SymbolCoder();
    }

    /** The window as the text stands at `rv`. */
    ghost predicate WindowAt(v: seq<byte>, rv: nat, len: nat)
      reads index, index.textBuf, index.lson, index.rson, index.dad
    {
      index.Allocated() && WindowOk(index.textBuf[..], index.Arrays(), index.trees, v, rv, len)
    }

    /** The window, and the match found for the place at `rv`. */
    ghost predicate Ready(v: seq<byte>, rv: nat, len: nat)
      reads index, index.textBuf, index.lson, index.rson, index.dad
    {
      && WindowAt(v, rv, len)
      && Found(index.textBuf[..], rv % N, index.matchLength, index.matchPosition, Reach(rv))
      && FrontsFound(index.textBuf[..], v, rv, index.matchLength)
      && (Blind(v, rv) ==> index.matchLength < F)
    }

    /** The window without its last place, before the next one at `rv` is entered. */
    ghost predicate Dropped(v: seq<byte>, rv: nat)
      requires rv > 0
      reads index, index.textBuf, index.lson, index.rson, index.dad
    {
      && index.Allocated() && Lonely(index.textBuf[..], index.trees, v, rv - 1, rv)
      && Fronts(index.textBuf[..], index.trees, v, (rv - 1) % N, rv - (N - F))
      && Indexed(index.textBuf[..], index.Arrays(), index.trees, (rv - 1) % N, N - F - 1, Reach(rv))
    }

    /** Take the place at the tail of the window out of the index. */
    method DropTail(s: int, ghost v: seq<byte>, ghost rv: nat, ghost len: nat)
      requires WindowAt(v, rv, len) && s == (rv + F) % N
      modifies index.lson, index.rson, index.dad, index`trees
      ensures Holds(index.textBuf[..], v, rv, len) && Dropped(v, rv + 1)
    {
      hide Holds, Indexed, Found, ForestOk, Lonely, Fronts;
      ghost var text, a, ts := index.textBuf[..], index.Arrays(), index.trees;
      HoldsFrom(text, v, rv, len);
      TailBack(rv);
      IndexedForest(text, a, ts, rv % N, N - F, Reach(rv) + 1);
      index.DeleteNode(s);
      DeletedElements(text, a, ts, rv % N, s, N - F, Reach(rv) + 1, index.trees);
      DropLonely(text, ts, index.trees, v, rv, s);
      DropFronts(text, ts, index.trees, v, rv, s);
      DeleteIndexed(text, a, index.Arrays(), ts, index.trees, rv % N, s, N - F, Reach(rv) + 1);
    }

    /** Enter the next place into the index and look for a match there. */
    method EnterNext(r: int, ghost v: seq<byte>, ghost rv: nat, ghost len: nat)
      requires Holds(index.textBuf[..], v, rv + 1, len) && (len < F ==> rv + 1 + len == |v|) && N - F <= rv
      requires Dropped(v, rv + 1) && r == (rv + 1) % N
      modifies index.lson, index.rson, index.dad, index`trees, index`matchPosition, index`matchLength
      ensures WindowAt(v, rv + 1, len) && Ready(v, rv + 1, len)
    {
      hide Holds, Indexed, Found, ForestOk, Search, InsertT, Lonely, Blind, Fronts, FrontsFound;
      ghost var text, a, ts := index.textBuf[..], index.Arrays(), index.trees;
      ghost var known := Reach(rv + 1);
      IndexedForest(text, a, ts, rv % N, N - F - 1, known);
      NextIs(rv);
      FreshPosition(text, a, ts, rv % N, N - F - 1, known);
      AllPresent(text, a, ts, rv % N, N - F - 1, known);
      SearchFound(text, a, ts, rv % N, N - F - 1, known, known, index.matchPosition);
      SearchBlind(text, a, ts, v, rv, known, len, index.matchPosition);
      SearchFronts(text, a, ts, v, rv, known, index.matchPosition);
      InsertFronts(text, a, ts, v, rv, known);
      InsertLonely(text, a, ts, v, rv, known, len);
      index.InsertNode(r);
      InsertIndexed(text, a, index.Arrays(), ts, rv % N, N - F - 1, known);
    }

    /** One more byte has been read: put it at the tail and move on by one. */
    method SlideIn(s: int, r: int, c: byte, ghost v: seq<byte>, ghost rv: nat) returns (s': int, r': int)
      requires WindowAt(v, rv, F) && s == (rv + F) % N && r == rv % N && N - F <= rv && rv + F < |v| && c == v[rv + F]
      modifies index, index.textBuf, index.lson, index.rson, index.dad
      ensures WindowAt(v, rv + 1, F) && Ready(v, rv + 1, F) && s' == (rv + 1 + F) % N && r' == (rv + 1) % N
    {
      hide WindowOk, Ready, Holds, Dropped, WindowAt;
      Wrap(rv);
      Wrap(rv + F);
      DropTail(s, v, rv, F);
      PutByte(s, c, v, rv);
      s' := (s + 1) % N;
      r' := (r + 1) % N;
      EnterNext(r', v, rv, F);
    }

    /** Write a byte into the ring, and into its mirror. */
    method PutByte(s: int, c: byte, ghost v: seq<byte>, ghost rv: nat)
      requires Holds(index.textBuf[..], v, rv, F) && Dropped(v, rv + 1) && N - F <= rv
      requires s == (rv + F) % N && rv + F < |v| && c == v[rv + F]
      modifies index.textBuf
      ensures Holds(index.textBuf[..], v, rv + 1, F) && Dropped(v, rv + 1)
    {
      hide Holds, Indexed, Put, Lonely, Fronts;
      ghost var text, a, ts := index.textBuf[..], index.Arrays(), index.trees;
      PutHolds(text, v, rv, c);
      PutLonely(text, a, ts, v, rv, Reach(rv + 1), s, c);
      PutFronts(text, a, ts, v, rv, Reach(rv + 1), s, c);
      PutIndexed(text, a, ts, rv % N, N - F - 1, Reach(rv + 1), s, c);
      index.textBuf[s] := c;
      if s < F - 1 {
        index.textBuf[s + N] := c;
      }
      PutIs(text, s, c, index.textBuf[..]);
    }

    /** No byte is left to read: move on by one, and the look-ahead is one shorter. */
    method SlideOut(s: int, r: int, len: nat, ghost v: seq<byte>, ghost rv: nat) returns (s': int, r': int, len': nat)
      requires WindowAt(v, rv, len) && s == (rv + F) % N && r == rv % N && len > 0 && rv + len == |v| && N - F <= rv
      modifies index, index.lson, index.rson, index.dad
      ensures s' == (rv + 1 + F) % N && r' == (rv + 1) % N && len' == len - 1
      ensures len' > 0 ==> WindowAt(v, rv + 1, len') && Ready(v, rv + 1, len')
    {
      hide Holds, Dropped, Ready, WindowOk, WindowAt;
      Wrap(rv);
      Wrap(rv + F);
      DropTail(s, v, rv, len);
      DropHolds(index.textBuf[..], v, rv, len);
      s' := (s + 1) % N;
      r' := (r + 1) % N;
      len' := len - 1;
      if len' != 0 {
        EnterNext(r', v, rv, len');
      }
    }

    /** Put the last F blanks into the index, from the back. */
    method EnterBlanks(r: int)
      requires index.Valid() && index.trees == seq(256, _ => Leaf) && r == N - F
      modifies index, index.lson, index.rson, index.dad
      ensures index.Valid() && Sown(index.textBuf[..], index.trees, N - 2 * F, N - F) && index.textBuf[..] == old(index.textBuf[..])
    {
      hide ForestOk, InsertT, Sown, Search;
      ghost var text := index.textBuf[..];
      SownNone(text, index.trees, r);
      for i := 1 to F + 1
        invariant index.Allocated() && ForestOk(text, index.Arrays(), index.trees)
        invariant Sown(text, index.trees, r - i + 1, r) && index.textBuf[..] == text
      {
        SowOne(text, index.Arrays(), index.trees, r - i, r);
        index.InsertNode(r - i);
      }
    }

    /**
      The last F blanks, and then the first place of the text.  Of the blanks every one is covered
      exactly if the first key is clean.
     */
    method EnterStart(r: int, ghost v: seq<byte>, ghost len: nat)
      requires index.Allocated() && r == N - F && Holds(index.textBuf[..], v, N - F, len) && len > 0
      requires N - F + len <= |v| && (len < F ==> N - F + len == |v|) && forall i :: 0 <= i < N - F ==> v[i] == 32
      requires index.Valid() && index.trees == seq(256, _ => Leaf)
      modifies index, index.lson, index.rson, index.dad
      ensures Ready(v, N - F, len) && index.textBuf[..] == old(index.textBuf[..])
      ensures |index.trees| == 256 && index.textBuf.Length == TEXT_SIZE
      ensures Covers(index.textBuf[..], index.trees, r, F + 1) <==> CleanKey(index.textBuf[..])
    {
      hide Holds, Indexed, Found, ForestOk, Search, InsertT, Sown, Lonely, Covers, CleanKey, BlankKey, Primed, Present, Fronts, FrontsFound;
      EnterBlanks(r);
      ghost var text, a, ts := index.textBuf[..], index.Arrays(), index.trees;
      StartClean(text, v, len);
      StartCovers(text, a, ts);
      SownIndexed(text, a, ts);
      FreshPosition(text, a, ts, r - 1, N - F - 1, 0);
      FirstLonely(text, a, ts, v, len);
      FirstFronts(text, a, ts, v, len);
      FirstFrontsFound(text, a, ts, v, index.matchPosition);
      BlanksPresent(text, ts);
      SearchFound(text, a, ts, r - 1, N - F - 1, 0, F, index.matchPosition);
      index.InsertNode(r);
      FirstIndexed(text, a, index.Arrays(), ts);
      StartReady(text, index.Arrays(), index.trees, v, index.matchLength, index.matchPosition);
    }

    /** Blanks in front, the first bytes of the text behind them. */
    method Prime(inb: Buffer) returns (len: nat)
      requires Allocated() && inb.Valid() && inb.i == 0 && 0 < |inb.Contents()| < WORDS
      modifies index, index.textBuf, index.lson, index.rson, index.dad, inb`i
      ensures len == Ahead(Blanks() + inb.Contents(), N - F) && inb.i == len
      ensures Ready(Blanks() + inb.Contents(), N - F, len)
    {
      hide Indexed, Found, ForestOk, Lonely, Blind, Covers, CleanKey, Holds, Fronts, FrontsFound;
      index.InitTree();
      ghost var text0, ts := index.textBuf[..], index.trees;
      var r := N - F;
      for i := 0 to r
        invariant forall k :: 0 <= k < i ==> index.textBuf[k] == 32
        modifies index.textBuf
      {
        index.textBuf[i] := 32;
      }
      len := 0;
      ghost var x := inb.Contents();
      while len < F
        invariant len <= F && len == inb.i <= |x|
        invariant forall k :: 0 <= k < r ==> index.textBuf[k] == 32
        invariant forall k :: 0 <= k < len ==> index.textBuf[r + k] == x[k]
        modifies index.textBuf, inb`i
      {
        var c := inb.IterChar();
        if c.Eof? { break; }
        index.textBuf[r + len] := c.c;
        len := len + 1;
      }
      StartHolds(index.textBuf[..], x, len);
      EmptyIndex(text0, index.textBuf[..], index.Arrays(), ts);
      EnterStart(r, Blanks() + x, len);
    }

    // ----- compression -----

    /** What has been written after the tokens `ts`: no more than two bytes for each byte of text, and, while the
        shifts are defined, the bits that leave the register. */
    ghost predicate Emitted(out: Buffer, head: seq<byte>, ts: seq<Token>)
      reads sym.io, out, sym.coder.freq, sym.coder.son, sym.coder.prnt
    {
      && sym.Allocated() && out.Valid() && head <= out.Contents() && sym.io.crc == Crc.CrcOf(out.Contents())
      && Sound(ts) && sym.coder.View() == After(ts)
      && |out.Contents()| <= |head| + 2 * (|Expand(ts)| - (N - F))
      && (Roomy(ts) ==> sym.io.Tidy() && sym.io.putlen == Pending(ts) && sym.io.Written(out) == BytesBits(head) + Sent(ts))
    }

    method PutSymbol(c: int, out: Buffer, ghost head: seq<byte>, ghost ts: seq<Token>) returns (ok: bool)
      requires Emitted(out, head, ts) && HuffTree.IsSymbol(c)
      modifies sym.coder.freq, sym.coder.son, sym.coder.prnt, sym.io, out
      ensures ok && out.Valid() && out.i == old(out.i) && head <= out.Contents() && sym.io.crc == Crc.CrcOf(out.Contents())
      ensures sym.coder.View() == Huffman.Update(After(ts), c)
      ensures |out.Contents()| <= |head| + 2 * (|Expand(ts)| - (N - F)) + 2
      ensures Roomy(ts) && Pending(ts) <= 16 ==> var word := Huffman.Code(After(ts), c);
        sym.io.Tidy() && sym.io.putlen == Waits(Pending(ts), |word|)
        && sym.io.Written(out) == BytesBits(head) + Sent(ts) + Cut(word)
    {
      hide Huffman.Update, Huffman.Code, Crc.CrcOf, After, Sent, Sound, Roomy, Pending, BytesBits, Expand, Waits, Cut, Clean;
      ok := sym.EncodeChar(c, out);
    }

    method PutLiteral(c: byte, out: Buffer, ghost head: seq<byte>, ghost ts: seq<Token>) returns (ok: bool)
      requires Emitted(out, head, ts) && TokenOk(Expand(ts), Lit(c))
      modifies sym.coder.freq, sym.coder.son, sym.coder.prnt, sym.io, out
      ensures ok && out.i == old(out.i) && Emitted(out, head, ts + [Lit(c)])
    {
      hide Sound, Expand, After, Coded, Sent, Roomy, Intact, Pending, Huffman.Update, Huffman.Code, Crc.CrcOf, BytesBits, Waits, Cut,
        Clean, Whole;
      Snoc(ts, Lit(c));
      TextGrows(ts, Lit(c));
      ok := PutSymbol(c, out, head, ts);
      Associate(BytesBits(head), Sent(ts), SentToken(After(ts), Lit(c)));
    }

    method PutCopy(len: nat, pos: nat, out: Buffer, ghost head: seq<byte>, ghost ts: seq<Token>) returns (ok: bool)
      requires Emitted(out, head, ts) && TokenOk(Expand(ts), Copy(len, pos))
      modifies sym.coder.freq, sym.coder.son, sym.coder.prnt, sym.io, out
      ensures ok && out.i == old(out.i) && Emitted(out, head, ts + [Copy(len, pos)])
    {
      hide Sound, Expand, After, Coded, Sent, Roomy, Intact, Pending, Huffman.Update, Huffman.Code, Crc.CrcOf, BytesBits, Waits, Cut,
        Clean, PLen, PositionBits, Whole;
      Snoc(ts, Copy(len, pos));
      TextGrows(ts, Copy(len, pos));
      ok := PutSymbol(255 - THRESHOLD + len, out, head, ts);
      if !ok { return; }
      sym.EncodePosition(pos, out);
      CopyWritten(BytesBits(head), ts, Copy(len, pos));
    }

    /** Write the next token: a copy of the match found, or a literal. */
    method PutToken(r: int, len: nat, out: Buffer, ghost head: seq<byte>, ghost ts: seq<Token>, ghost v: seq<byte>)
      returns (ok: bool, ghost t: Token)
      requires Allocated() && Emitted(out, head, ts) && Expand(ts) < v
      requires Ready(v, |Expand(ts)|, len) && len == Ahead(v, |Expand(ts)|) && r == |Expand(ts)| % N
      modifies index`matchLength, sym.coder.freq, sym.coder.son, sym.coder.prnt, sym.io, out
      ensures ok && out.i == old(out.i)
      ensures TokenOk(Expand(ts), t) && Emitted(out, head, ts + [t])
      ensures 1 <= index.matchLength <= len && Extend(Expand(ts), t) == v[..|Expand(ts)| + index.matchLength]
      ensures GreedyToken(v, |Expand(ts)|, t)
    {
      hide Sound, Expand, Extend, TokenOk, WindowOk, Found, GreedyToken, After, Coded, Sent, Roomy, Pending, BytesBits, Crc.CrcOf;
      ChosenToken(index.textBuf[..], index.Arrays(), index.trees, v, |Expand(ts)|, len, index.matchLength, index.matchPosition);
      assert v[..|Expand(ts)|] == Expand(ts);
      if index.matchLength > len {
        index.matchLength := len;
      }
      if index.matchLength <= THRESHOLD {
        index.matchLength := 1;
        t := Lit(index.textBuf[r]);
        ok := PutLiteral(index.textBuf[r], out, head, ts);
      } else {
        t := Copy(index.matchLength, index.matchPosition);
        ok := PutCopy(index.matchLength, index.matchPosition, out, head, ts);
      }
    }

    /** Move on while there are bytes to read, by at most `n` places. */
    method SlideReading(inb: Buffer, s: int, r: int, len: nat, n: nat, ghost rv: nat) returns (i: nat, s': int, r': int)
      requires Allocated() && inb.Valid() && |inb.Contents()| < WORDS && N - F <= rv && s == (rv + F) % N && r == rv % N
      requires var v := Blanks() + inb.Contents();
        WindowAt(v, rv, len) && 0 < len == Ahead(v, rv) && inb.i == rv + len - (N - F)
      modifies index, index.textBuf, index.lson, index.rson, index.dad, inb`i
      ensures i <= n && s' == (rv + i + F) % N && r' == (rv + i) % N
      ensures var v := Blanks() + inb.Contents();
        && WindowAt(v, rv + i, len) && (i > 0 ==> Ready(v, rv + i, len))
        && len == Ahead(v, rv + i) && inb.i == rv + i + len - (N - F) && (i < n ==> inb.i == |inb.Contents()|)
    {
      hide WindowOk, WindowAt, Found, Ready, Blind;
      ghost var v := Blanks() + inb.Contents();
      s', r', i := s, r, 0;
      while i < n
        invariant 0 <= i <= n && s' == (rv + i + F) % N && r' == (rv + i) % N
        invariant inb.i == rv + i + len - (N - F) <= |inb.Contents()| && len == Ahead(v, rv + i)
        invariant WindowAt(v, rv + i, len) && (i > 0 ==> Ready(v, rv + i, len))
      {
        var c := inb.IterChar();
        if c.Eof? { break; }
        s', r' := SlideIn(s', r', c.c, v, rv + i);
        i := i + 1;
      }
    }

    /** Move on by `n` places: read as many bytes, or shorten the look-ahead at the end. */
    method Slide(inb: Buffer, s: int, r: int, len: nat, n: nat, ghost rv: nat) returns (s': int, r': int, len': nat)
      requires Allocated() && inb.Valid() && |inb.Contents()| < WORDS && 1 <= n <= len && N - F <= rv && s == (rv + F) % N && r == rv % N
      requires var v := Blanks() + inb.Contents();
        WindowAt(v, rv, len) && len == Ahead(v, rv) && inb.i == rv + len - (N - F)
      modifies index, index.textBuf, index.lson, index.rson, index.dad, inb`i
      ensures s' == (rv + n + F) % N && r' == (rv + n) % N
      ensures var v := Blanks() + inb.Contents();
        len' == Ahead(v, rv + n) && inb.i == rv + n + len' - (N - F) && (len' > 0 ==> Ready(v, rv + n, len'))
    {
      hide WindowOk, WindowAt, Found, Ready, Blind;
      ghost var v := Blanks() + inb.Contents();
      len' := len;
      var i;
      i, s', r' := SlideReading(inb, s, r, len, n, rv);
      while i < n
        invariant 0 <= i <= n && s' == (rv + i + F) % N && r' == (rv + i) % N
        invariant inb.i == rv + i + len' - (N - F) <= |inb.Contents()| && len' == Ahead(v, rv + i) && n - i <= len'
        invariant len' > 0 ==> WindowAt(v, rv + i, len') && (i > 0 ==> Ready(v, rv + i, len'))
        invariant i < n ==> inb.i == |inb.Contents()|
      {
        s', r', len' := SlideOut(s', r', len', v, rv + i);
        i := i + 1;
      }
    }

    method PutHeader(size: nat, out: Buffer)
      requires out.Valid() && out.Contents() == [] && sym.io.crc == 0 && size < Archive.SIZES
      modifies sym.io`crc, out
      ensures out.Valid() && out.i == old(out.i) && out.Contents() == Archive.Header(size)
      ensures sym.io.crc == Crc.CrcOf(out.Contents())
    {
      hide Crc.CrcOf, LowByte, Archive.Header;
      NoCrc();
      HeaderIs(size);
      sym.io.CrcPutc(size % 256, out);
      sym.io.CrcPutc(size / 0x100 % 256, out);
      sym.io.CrcPutc(size / 0x10000 % 256, out);
      sym.io.CrcPutc(size / 0x100_0000 % 256, out);
    }

    /** The head of the coding loop: what has been written stands for the text up to the window's place in it. */
    ghost predicate Coding(inb: Buffer, out: Buffer, head: seq<byte>, ts: seq<Token>, s: int, r: int, len: nat)
      reads index, index.textBuf, index.lson, index.rson, index.dad, sym.coder.freq, sym.coder.son, sym.coder.prnt
      reads sym.io, inb, out
    {
      && Allocated() && inb.Valid() && |inb.Contents()| < WORDS && inb != out && Emitted(out, head, ts)
      && var v, rv := Blanks() + inb.Contents(), |Expand(ts)|;
        && Expand(ts) <= v && Greedy(v, ts)
        && s == (rv + F) % N && r == rv % N && len == Ahead(v, rv) && inb.i == rv + len - (N - F)
        && (len > 0 ==> Ready(v, rv, len))
    }

    method EncodeNext(inb: Buffer, out: Buffer, s: int, r: int, len: nat, ghost head: seq<byte>, ghost ts: seq<Token>)
      returns (ok: bool, ghost t: Token, s': int, r': int, len': nat)
      requires Coding(inb, out, head, ts, s, r, len) && len > 0
      modifies index, index.textBuf, index.lson, index.rson, index.dad
      modifies sym.coder.freq, sym.coder.son, sym.coder.prnt, sym.io, out, inb`i
      ensures ok && out.i == old(out.i) && Coding(inb, out, head, ts + [t], s', r', len')
      ensures |Expand(ts)| < |Expand(ts + [t])|
    {
      hide Sound, Expand, Extend, TokenOk, WindowOk, Found, GreedyToken, After, Coded, Sent, Roomy, Pending, BytesBits, Crc.CrcOf, Greedy,
        Blind;
      ghost var v, rv := Blanks() + inb.Contents(), |Expand(ts)|;
      ok, t := PutToken(r, len, out, head, ts, v);
      s', r', len' := s, r, len;
      if !ok { return; }
      GreedySnoc(v, ts, t);
      s', r', len' := Slide(inb, s, r, len, index.matchLength, rv);
    }

    /** The tokens are a greedy parse of the whole text. */
    ghost predicate Parsed(inb: Buffer, ts: seq<Token>)
      reads inb
    {
      inb.Valid() && Sound(ts) && var v := Blanks() + inb.Contents(); Expand(ts) == v && Greedy(v, ts)
    }

    /** The coding loop, from the first place of the text to its end. */
    method EncodeText(inb: Buffer, out: Buffer, len0: nat, ghost head: seq<byte>) returns (ok: bool, ghost ts: seq<Token>)
      requires Coding(inb, out, head, [], 0, N - F, len0) && len0 > 0
      modifies index, index.textBuf, index.lson, index.rson, index.dad
      modifies sym.coder.freq, sym.coder.son, sym.coder.prnt, sym.io, out, inb`i
      ensures ok && out.i == old(out.i) && Emitted(out, head, ts) && Parsed(inb, ts)
    {
      hide Sound, Expand, WindowOk, Found, After, Coded, Sent, Roomy, Pending, BytesBits, Crc.CrcOf, Greedy;
      var s, r, len := 0, N - F, len0;
      ts := [];
      while true
        invariant out.i == old(out.i) && Coding(inb, out, head, ts, s, r, len) && len > 0
        decreases N - F + |inb.Contents()| - |Expand(ts)|
      {
        ghost var t;
        ok, t, s, r, len := EncodeNext(inb, out, s, r, len, head, ts);
        if !ok { return; }
        ts := ts + [t];
        if len == 0 { break; }
      }
    }

    /** Everything before the coding loop, when there is something to code. */
    method Begin(inb: Buffer, out: Buffer) returns (len: nat)
      requires Allocated() && inb.Valid() && inb != out && 0 < |inb.Contents()| < WORDS
      requires out.Valid() && sym.io.crc == Crc.CrcOf(out.Contents()) && sym.io.putbuf == 0 && sym.io.putlen == 0
      modifies index, index.textBuf, index.lson, index.rson, index.dad
      modifies sym.coder.freq, sym.coder.son, sym.coder.prnt, inb`i
      ensures len > 0 && Coding(inb, out, out.Contents(), [], 0, N - F, len)
    {
      hide WindowOk, Found, BytesBits, Crc.CrcOf, Ready, Greedy, Sound, Expand, After, Sent, Roomy, Pending, Clean, Huffman.Inv;
      inb.Rewind();
      sym.coder.StartHuff();
      NoTokens();
      StartEmitted(out.Contents());
      len := Prime(inb);
      GreedyNone(Blanks() + inb.Contents());
    }

    /** Everything behind the length field. */
    method EncodeBody(inb: Buffer, out: Buffer) returns (ok: bool, ghost ts: seq<Token>)
      requires Allocated() && inb.Valid() && inb != out && 0 < |inb.Contents()| < Archive.SIZES
      requires out.Valid() && out.Contents() == Archive.Header(|inb.Contents()|)
      requires sym.io.crc == Crc.CrcOf(out.Contents()) && sym.io.putbuf == 0 && sym.io.putlen == 0
      modifies index, index.textBuf, index.lson, index.rson, index.dad
      modifies sym.coder.freq, sym.coder.son, sym.coder.prnt, sym.io, inb`i, out
      ensures ok && out.Valid() && out.i == old(out.i) && sym.io.crc == Crc.CrcOf(out.Contents())
      ensures Sound(ts) && Greedy(Blanks() + inb.Contents(), ts) && |ts| <= |inb.Contents()|
      ensures Archive.Packs(out.Contents(), inb.Contents(), ts)
    {
      hide Sound, Expand, WindowOk, Found, After, Coded, Sent, Roomy, Pending, BytesBits, Crc.CrcOf, Greedy, Archive.Header, Archive.Packs,
        Flushed;
      ghost var head := out.Contents();
      var len := Begin(inb, out);
      ok, ts := EncodeText(inb, out, len, head);
      if !ok { return; }
      ghost var written := sym.io.Written(out);
      sym.io.EncodeEnd(out);
      FinishedText(out.Contents(), head, written, inb.Contents(), ts);
    }

    /**
      Compress a buffer: the length field, and the bits of tokens that stand for its text.  A longer
      text than 2^32 bytes, if its length is no multiple of that, is read for ever (see
      Buffers.ReadToEnd): `ends` is false then.
     */
    method Encode(inb: Buffer) returns (ends: bool, r: Buffer?, ghost ts: seq<Token>)
      requires Allocated() && inb.Valid()
      modifies index, index.textBuf, index.lson, index.rson, index.dad
      modifies sym.coder.freq, sym.coder.son, sym.coder.prnt, sym.io, inb`i
      ensures ends <==> |inb.Contents()| < Archive.SIZES || |inb.Contents()| % Archive.SIZES == 0
      ensures ends ==> r != null && fresh(r) && r.Valid() && r.i == 0 && sym.io.crc == Crc.CrcOf(r.Contents())
      ensures ends ==> Sound(ts) && |ts| <= |inb.Contents()| && Archive.Packs(r.Contents(), inb.Contents(), ts)
      ensures |inb.Contents()| % Archive.SIZES == 0 ==> ts == []
      ensures |inb.Contents()| < Archive.SIZES ==> Sound(ts) && Greedy(Blanks() + inb.Contents(), ts)
    {
      hide Sound, Expand, Crc.CrcOf, Greedy, Archive.Header, Archive.Packs;
      sym.io.crc := 0;
      sym.io.putbuf := 0;
      sym.io.putlen := 0;
      var size := inb.dlen % Archive.SIZES;
      var out := new Buffer();
      PutHeader(size, out);
      if size == 0 {
        NoTokens();
        GreedyNone(Blanks() + inb.Contents());
        NothingPacked(inb.Contents());
        return true, out, [];
      }
      if inb.dlen >= Archive.SIZES { return false, null, []; }
      var ok;
      ok, ts := EncodeBody(inb, out);
      if !ok { return true, null, ts; }
      return true, out, ts;
    }

    /**
      Compress a buffer and put the CRC of the result in front of it.  The loop that copies the
      result does not come to an end when that has 2^32 bytes or more.
     */
    method Version1Encode(inb: Buffer) returns (ends: bool, r: Buffer?, ghost body: seq<byte>, ghost ts: seq<Token>)
      requires Allocated() && inb.Valid()
      modifies index, index.textBuf, index.lson, index.rson, index.dad
      modifies sym.coder.freq, sym.coder.son, sym.coder.prnt, sym.io, inb`i
      ensures var n := |inb.Contents()|;
        && (ends <==> n % Archive.SIZES == 0 || (n < Archive.SIZES && |body| < Archive.SIZES))
        && (n < Archive.SIZES || n % Archive.SIZES == 0 ==> Sound(ts) && |ts| <= n && Archive.Packs(body, inb.Contents(), ts))
        && (n < Archive.SIZES ==> Greedy(Blanks() + inb.Contents(), ts))
        && (n % Archive.SIZES == 0 ==> ts == [])
      ensures ends ==> r != null && fresh(r) && r.Valid() && r.i == 0 && |r.Contents()| == |body| + 2
      ensures ends ==> Archive.Packed(r.Contents(), inb.Contents(), ts)
    {
      hide Sound, Expand, Crc.CrcOf, Crc.CrcLow, Crc.CrcHigh, Crc.CrcJoin, Greedy, Archive.Packs;
      var tmp;
      ends, tmp, ts := Encode(inb);
      body := [];
      if !ends { return false, null, body, ts; }
      if tmp == null { return true, null, body, ts; }
      body := tmp.Contents();
      HeaderOnly(body, inb.Contents(), ts);
      var out := new Buffer();
      var crc := sym.io.crc;
      out.AddChar(Crc.CrcLow(crc));
      out.AddChar(Crc.CrcHigh(crc));
      ghost var head := out.Contents();
      Crc.CrcJoins(crc);
      if tmp.dlen >= Archive.SIZES { return false, null, body, ts; }
      out.AddBuf(tmp);
      PackedFile(out.Contents(), head, body, inb.Contents(), ts, crc);
      r := out;
    }

    // ----- recovery -----

    /** The state of the decoder is `d`. */
    ghost predicate Decoding(inb: Buffer, out: Buffer, d: Dec, r: int, count: nat)
      reads index, index.textBuf, sym.coder.freq, sym.coder.son, sym.coder.prnt, sym.io, inb, out
    {
      match d case Dec(tree, cur, text, r0, o) =>
        && Allocated() && sym.io.Reading(inb) && out.Valid() && out != inb && DecOk(d)
        && sym.coder.View() == tree && sym.io.Cursor() == cur && index.textBuf[..] == text
        && r == r0 && out.Contents() == o && count == |o|
        && (count > 0 ==> 8 <= sym.io.getlen < 16)
    }

    /** Write one byte to the output and to its place in the window. */
    method PutOut(inb: Buffer, out: Buffer, c: byte, r: int, count: nat, ghost d: Dec) returns (r': int, count': nat)
      requires Decoding(inb, out, d, r, count) && 8 <= sym.io.getlen < 16
      modifies index.textBuf, out
      ensures out.i == old(out.i) && Decoding(inb, out, Emit(d, c), r', count')
    {
      hide Huffman.Inv, Crc.CrcOf, Waiting, BytesBits;
      out.AddChar(c);
      index.textBuf[r] := c;
      r' := (r + 1) % N;
      count' := count + 1;
    }

    /** Copy `j` bytes of the window to the output and to its place in the window. */
    method CopyOut(inb: Buffer, out: Buffer, i: int, j: nat, r: int, count: nat, ghost d: Dec) returns (r': int, count': nat)
      requires Decoding(inb, out, d, r, count) && IsPos(i) && 8 <= sym.io.getlen < 16
      modifies index.textBuf, out
      ensures out.i == old(out.i) && Decoding(inb, out, CopyBytes(d, i, j), r', count')
    {
      hide Huffman.Inv, Crc.CrcOf, Waiting, BytesBits, Emit;
      r', count' := r, count;
      for k := 0 to j
        invariant out.i == old(out.i) && Decoding(inb, out, CopyBytes(d, i, k), r', count')
      {
        r', count' := PutOut(inb, out, index.textBuf[(i + k) % N], r', count', CopyBytes(d, i, k));
      }
    }

    /** Decode one symbol and write what it stands for. */
    method DecodeNext(inb: Buffer, out: Buffer, r: int, count: nat, ghost d: Dec) returns (r': int, count': nat)
      requires Decoding(inb, out, d, r, count)
      modifies index.textBuf, sym.coder.freq, sym.coder.son, sym.coder.prnt, out
      modifies sym.io`crc, sym.io`getbuf, sym.io`getlen, sym.io`fetched, inb`i
      ensures out.i == old(out.i) && Decoding(inb, out, Step(d, sym.io.Source(inb)), r', count')
    {
      hide Huffman.Inv, Huffman.DecodeSymbol, Huffman.Update, Crc.CrcOf, Waiting, BytesBits, Positions.DecodePosition, CopyBytes,
        DecOk, Step, Emit;
      DecFacts(d);
      var c := sym.DecodeChar(inb);
      UpdatedDec(d, c, sym.io.Cursor());
      ghost var d1, cur := d.(tree := Huffman.Update(d.tree, c), cur := sym.io.Cursor()), sym.io.Cursor();
      if c < 256 {
        StepLiteral(d, sym.io.Source(inb), c, cur);
        r', count' := PutOut(inb, out, c, r, count, d1);
      } else {
        var p := sym.DecodePosition(inb);
        StepCopies(d, sym.io.Source(inb), c, cur, p, sym.io.Cursor());
        UpdatedDec(d, c, sym.io.Cursor());
        var i := (r - p - 1) % N;
        var j := c - 255 + THRESHOLD;
        r', count' := CopyOut(inb, out, i, j, r, count, d1.(cur := sym.io.Cursor()));
      }
    }

    /** One byte of the length field. */
    method GetHeaderByte(inb: Buffer, ghost first: nat) returns (x: Char)
      requires inb.Valid() && first <= inb.i <= |inb.Contents()| < WORDS && sym.io.crc == Crc.CrcOf(inb.Contents()[first..inb.i])
      modifies sym.io`crc, inb`i
      ensures first <= inb.i <= |inb.Contents()| && sym.io.crc == Crc.CrcOf(inb.Contents()[first..inb.i])
      ensures var s, i := inb.Contents(), old(inb.i); if i < |s| then x == Got(s[i]) && inb.i == i + 1 else x == Eof && inb.i == i
    {
      hide Crc.CrcOf, Crc.UpdCrc;
      if inb.i < inb.dlen { NextCrc(inb.Contents(), first, inb.i); }
      x := sym.io.CrcGetc(inb);
    }

    /** The length field of a compressed text; none if the input ends first. */
    method GetHeader(inb: Buffer) returns (ok: bool, size: nat)
      requires inb.Valid() && inb.i <= |inb.Contents()| < WORDS && sym.io.crc == 0
      modifies sym.io`crc, inb`i
      ensures old(inb.i) <= inb.i <= |inb.Contents()|
      ensures ok <==> old(inb.i) + 4 <= |inb.Contents()|
      ensures ok ==> inb.i == old(inb.i) + 4 && size == Archive.SizeField(inb.Contents()[old(inb.i)..])
      ensures sym.io.crc == Crc.CrcOf(inb.Contents()[old(inb.i)..inb.i]) && (!ok ==> inb.i == |inb.Contents()|)
    {
      hide Crc.CrcOf, Crc.UpdCrc;
      ghost var first := inb.i;
      NoCrc();
      assert inb.Contents()[first..first] == [];
      ok, size := false, 0;
      var x := GetHeaderByte(inb, first);
      if x.Eof? { return; }
      size := x.c;
      x := GetHeaderByte(inb, first);
      if x.Eof? { return; }
      size := size + 0x100 * x.c as int;
      x := GetHeaderByte(inb, first);
      if x.Eof? { return; }
      size := size + 0x10000 * x.c as int;
      x := GetHeaderByte(inb, first);
      if x.Eof? { return; }
      size := size + 0x100_0000 * x.c as int;
      ok := true;
    }

    /** Recover the text from where `inb` stands: it is what the specification makes of these bytes. */
    method Decode(inb: Buffer) returns (r: Buffer?)
      requires Allocated() && inb.Valid() && inb.i <= |inb.Contents()| < WORDS
      modifies index, index.textBuf, sym.coder.freq, sym.coder.son, sym.coder.prnt, sym.io, inb`i
      ensures r != null <==> old(inb.i) + 4 <= |inb.Contents()|
      ensures r != null ==> fresh(r) && r.Valid() && r.i == 0
      ensures r == null ==> sym.io.crc == Crc.CrcOf(inb.Contents()[old(inb.i)..])
      ensures var body := inb.Contents()[old(inb.i)..]; var text := old(index.textBuf[..]);
        r != null ==> (|text| == TEXT_SIZE && r.Contents() == Archive.Final(body, text).out
                       && sym.io.crc == Crc.CrcOf(body[..Archive.Taken(body, text)]))
    {
      hide Crc.CrcOf, BytesBits, Run, Archive.SizeField, Archive.Final, Archive.Taken, Archive.Start, Waiting;
      ghost var text, i0 := index.textBuf[..], inb.i;
      ghost var body := inb.Contents()[i0..];
      sym.io.getbuf := 0;
      sym.io.getlen := 0;
      sym.io.crc := 0;
      var ok, size := GetHeader(inb);
      if !ok {
        assert inb.Contents()[i0..inb.i] == body;
        return null;
      }
      r := DecodeBody(inb, size, i0);
    }

    /** What follows the length field, of which nothing is read when the length is zero. */
    method DecodeBody(inb: Buffer, size: nat, ghost i0: nat) returns (out: Buffer)
      requires Allocated() && inb.Valid() && inb.i == i0 + 4 <= |inb.Contents()| < WORDS
      requires size == Archive.SizeField(inb.Contents()[i0..]) && sym.io.crc == Crc.CrcOf(inb.Contents()[i0..inb.i])
      requires sym.io.getbuf == 0 && sym.io.getlen == 0
      modifies index, index.textBuf, sym.coder.freq, sym.coder.son, sym.coder.prnt, sym.io, inb`i
      ensures fresh(out) && out.Valid() && out.i == 0
      ensures var body := inb.Contents()[i0..]; var text := old(index.textBuf[..]);
        |text| == TEXT_SIZE && out.Contents() == Archive.Final(body, text).out
        && sym.io.crc == Crc.CrcOf(body[..Archive.Taken(body, text)])
    {
      hide Crc.CrcOf, BytesBits, Run, Archive.SizeField, Archive.Final, Archive.Taken, Archive.Start, Waiting;
      ghost var text := index.textBuf[..];
      out := new Buffer();
      if size == 0 {
        EmptyDecoded(inb.Contents(), i0, text);
        return;
      }
      ghost var d := DecodeText(inb, out, size, i0);
      DecodedAll(inb.Contents(), i0, text, d, size, sym.io.fetched, sym.io.getlen);
    }

    /** The decoding loop. */
    method DecodeText(inb: Buffer, out: Buffer, size: nat, ghost first: nat) returns (ghost d: Dec)
      requires Allocated() && inb.Valid() && out.Valid() && inb != out && out.Contents() == [] && out.i == 0
      requires first <= inb.i <= |inb.Contents()| < WORDS && sym.io.crc == Crc.CrcOf(inb.Contents()[first..inb.i])
      requires sym.io.getbuf == 0 && sym.io.getlen == 0 && size > 0
      modifies index, index.textBuf, sym.coder.freq, sym.coder.son, sym.coder.prnt, sym.io, inb`i, out
      ensures out.Valid() && out.i == 0 && out.Contents() == d.out
      ensures |old(index.textBuf[..])| == TEXT_SIZE
      ensures d == Run(Archive.Start(old(index.textBuf[..])), BytesBits(inb.Contents()[old(inb.i)..]), size)
      ensures sym.io.Reading(inb) && sym.io.first == first && sym.io.start == old(inb.i) && sym.io.Cursor() == d.cur && 8 <= sym.io.getlen < 16
    {
      hide Crc.CrcOf, Huffman.Inv, Waiting, BytesBits, Step, Run;
      ghost var text := index.textBuf[..];
      sym.coder.StartHuff();
      BlankOut();
      var r, count := N - F, 0;
      sym.io.StartBits(inb, first);
      ghost var bits := sym.io.Source(inb);
      d := Archive.Start(text);
      while count < size
        invariant out.i == 0 && Decoding(inb, out, d, r, count)
        invariant sym.io.Source(inb) == bits && sym.io.start == old(inb.i) && sym.io.first == first
        invariant Run(d, bits, size) == Run(Archive.Start(text), bits, size)
        decreases size - count
      {
        r, count := DecodeNext(inb, out, r, count, d);
        RunStep(d, bits, size);
        d := Step(d, bits);
      }
      RunEnd(d, bits, size);
    }

    method BlankOut()
      requires index.Allocated()
      modifies index.textBuf
      ensures index.textBuf[..] == Archive.Blanked(old(index.textBuf[..]))
    {
      for i := 0 to N - F
        invariant forall k :: 0 <= k < i ==> index.textBuf[k] == 32
        invariant forall k :: i <= k < TEXT_SIZE ==> index.textBuf[k] == old(index.textBuf[k])
      {
        index.textBuf[i] := 32;
      }
    }

    /** Recover the text of a compressed buffer; none if it is cut short in front or its CRC is wrong.  When both are so
        there is no buffer to free, and the program stops with a fault. */
    method Version1Decode(inb: Buffer) returns (faults: bool, r: Buffer?)
      requires Allocated() && inb.Valid() && inb.i == 0 && |inb.Contents()| < WORDS
      modifies index, index.textBuf, sym.coder.freq, sym.coder.son, sym.coder.prnt, sym.io, inb`i
      ensures r != null ==> fresh(r) && r.Valid() && r.i == 0
      ensures |old(index.textBuf[..])| == TEXT_SIZE
      ensures Archive.Unpacked(inb.Contents(), old(index.textBuf[..])) == if r == null then Options.None else Options.Some(r.Contents())
      ensures var s := inb.Contents(); faults <==> 2 <= |s| <= 5 && Crc.CrcOf(s[2..]) != Crc.CrcJoin(s[0], s[1])
      ensures faults ==> r == null
      ensures r != null ==> exists m :: 6 <= m <= |inb.Contents()| && Checks(inb.Contents(), m)
    {
      hide Crc.CrcOf, Crc.CrcJoin, Archive.Final, Archive.Taken;
      ghost var s, text := inb.Contents(), index.textBuf[..];
      var x := sym.io.CrcGetc(inb);
      if x.Eof? { return false, null; }
      var lo := x.c;
      x := sym.io.CrcGetc(inb);
      if x.Eof? { return false, null; }
      var crcRead := Crc.CrcJoin(lo, x.c);
      r := Decode(inb);
      faults := false;
      if sym.io.crc != crcRead {
        if r == null { return true, null; }
        return false, null;
      }
      if r != null { CrcChecks(s, text); }
    }
  }

  lemma EmptyDecoded(s: seq<byte>, i0: nat, text: seq<byte>)
    requires i0 + 4 <= |s| && |text| == TEXT_SIZE && Archive.SizeField(s[i0..]) == 0
    ensures Archive.Final(s[i0..], text).out == [] && s[i0..][..Archive.Taken(s[i0..], text)] == s[i0..i0 + 4]
  {
    Archive.NothingToDecode(s[i0..], text);
  }

  /** How far the decoder has read ahead follows from how many bits it has used. */
  lemma DecodedAll(s: seq<byte>, i0: nat, text: seq<byte>, d: Dec, size: nat, fetched: nat, getlen: nat)
    requires i0 + 4 <= |s| && |text| == TEXT_SIZE && size == Archive.SizeField(s[i0..]) > 0
    requires d == Run(Archive.Start(text), BytesBits(s[i0 + 4..]), size)
    requires d.cur == 8 * fetched - getlen && 8 <= getlen < 16
    ensures Archive.Final(s[i0..], text) == d
    ensures s[i0..][..Archive.Taken(s[i0..], text)] == s[i0..if i0 + 4 + fetched <= |s| then i0 + 4 + fetched else |s|]
  {
    hide Run, Archive.Start, BytesBits, Archive.SizeField;
    assert s[i0..][4..] == s[i0 + 4..];
  }

  lemma RunStep(d: Dec, bits: seq<bool>, size: nat)
    requires DecOk(d) && |d.out| < size
    ensures Run(d, bits, size) == Run(Step(d, bits), bits, size)
  {
    hide Step;
  }

  lemma RunEnd(d: Dec, bits: seq<bool>, size: nat)
    requires DecOk(d) && |d.out| >= size
    ensures Run(d, bits, size) == d
  {
  }

  /**
    What one codec has compressed another, or the same, recovers, whatever either has done before:
    when every set bit of the code words arrives, exactly if the length fits the length field.
   */
  method CompressAndRecover(enc: Codec, dec: Codec, inb: Buffer)
    returns (ends: bool, back: Buffer?, ghost body: seq<byte>, ghost ts: seq<Token>)
    requires enc.Allocated() && dec.Allocated() && inb.Valid()
    modifies enc.index, enc.index.textBuf, enc.index.lson, enc.index.rson, enc.index.dad
    modifies enc.sym.coder.freq, enc.sym.coder.son, enc.sym.coder.prnt, enc.sym.io, inb`i
    modifies dec.index, dec.index.textBuf, dec.sym.coder.freq, dec.sym.coder.son, dec.sym.coder.prnt, dec.sym.io
    ensures var n := |inb.Contents()|;
      && (ends <==> n % Archive.SIZES == 0 || (n < Archive.SIZES && |body| < Archive.SIZES))
      && (n <= 0x7FFF_FFFC ==> |body| + 2 < Archive.SIZES)
      && (n <= 3867 ==> ends && back != null)
    ensures back != null ==> back.Valid()
    ensures ends && |body| + 2 < Archive.SIZES ==> Sound(ts) && |ts| <= |inb.Contents()|
    ensures ends && |body| + 2 < Archive.SIZES && Fits(ts) ==>
      ((back != null && back.Contents() == inb.Contents()) <==> |inb.Contents()| < Archive.SIZES)
    ensures |inb.Contents()| <= 3867 ==> back.Contents() == inb.Contents()
  {
    hide Sound, Fits, Greedy, Archive.Packed, Archive.Packs, Archive.Unpacked, Codec.Allocated;
    var file;
    ends, file, body, ts := enc.Version1Encode(inb);
    back := null;
    BodySize(body, inb.Contents(), ts);
    if !ends || file.dlen >= Archive.SIZES { return; }
    ghost var text := dec.index.textBuf[..];
    var faults;
    faults, back := dec.Version1Decode(file);
    FewRecovered(ts);
    if Fits(ts) { Archive.RoundTrip(file.Contents(), inb.Contents(), ts, text); }
  }

  /** A compressed text whose two bytes of CRC have been changed is refused. */
  method RefuseWrongCrc(dec: Codec, inb: Buffer, ghost file: seq<byte>, ghost x: seq<byte>, ghost ts: seq<Token>) returns (r: Buffer?)
    requires dec.Allocated() && inb.Valid() && inb.i == 0 && |inb.Contents()| < WORDS
    requires Archive.Packed(file, x, ts) && Sound(ts) && Fits(ts) && |x| < Archive.SIZES
    requires |inb.Contents()| == |file| && inb.Contents()[2..] == file[2..] && inb.Contents() != file
    modifies dec.index, dec.index.textBuf, dec.sym.coder.freq, dec.sym.coder.son, dec.sym.coder.prnt, dec.sym.io, inb`i
    ensures r == null
  {
    hide Sound, Fits, Archive.Packs, Archive.Unpacked, Codec.Allocated, Crc.CrcOf, Crc.CrcJoin;
    ghost var s, text := inb.Contents(), dec.index.textBuf[..];
    var faults;
    faults, r := dec.Version1Decode(inb);
    assert s == [s[0], s[1]] + s[2..] && file == file[..2] + file[2..];
    Archive.WrongCrc(file, x, ts, s[0], s[1], text);
  }

  /** The two bytes in front of `s` are the CRC of those up to `m`. */
  predicate Checks(s: seq<byte>, m: nat)
    requires 6 <= m <= |s|
  {
    Crc.CrcOf(s[2..m]) == Crc.CrcJoin(s[0], s[1])
  }

  lemma CrcChecks(s: seq<byte>, text: seq<byte>)
    requires |text| == TEXT_SIZE && Archive.Unpacked(s, text).Some?
    ensures exists m :: 6 <= m <= |s| && Checks(s, m)
  {
    hide Crc.CrcOf, Crc.CrcJoin, Archive.Unpacked;
    var n := Archive.CrcChecked(s, text);
    assert Checks(s, 2 + n);
  }

  lemma FewRecovered(ts: seq<Token>)
    requires Sound(ts)
    ensures |ts| <= 3867 ==> Fits(ts)
  {
    if |ts| <= 3867 { FewFit(ts); }
  }

  lemma BodySize(body: seq<byte>, x: seq<byte>, ts: seq<Token>)
    ensures Archive.Packs(body, x, ts) ==> |body| <= 2 * |x| + 5
  {
  }

  lemma HeaderOnly(body: seq<byte>, x: seq<byte>, ts: seq<Token>)
    requires Archive.Packs(body, x, ts)
    ensures |x| % Archive.SIZES == 0 ==> |body| == 4
  {
  }

  /** A token stands for a byte of text at least, a copy for three. */
  lemma TextGrows(ts: seq<Token>, t: Token)
    requires Sound(ts) && TokenOk(Expand(ts), t)
    ensures Sound(ts + [t]) && |Expand(ts + [t])| >= |Expand(ts)| + (if t.Lit? then 1 else 3)
  {
    hide Sound, Expand;
    ExpandSnoc(ts, t);
  }

  lemma ChosenToken(text: seq<byte>, a: Links, trees: seq<BT>, v: seq<byte>, rv: nat, len: nat, n: int, d: int)
    requires WindowOk(text, a, trees, v, rv, len) && 0 < len == Ahead(v, rv) && Blanks() <= v
    requires |text| == TEXT_SIZE && Found(text, rv % N, n, d, Reach(rv)) && FrontsFound(text, v, rv, n)
    requires Blind(v, rv) ==> n < F
    ensures 0 <= n && rv + len <= |v|
    ensures var m := if n < len then n else len;
      if m <= THRESHOLD then
        text[rv % N] == v[rv] && TokenOk(v[..rv], Lit(v[rv])) && GreedyToken(v, rv, Lit(v[rv]))
        && Extend(v[..rv], Lit(v[rv])) == v[..rv + 1]
      else
        0 <= d < N && TokenOk(v[..rv], Copy(m, d)) && GreedyToken(v, rv, Copy(m, d)) && Extend(v[..rv], Copy(m, d)) == v[..rv + m]
  {
    hide Indexed, Extend, GreedyToken, FrontsFound, Fronts;
    TokenWrites(text, v, rv, len, n, d);
  }

  lemma CopyWritten(head: seq<bool>, ts: seq<Token>, t: Token)
    requires Sound(ts) && t.Copy? && Codable(t) && IsPosition(t.pos)
    ensures head + Sent(ts) + Cut(Huffman.Code(After(ts), Symbol(t))) + PositionBits(t.pos)
      == head + (Sent(ts) + SentToken(After(ts), t))
  {
    hide Sent, Huffman.Code, After, PositionBits, Sound, Cut;
  }

  lemma HeaderIs(size: nat)
    requires size < Archive.SIZES
    ensures [] + [LowByte(size % 256)] + [LowByte(size / 0x100 % 256)] + [LowByte(size / 0x10000 % 256)]
      + [LowByte(size / 0x100_0000 % 256)] == Archive.Header(size)
  {
  }

  lemma NothingPacked(x: seq<byte>)
    requires |x| % Archive.SIZES == 0
    ensures Archive.Packs(Archive.Header(0), x, [])
  {
    hide Archive.Header;
  }

  lemma NoCrc()
    ensures Crc.CrcOf([]) == 0
  {
  }

  lemma StartEmitted(head: seq<byte>)
    ensures BytesBits(head) + Top(0, 0) == BytesBits(head) + Sent([])
    ensures Clean(0, 0)
  {
    forall i | 0 <= i ensures !Bit(0, i) { if i < 16 { ZeroBits(15 - i); } }
  }

  /** The bits after the length field are what is sent of the tokens. */
  lemma FinishedText(body: seq<byte>, head: seq<byte>, written: seq<bool>, x: seq<byte>, ts: seq<Token>)
    requires |head| == 4 && 0 < |x| < Archive.SIZES && head == Archive.Header(|x|) && head <= body
    requires Sound(ts) && Expand(ts) == Blanks() + x && |body| <= 2 * |x| + 5
    requires Roomy(ts) ==> written == BytesBits(head) + Sent(ts) && Flushed(BytesBits(body), written, Pending(ts))
    ensures Archive.Packs(body, x, ts) && |ts| <= |x|
  {
    hide Sound, Expand, Coded, Sent, Pending, Roomy, BytesBits, Archive.Header;
    if Roomy(ts) {
      LeftOver(ts);
      BytesBitsConcat(head, body[4..]);
      assert head + body[4..] == body;
      DropHead(BytesBits(head), BytesBits(body[4..]), Sent(ts), Pending(ts));
    }
  }

  lemma DropHead(h: seq<bool>, padded: seq<bool>, bits: seq<bool>, wait: nat)
    requires Flushed(h + padded, h + bits, wait) && wait <= |bits|
    ensures Flushed(padded, bits, wait)
  {
    var kept := Kept(bits, wait);
    assert Kept(h + bits, wait) == h + kept;
    assert padded[..|kept|] == (h + padded)[..|h + kept|][|h|..];
    forall i | |kept| <= i < |padded| ensures !padded[i] { assert (h + padded)[|h| + i] == padded[i]; }
  }

  lemma PackedFile(file: seq<byte>, head: seq<byte>, body: seq<byte>, x: seq<byte>, ts: seq<Token>, crc: Crc.crc16)
    requires |head| == 2 && Crc.CrcJoin(head[0], head[1]) == crc == Crc.CrcOf(body) && file == head + body
    requires Archive.Packs(body, x, ts)
    ensures Archive.Packed(file, x, ts)
  {
    hide Crc.CrcOf, Crc.CrcJoin, Archive.Packs;
    assert file[2..] == body;
  }

  /** How many bytes the look-ahead holds: F, or all that are left. */
  function Ahead(v: seq<byte>, rv: nat): int {
    if |v| - rv < F then |v| - rv else F
  }

  lemma StartHolds(text: seq<byte>, x: seq<byte>, len: nat)
    requires |text| == TEXT_SIZE && len <= F && len <= |x|
    requires forall k :: 0 <= k < N - F ==> text[k] == 32
    requires forall k :: 0 <= k < len ==> text[N - F + k] == x[k]
    ensures Holds(text, Blanks() + x, N - F, len)
  {
    forall i | 0 <= i < N - F + len ensures HoldsAt(text, Blanks() + x, i) {
      if i >= N - F { assert text[N - F + (i - (N - F))] == x[i - (N - F)]; }
    }
  }

  lemma EmptyIndex(text: seq<byte>, text': seq<byte>, a: Links, ts: seq<BT>)
    requires ForestOk(text, a, ts) && |text'| == TEXT_SIZE && ts == seq(256, _ => Leaf)
    ensures ForestOk(text', a, ts)
  {
    forall c | 0 <= c < 256 ensures TreeOk(text', a, ts[c], c) { assert TreeOk(text, a, ts[c], c); }
    forall p | IsPos(p) ensures a.dad[p] == NIL { assert p !in Elements(ts[text[p]]); }
  }

  lemma SownNone(text: seq<byte>, ts: seq<BT>, r: int)
    requires |text| == TEXT_SIZE && ts == seq(256, _ => Leaf) && 0 <= r <= N
    ensures Sown(text, ts, r, r)
  {
  }

  lemma BlanksPresent(text: seq<byte>, ts: seq<BT>)
    requires Sown(text, ts, N - 2 * F, N - F)
    ensures |text| == TEXT_SIZE && |ts| == 256 && Next(N - F - 1) == N - F
    ensures forall q :: IsPos(q) && 0 < Back(N - F, q) <= F ==> Present(text, ts, q)
  {
    hide Present;
    forall q | IsPos(q) && 0 < Back(N - F, q) <= F ensures Present(text, ts, q) { SownPresent(text, ts, q); }
  }

  lemma AllPresent(text: seq<byte>, a: Links, ts: seq<BT>, r: int, k: int, known: int)
    requires Indexed(text, a, ts, r, k, known)
    ensures |text| == TEXT_SIZE && |ts| == 256 && IsPos(r)
    ensures forall q :: IsPos(q) && 0 < Back(Next(r), q) <= known ==> Present(text, ts, q)
  {
    hide Present, Covers;
    forall q | IsPos(q) && 0 < Back(Next(r), q) <= known ensures Present(text, ts, q) { CoveredPresent(text, ts, r, known, q); }
  }

  /** What is known at the start is enough for the head of the coding loop. */
  lemma StartReady(text: seq<byte>, a: Links, ts: seq<BT>, v: seq<byte>, n: int, d: int)
    requires |text| == TEXT_SIZE && Indexed(text, a, ts, N - F, N - F, if CleanKey(text) then F + 1 else 1)
    requires Found(text, N - F, n, d, F)
    ensures Indexed(text, a, ts, (N - F) % N, N - F, Reach(N - F) + 1) && Found(text, (N - F) % N, n, d, Reach(N - F))
    ensures !Blind(v, N - F)
  {
    hide ForestOk, CleanKey, Match, Covered;
  }

  lemma IndexedForest(text: seq<byte>, a: Links, ts: seq<BT>, r: int, k: int, known: int)
    requires Indexed(text, a, ts, r, k, known)
    ensures ForestOk(text, a, ts) && |text| == TEXT_SIZE && |ts| == 256
  {
  }

  lemma Wrap(i: nat)
    ensures (i % N + 1) % N == (i + 1) % N
  {
  }

  lemma NextIs(rv: nat)
    ensures Next(rv % N) == (rv + 1) % N
  {
  }

  lemma PutIs(text: seq<byte>, s: int, c: byte, text': seq<byte>)
    requires |text| == TEXT_SIZE && IsPos(s)
    requires text' == if s < F - 1 then text[s := c][s + N := c] else text[s := c]
    ensures text' == Put(text, s, c)
  {
  }

  lemma HoldsFrom(text: seq<byte>, v: seq<byte>, rv: nat, len: nat)
    requires Holds(text, v, rv, len)
    ensures N - F <= rv
  {
  }

  lemma TailBack(rv: nat)
    ensures Back(rv % N, (rv + F) % N) == N - F && (rv + 1 - 1) % N == rv % N
    ensures Reach(rv + 1) == if Reach(rv) + 1 > N - F then N - F else Reach(rv) + 1
  {
  }
}
