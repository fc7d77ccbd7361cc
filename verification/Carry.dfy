/**
  One message on its way: compressed, sent as a transfer, received and recovered.
 */
module Carry {
  import opened Bytes
  import opened Buffers
  import opened Forest
  import opened Lzhuf
  import opened Lzss
  import opened Stream
  import Archive
  import Frames
  import Options

  /**
    What one station sends of a text and another receives, with anything behind it on the wire, is
    the text, if every set bit of the code words arrives; so it is with texts of up to 3867 bytes.
   */
  method CarryMessage(enc: Codec, dec: Codec, title: seq<byte>, text: Buffer, rest: seq<byte>)
    returns (back: Buffer?, ghost body: seq<byte>, ghost ts: seq<Token>)
    requires enc.Allocated() && dec.Allocated() && text.Valid() && Frames.NUL !in title
    modifies enc.index, enc.index.textBuf, enc.index.lson, enc.index.rson, enc.index.dad
    modifies enc.sym.coder.freq, enc.sym.coder.son, enc.sym.coder.prnt, enc.sym.io, text`i
    modifies dec.index, dec.index.textBuf, dec.sym.coder.freq, dec.sym.coder.son, dec.sym.coder.prnt, dec.sym.io
    ensures back != null ==> back.Valid()
    ensures |text.Contents()| <= 0x7FFF_FFFC ==> |body| + 2 < Archive.SIZES
    ensures |text.Contents()| < Archive.SIZES && |body| + 2 < Archive.SIZES ==>
      Sound(ts) && |ts| <= |text.Contents()| && (Fits(ts) ==> back != null && back.Contents() == text.Contents())
    ensures |text.Contents()| <= 3867 ==> back != null && back.Contents() == text.Contents()
  {
    hide Sound, Fits, Greedy, Archive.Unpacked, Archive.Packed, Archive.Packs, Codec.Allocated;
    var ends, file;
    ends, file, body, ts := enc.Version1Encode(text);
    BodySize(body, text.Contents(), ts);
    if !ends || text.dlen >= Archive.SIZES || file.dlen >= Archive.SIZES { return null, body, ts; }
    ghost var ring := dec.index.textBuf[..];
    Recovered(file.Contents(), text.Contents(), ts, ring);
    var received := Send(title, file, rest);
    var faults;
    faults, back := dec.Version1Decode(received);
  }

  lemma Recovered(file: seq<byte>, x: seq<byte>, ts: seq<Token>, ring: seq<byte>)
    requires Sound(ts) && |ts| <= |x| < Archive.SIZES && Archive.Packed(file, x, ts)
    ensures |file| >= 6 && (|x| <= 3867 ==> Fits(ts))
    ensures Fits(ts) && |ring| == TEXT_SIZE ==> Archive.Unpacked(file, ring) == Options.Some(x)
  {
    hide Sound, Fits, Archive.Unpacked, Archive.Packed;
    FewRecovered(ts);
    FileSize(file, x, ts);
    if Fits(ts) && |ring| == TEXT_SIZE { Archive.RoundTrip(file, x, ts, ring); }
  }

  /** The compressed text goes over the wire and is put together again at the other end. */
  method Send(title: seq<byte>, file: Buffer, rest: seq<byte>) returns (received: Buffer)
    requires file.Valid() && |file.Contents()| >= 6 && Frames.NUL !in title
    ensures fresh(received) && received.Valid() && received.i == 0 && received.Contents() == file.Contents()
  {
    hide Frames.Frame, Frames.ReadFrame;
    var cbuf := file.data[..file.dlen];
    var wire := new Wire();
    var ok := Frames.PutCompressed(title, 0, cbuf, wire);
    Frames.AddAll(wire, rest);
    Frames.FrameRoundTrip(title, 0, cbuf, rest);
    assert cbuf[0..] == cbuf && wire.bytes == Frames.Frame(title, 0, cbuf) + rest;
    var r := Frames.GetCompressed(wire);
    received := Filled(r.body);
  }

  lemma FileSize(file: seq<byte>, x: seq<byte>, ts: seq<Token>)
    requires Archive.Packed(file, x, ts)
    ensures |file| >= 6
  {
    hide Sound, Expand;
  }
}
