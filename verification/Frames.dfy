/**
  The transfer of one compressed message: a header with title and offset, chunks of at most 250
  bytes, and a checksum.
 */
module Frames {
  import opened Bytes
  import opened Buffers

  const NUL: byte := 0
  const SOH: byte := 1
  const STX: byte := 2
  const EOT: byte := 4
  const CHUNK_SIZE := 250

  // ----- sending -----

  /** The decimal digits of a number, as ASCII characters. */
  function Decimal(n: nat): (d: seq<byte>)
    ensures |d| >= 1 && forall i :: 0 <= i < |d| ==> 48 <= d[i] <= 57
    ensures d[0] == 48 <==> n == 0
    ensures n < 10 ==> |d| == 1
  {
    if n < 10 then [48 + n] else Decimal(n / 10) + [48 + n % 10]
  }

  /** What fits before the terminator in an array of `size` bytes. */
  function Clipped(s: seq<byte>, size: nat): seq<byte> {
    if |s| <= size then s else s[..size]
  }

  function SumOf(s: seq<byte>): nat {
    if s == [] then 0 else SumOf(s[..|s| - 1]) + s[|s| - 1]
  }

  /** The byte that brings the sum to 0 modulo 256. */
  function Checksum(sum: int): byte { (-sum) % 256 }

  function Chunk(s: seq<byte>): seq<byte>
    requires |s| <= 255
  {
    [STX, |s|] + s
  }

  function Chunks(s: seq<byte>): seq<byte> {
    if s == [] then [] else if |s| > CHUNK_SIZE then Chunk(s[..CHUNK_SIZE]) + Chunks(s[CHUNK_SIZE..]) else Chunk(s)
  }

  function Head(title: seq<byte>, offset: nat): seq<byte> {
    var t, o := Clipped(title, 80), Clipped(Decimal(offset), 6);
    [SOH, |t| + |o| + 2] + t + [NUL] + o + [NUL]
  }

  /** All bytes of a transfer, from `offset` on. */
  function Frame(title: seq<byte>, offset: nat, body: seq<byte>): seq<byte>
    requires offset <= |body|
  {
    Head(title, offset) + Chunks(body[offset..]) + [EOT, Checksum(SumOf(body[offset..]))]
  }

  lemma SumSnoc(s: seq<byte>, b: byte)
    ensures SumOf(s + [b]) == SumOf(s) + b
  {
    assert (s + [b])[..|s|] == s;
  }

  lemma {:induction false} SumConcat(s: seq<byte>, t: seq<byte>)
    ensures SumOf(s + t) == SumOf(s) + SumOf(t)
  {
    if t == [] {
      assert s + t == s;
    } else {
      SumConcat(s, t[..|t| - 1]);
      SumSnoc(s + t[..|t| - 1], t[|t| - 1]);
      assert s + t == s + t[..|t| - 1] + [t[|t| - 1]];
    }
  }

  method AddAll(out: Wire, s: seq<byte>)
    modifies out`bytes
    ensures out.bytes == old(out.bytes) + s
  {
    for k := 0 to |s|
      invariant out.bytes == old(out.bytes) + s[..k]
    {
      out.Put(s[k]);
    }
    assert s[..|s|] == s;
  }

  /** putcompressed: false when the compressed data or the offset cannot be right. */
  method PutCompressed(title: seq<byte>, offset: nat, body: seq<byte>, out: Wire) returns (ok: bool)
    modifies out`bytes
    ensures ok <==> 6 <= |body| && offset <= |body|
    ensures ok ==> out.bytes == old(out.bytes) + Frame(title, offset, body)
    ensures !ok ==> out.bytes == old(out.bytes) + Head(title, offset)
  {
    AddAll(out, Head(title, offset));
    var rem: int := |body|;
    if rem < 6 { return false; }
    rem := rem - offset;
    if rem < 0 { return false; }
    var cksum := PutChunks(body[offset..], out);
    AddAll(out, [EOT, Checksum(cksum)]);
    ok := true;
  }

  method AddUp(s: seq<byte>, cksum: nat) returns (sum: nat)
    ensures sum == cksum + SumOf(s)
  {
    sum := cksum;
    for k := 0 to |s|
      invariant sum == cksum + SumOf(s[..k])
    {
      assert s[..k + 1] == s[..k] + [s[k]];
      SumSnoc(s[..k], s[k]);
      sum := sum + s[k] as int;
    }
    assert s[..|s|] == s;
  }

  method PutChunks(s: seq<byte>, out: Wire) returns (cksum: nat)
    modifies out`bytes
    ensures out.bytes == old(out.bytes) + Chunks(s) && cksum == SumOf(s)
  {
    hide Chunks, SumOf, Chunk;
    var cp := 0;
    cksum := 0;
    ghost var before, sent := out.bytes, [];
    NoChunks(s);
    while cp < |s|
      invariant 0 <= cp <= |s| && cksum == SumOf(s[..cp])
      invariant out.bytes == before + sent && sent + Chunks(s[cp..]) == Chunks(s)
    {
      var msglen := if |s| - cp > CHUNK_SIZE then CHUNK_SIZE else |s| - cp;
      var chunk := s[cp..cp + msglen];
      NextChunk(s, cp, msglen);
      cksum := PutChunk(chunk, out, cksum);
      SumConcat(s[..cp], chunk);
      assert s[..cp + msglen] == s[..cp] + chunk;
      sent := sent + Chunk(chunk);
      cp := cp + msglen;
    }
    assert s[..cp] == s;
    NoChunks(s);
  }

  lemma NoChunks(s: seq<byte>)
    ensures s[0..] == s && s[..0] == [] && SumOf([]) == 0 && Chunks([]) == [] && s[|s|..] == []
  {
  }

  method PutChunk(chunk: seq<byte>, out: Wire, cksum: nat) returns (sum: nat)
    requires |chunk| <= 255
    modifies out`bytes
    ensures out.bytes == old(out.bytes) + Chunk(chunk) && sum == cksum + SumOf(chunk)
  {
    hide SumOf;
    AddAll(out, [STX, |chunk|]);
    sum := AddUp(chunk, cksum);
    AddAll(out, chunk);
  }

  lemma NextChunk(s: seq<byte>, cp: nat, n: nat)
    requires cp < |s| && n == if |s| - cp > CHUNK_SIZE then CHUNK_SIZE else |s| - cp
    ensures Chunks(s[cp..]) == Chunk(s[cp..cp + n]) + Chunks(s[cp + n..])
  {
    var t := s[cp..];
    if |t| > CHUNK_SIZE {
      assert t[..CHUNK_SIZE] == s[cp..cp + n] && t[CHUNK_SIZE..] == s[cp + n..];
    } else {
      assert t == s[cp..cp + n];
    }
  }

  // ----- receiving -----

  /** What comes of reading a transfer: the message and where it ends, a refusal, or the end of the input. */
  datatype Reception = Message(body: seq<byte>, end: nat) | Refused | Lost

  /** Where a text of at most `n` bytes from `i` on ends: at its NUL, or after n bytes, or at the end of the input. */
  function TextEnd(s: seq<byte>, i: nat, n: nat): (e: nat)
    requires i <= |s|
    ensures i <= e <= |s| && e <= i + n
    ensures forall k :: i <= k < e ==> s[k] != NUL
    ensures e < |s| && e < i + n ==> s[e] == NUL
    decreases n
  {
    if n == 0 || i == |s| || s[i] == NUL then i else TextEnd(s, i + 1, n - 1)
  }

  datatype Header = HeadOk(end: nat) | HeadBad | HeadLost

  /** The header from `i` on: both texts must end in time, have the length announced, and the offset must be 0. */
  function ReadHead(s: seq<byte>, i: nat): (h: Header)
    requires i <= |s|
    ensures h.HeadOk? ==> i < h.end <= |s|
  {
    if i == |s| then HeadLost else if s[i] != SOH then HeadBad else if i + 1 == |s| then HeadLost else
    var j := TextEnd(s, i + 2, 80);
    if j == |s| then HeadLost else if s[j] != NUL then HeadBad else
    var k := TextEnd(s, j + 1, 6);
    if k == |s| then HeadLost else if s[k] != NUL then HeadBad else
    if s[i + 1] == k + 1 - (i + 2) && s[j + 1..k] == [48] then HeadOk(k + 1) else HeadBad
  }

  /** The chunks and the checksum from `i` on, behind what has been read. */
  function ReadBody(s: seq<byte>, i: nat, body: seq<byte>): Reception
    requires i <= |s|
    decreases |s| - i
  {
    if i == |s| then Lost
    else if s[i] == STX then
      if i + 1 == |s| then Lost
      else
        var n: int := if s[i + 1] == 0 then 256 else s[i + 1] as int;
        if i + 2 + n > |s| then Lost else ReadBody(s, i + 2 + n, body + s[i + 2..i + 2 + n])
    else if s[i] == EOT then
      if i + 1 == |s| then Lost
      else if (SumOf(body) + s[i + 1]) % 256 == 0 then Message(body, i + 2) else Refused
    else Refused
  }

  function ReadFrame(s: seq<byte>, i: nat): Reception
    requires i <= |s|
  {
    match ReadHead(s, i)
    case HeadOk(end) => ReadBody(s, end, [])
    case HeadBad => Refused
    case HeadLost => Lost
  }

  /** A text of at most `n` bytes and its NUL; `len` counts down by what is read. None when it does not end in time. */
  method GetText(inb: Wire, n: nat, len: int) returns (c: Char, text: seq<byte>, len': int)
    requires inb.at <= |inb.bytes|
    modifies inb`at
    ensures var s := inb.bytes; var e := TextEnd(s, old(inb.at), n);
      && text == s[old(inb.at)..e]
      && (if e == |s| then c == Eof && inb.at == e else c == Got(s[e]) && inb.at == e + 1 && len' == len - (e + 1 - old(inb.at)))
  {
    hide TextEnd;
    ghost var s, i0 := inb.bytes, inb.at;
    text, len' := [], len;
    var k := 0;
    while k < n
      invariant 0 <= k <= n && i0 <= inb.at == i0 + k <= |s| && text == s[i0..inb.at] && len' == len - k
      invariant TextEnd(s, i0, n) == TextEnd(s, inb.at, n - k)
    {
      c := inb.Get();
      TextEndStep(s, i0 + k, n - k);
      if c.Eof? { return; }
      len' := len' - 1;
      if c.c == NUL {
        inb.at := inb.at - 1;
        len' := len' + 1;
        break;
      }
      text := text + [c.c];
      k := k + 1;
    }
    if k == n { TextEndStep(s, i0 + k, 0); }
    c := inb.Get();
    len' := len' - 1;
  }

  lemma TextEndStep(s: seq<byte>, i: nat, n: nat)
    requires i <= |s|
    ensures TextEnd(s, i, n) == if n == 0 || i == |s| || s[i] == NUL then i else TextEnd(s, i + 1, n - 1)
  {
  }

  method GetHeader(inb: Wire) returns (h: Header)
    requires inb.at <= |inb.bytes|
    modifies inb`at
    ensures h == ReadHead(inb.bytes, old(inb.at)) && (h.HeadOk? ==> inb.at == h.end)
  {
    hide TextEnd;
    var c := inb.Get();
    if c.Eof? { return HeadLost; }
    if c.c != SOH { return HeadBad; }
    c := inb.Get();
    if c.Eof? { return HeadLost; }
    var len: int := c.c;
    var text;
    c, text, len := GetText(inb, 80, len);
    if c.Eof? { return HeadLost; }
    if c.c != NUL { return HeadBad; }
    c, text, len := GetText(inb, 6, len);
    if c.Eof? { return HeadLost; }
    if c.c != NUL { return HeadBad; }
    if len != 0 { return HeadBad; }
    if text != [48] { return HeadBad; }
    h := HeadOk(inb.at);
  }

  /** getcompressed: what it makes of any input is what ReadFrame says, and it stands right behind a message. */
  method GetCompressed(inb: Wire) returns (r: Reception)
    requires inb.at <= |inb.bytes|
    modifies inb`at
    ensures r == ReadFrame(inb.bytes, old(inb.at))
    ensures r.Message? ==> inb.at == r.end
  {
    hide ReadHead, SumOf;
    var h := GetHeader(inb);
    if h.HeadBad? { return Refused; }
    if h.HeadLost? { return Lost; }
    var buf := new Buffer();
    var cksum := 0;
    ghost var s, i0 := inb.bytes, inb.at;
    NoSum();
    while true
      invariant fresh(buf) && buf.Valid() && i0 <= inb.at <= |s| && cksum == SumOf(buf.Contents()) % 256
      invariant ReadBody(s, i0, []) == ReadBody(s, inb.at, buf.Contents())
      decreases |s| - inb.at
    {
      var c := inb.Get();
      if c.Eof? { return Lost; }
      if c.c == STX {
        var ok;
        ok, cksum := GetChunk(inb, buf, cksum);
        if !ok { return Lost; }
      } else if c.c == EOT {
        c := inb.Get();
        if c.Eof? { return Lost; }
        cksum := (cksum + c.c as int) % 256;
        if cksum != 0 { return Refused; }
        return Message(buf.data[..buf.dlen], inb.at);
      } else {
        return Refused;
      }
    }
  }

  lemma NoSum()
    ensures SumOf([]) == 0
  {
  }

  /** The rest of a chunk: its length, where 0 stands for 256, and its bytes. */
  method GetChunk(inb: Wire, buf: Buffer, cksum: int) returns (ok: bool, sum: int)
    requires buf.Valid() && inb.at <= |inb.bytes| && cksum == SumOf(buf.Contents()) % 256
    modifies inb`at, buf
    ensures buf.Valid() && old(inb.at) <= inb.at <= |inb.bytes|
    ensures var s, i := inb.bytes, old(inb.at);
      if i == |s| then !ok
      else var n := if s[i] == 0 then 256 else s[i] as int;
        && (ok <==> i + 1 + n <= |s|)
        && (ok ==> inb.at == i + 1 + n && buf.Contents() == old(buf.Contents()) + s[i + 1..i + 1 + n] && sum == SumOf(buf.Contents()) % 256)
  {
    hide SumOf;
    ghost var s, i, before := inb.bytes, inb.at, buf.Contents();
    sum := cksum;
    var c := inb.Get();
    if c.Eof? { return false, sum; }
    var len: int := c.c;
    if len == 0 {
      len := 256;
    }
    var k := 0;
    while k < len
      invariant 0 <= k <= len && buf.Valid() && inb.at == i + 1 + k <= |s|
      invariant buf.Contents() == before + s[i + 1..i + 1 + k] && sum == SumOf(buf.Contents()) % 256
    {
      c := inb.Get();
      if c.Eof? { return false, sum; }
      SumSnoc(buf.Contents(), c.c);
      buf.AddChar(c.c);
      sum := (sum + c.c as int) % 256;
      k := k + 1;
    }
    ok := true;
  }

  // ----- the round trip -----

  /** One chunk is read, and reading goes on behind it. */
  lemma ChunkRead(s: seq<byte>, i: nat, body: seq<byte>, c: seq<byte>, more: seq<byte>)
    requires 1 <= |c| <= 255 && i <= |s| && s[i..] == Chunk(c) + more
    ensures i + 2 + |c| <= |s| && s[i + 2 + |c|..] == more && ReadBody(s, i, body) == ReadBody(s, i + 2 + |c|, body + c)
  {
    var t := s[i..];
    assert t[0] == s[i] && t[1] == s[i + 1];
    assert s[i + 2..i + 2 + |c|] == t[2..2 + |c|] == c;
    assert s[i + 2 + |c|..] == t[2 + |c|..] == more;
  }

  lemma {:induction false} ChunksRead(s: seq<byte>, i: nat, body: seq<byte>, rest: seq<byte>, tail: seq<byte>)
    requires i <= |s| && s[i..] == Chunks(rest) + tail
    ensures i + |Chunks(rest)| <= |s| && ReadBody(s, i, body) == ReadBody(s, i + |Chunks(rest)|, body + rest)
    decreases |rest|
  {
    hide ReadBody;
    if rest == [] {
      assert body + rest == body;
    } else {
      var n := if |rest| > CHUNK_SIZE then CHUNK_SIZE else |rest|;
      var c, more := rest[..n], rest[n..];
      NextChunk(rest, 0, n);
      assert rest[0..] == rest && rest[0..n] == c;
      assert Chunks(rest) + tail == Chunk(c) + (Chunks(more) + tail);
      ChunkRead(s, i, body, c, Chunks(more) + tail);
      ChunksRead(s, i + 2 + n, body + c, more, tail);
      assert body + c + more == body + rest;
    }
  }

  /** A text without NUL ends at the NUL behind it. */
  lemma {:induction false} TextEnds(s: seq<byte>, i: nat, n: nat, t: seq<byte>)
    requires i + |t| < |s| && s[i..i + |t|] == t && s[i + |t|] == NUL && |t| <= n && NUL !in t
    ensures TextEnd(s, i, n) == i + |t|
    decreases n
  {
    if t != [] {
      assert s[i] == t[0] && t[0] in t;
      assert s[i + 1..i + 1 + |t[1..]|] == s[i..i + |t|][1..];
      TextEnds(s, i + 1, n - 1, t[1..]);
    }
  }

  lemma ClippedText(title: seq<byte>)
    requires NUL !in title
    ensures NUL !in Clipped(title, 80) && |Clipped(title, 80)| <= 80
  {
  }

  /** Only the offset 0 is sent as the text that is accepted. */
  lemma OffsetText(offset: nat)
    ensures var o := Clipped(Decimal(offset), 6); 0 < |o| <= 6 && NUL !in o && (o == [48] <==> offset == 0)
  {
    hide Decimal;
    var o := Clipped(Decimal(offset), 6);
    assert o[0] == Decimal(offset)[0];
  }

  lemma HeadRead(title: seq<byte>, offset: nat, rest: seq<byte>)
    requires NUL !in title
    ensures ReadHead(Head(title, offset) + rest, 0) == if offset == 0 then HeadOk(|Head(title, offset)|) else HeadBad
  {
    hide Decimal, Clipped, ReadHead;
    ClippedText(title);
    OffsetText(offset);
    TextsRead(Clipped(title, 80), Clipped(Decimal(offset), 6), rest);
  }

  lemma TextsRead(t: seq<byte>, o: seq<byte>, rest: seq<byte>)
    requires |t| <= 80 && 0 < |o| <= 6 && NUL !in t && NUL !in o
    ensures var h := [SOH, |t| + |o| + 2] + t + [NUL] + o + [NUL];
      ReadHead(h + rest, 0) == if o == [48] then HeadOk(|h|) else HeadBad
  {
    hide TextEnd;
    var s := [SOH, |t| + |o| + 2] + t + [NUL] + o + [NUL] + rest;
    var j := 2 + |t|;
    var k := j + 1 + |o|;
    assert s[0] == SOH && s[1] == |t| + |o| + 2;
    assert s[2..j] == t && s[j] == NUL;
    assert s[j + 1..k] == o && s[k] == NUL;
    TextEnds(s, 2, 80, t);
    TextEnds(s, j + 1, 6, o);
  }

  /** A transfer is received whole, and nothing behind it is touched, exactly when its offset is 0;
      any other offset is refused. */
  lemma FrameRoundTrip(title: seq<byte>, offset: nat, body: seq<byte>, rest: seq<byte>)
    requires NUL !in title && offset <= |body|
    ensures ReadFrame(Frame(title, offset, body) + rest, 0) == Message(body[offset..], |Frame(title, offset, body)|) <==> offset == 0
    ensures offset != 0 ==> ReadFrame(Frame(title, offset, body) + rest, 0) == Refused
  {
    hide Head, ReadHead, Chunks, Decimal;
    var h, c, e := Head(title, offset), Chunks(body[offset..]), [EOT, Checksum(SumOf(body[offset..]))];
    var s := Frame(title, offset, body) + rest;
    assert s == h + (c + e + rest);
    HeadRead(title, offset, c + e + rest);
    if offset == 0 {
      assert s[|h|..] == c + (e + rest);
      ChunksRead(s, |h|, [], body[offset..], e + rest);
      assert [] + body[offset..] == body[offset..];
      assert s[|h| + |c|] == EOT && s[|h| + |c| + 1] == e[1];
      ChecksumZero(SumOf(body[offset..]));
    }
  }

  lemma ChecksumZero(n: nat)
    ensures (n + Checksum(n)) % 256 == 0
  {
  }

  // ----- what is accepted, and nothing else -----

  /** Chunks as they stand in a transfer: each with its length in one byte, where 256 is written as 0. */
  function Flat(cs: seq<seq<byte>>): seq<byte> {
    if cs == [] then [] else [STX, |cs[0]| % 256] + cs[0] + Flat(cs[1..])
  }

  function Joined(cs: seq<seq<byte>>): seq<byte> {
    if cs == [] then [] else cs[0] + Joined(cs[1..])
  }

  predicate ChunksOk(cs: seq<seq<byte>>) {
    forall i :: 0 <= i < |cs| ==> 1 <= |cs[i]| <= 256
  }

  predicate TitleOk(title: seq<byte>) { |title| <= 80 && NUL !in title }

  /** A transfer from the start of a message: the title, the offset 0, the chunks, and a checksum. */
  function Transfer(title: seq<byte>, cs: seq<seq<byte>>, ck: byte): seq<byte>
    requires TitleOk(title)
  {
    [1, |title| + 3] + title + [0, 48, 0] + Flat(cs) + [4, ck]
  }

  lemma FlatStep(s: seq<byte>, i: nat, body: seq<byte>, c: seq<byte>, more: seq<byte>)
    requires 1 <= |c| <= 256 && i <= |s| && s[i..] == [STX, |c| % 256] + c + more
    ensures i + 2 + |c| <= |s| && s[i + 2 + |c|..] == more && ReadBody(s, i, body) == ReadBody(s, i + 2 + |c|, body + c)
  {
    var t := s[i..];
    assert t[0] == s[i] && t[1] == s[i + 1];
    assert s[i + 2..i + 2 + |c|] == t[2..2 + |c|] == c;
    assert s[i + 2 + |c|..] == t[2 + |c|..] == more;
  }

  /** Chunks of any sizes are read; the message is there if the sum of its bytes and the checksum is 0 modulo 256, and is
      refused if it is not. */
  lemma {:induction false} FlatRead(s: seq<byte>, i: nat, body: seq<byte>, cs: seq<seq<byte>>, ck: byte, rest: seq<byte>)
    requires ChunksOk(cs) && i <= |s| && s[i..] == Flat(cs) + [EOT, ck] + rest
    ensures ReadBody(s, i, body)
      == if (SumOf(body + Joined(cs)) + ck) % 256 == 0 then Message(body + Joined(cs), i + |Flat(cs)| + 2) else Refused
    decreases |cs|
  {
    hide SumOf;
    if cs == [] {
      assert body + Joined(cs) == body;
      assert s[i] == s[i..][0] && s[i + 1] == s[i..][1];
    } else {
      hide ReadBody;
      var c, more := cs[0], Flat(cs[1..]) + [EOT, ck] + rest;
      assert s[i..] == [STX, |c| % 256] + c + more;
      FlatStep(s, i, body, c, more);
      FlatRead(s, i + 2 + |c|, body + c, cs[1..], ck, rest);
      assert body + c + Joined(cs[1..]) == body + Joined(cs);
    }
  }

  /** A transfer is received if and only if the bytes of the message and its checksum add up to 0 modulo 256; otherwise it
      is refused. */
  lemma TransferRead(title: seq<byte>, cs: seq<seq<byte>>, ck: byte, rest: seq<byte>)
    requires TitleOk(title) && ChunksOk(cs)
    ensures ReadFrame(Transfer(title, cs, ck) + rest, 0)
      == if (SumOf(Joined(cs)) + ck) % 256 == 0 then Message(Joined(cs), |Transfer(title, cs, ck)|) else Refused
  {
    hide SumOf, ReadBody, ReadHead, Flat, Joined;
    var h, tail := [SOH, |title| + 3] + title + [NUL, 48, NUL], Flat(cs) + [EOT, ck];
    var s := Transfer(title, cs, ck) + rest;
    assert s == h + (tail + rest);
    assert h == [SOH, |title| + |[48 as byte]| + 2] + title + [NUL] + [48] + [NUL];
    TextsRead(title, [48], tail + rest);
    assert s[|h|..] == tail + rest;
    FlatRead(s, |h|, [], cs, ck, rest);
    assert [] + Joined(cs) == Joined(cs);
  }

  lemma HeadAccepted(s: seq<byte>) returns (title: seq<byte>)
    requires ReadHead(s, 0).HeadOk?
    ensures TitleOk(title) && s[..ReadHead(s, 0).end] == [SOH, |title| + 3] + title + [NUL, 48, NUL]
  {
    hide TextEnd;
    var j := TextEnd(s, 2, 80);
    var k := TextEnd(s, j + 1, 6);
    title := s[2..j];
    assert s[j + 1..k] == [48] && s[j + 1] == s[j + 1..k][0];
    assert s[..k + 1] == [s[0], s[1]] + s[2..j] + [s[j], s[j + 1], s[k]];
  }

  /** One chunk more, or the end. */
  lemma BodyStep(s: seq<byte>, i: nat, body: seq<byte>) returns (n: nat)
    requires i <= |s| && ReadBody(s, i, body).Message?
    ensures i + 2 <= |s| && (n == 0 ==> s[i] == EOT && ReadBody(s, i, body) == Message(body, i + 2) && (SumOf(body) + s[i + 1]) % 256 == 0)
    ensures n > 0 ==> n <= 256 && s[i] == STX && s[i + 1] == n % 256 && i + 2 + n <= |s|
    ensures n > 0 ==> ReadBody(s, i, body) == ReadBody(s, i + 2 + n, body + s[i + 2..i + 2 + n])
  {
    hide SumOf;
    n := if s[i] != STX then 0 else if s[i + 1] == 0 then 256 else s[i + 1];
  }

  lemma {:induction false} BodyAccepted(s: seq<byte>, i: nat, body: seq<byte>) returns (cs: seq<seq<byte>>, ck: byte)
    requires i <= |s| && ReadBody(s, i, body).Message?
    ensures var r := ReadBody(s, i, body);
      && ChunksOk(cs) && i <= r.end <= |s| && s[i..r.end] == Flat(cs) + [EOT, ck]
      && r.body == body + Joined(cs) && (SumOf(r.body) + ck) % 256 == 0
    decreases |s| - i
  {
    hide SumOf, ReadBody, Flat, Joined;
    var n := BodyStep(s, i, body);
    if n > 0 {
      var c := s[i + 2..i + 2 + n];
      var more;
      more, ck := BodyAccepted(s, i + 2 + n, body + c);
      cs := [c] + more;
      FlatFirst(c, more);
      var end := ReadBody(s, i, body).end;
      assert s[i..end] == [STX, n % 256] + c + s[i + 2 + n..end];
      assert body + c + Joined(more) == body + (c + Joined(more));
    } else {
      cs, ck := [], s[i + 1];
      FlatNone();
      assert s[i..i + 2] == [EOT, ck] && body + [] == body;
    }
  }

  lemma FlatFirst(c: seq<byte>, more: seq<seq<byte>>)
    ensures Flat([c] + more) == [STX, |c| % 256] + c + Flat(more) && Joined([c] + more) == c + Joined(more)
  {
    assert ([c] + more)[1..] == more;
  }

  lemma FlatNone()
    ensures Flat([]) == [] && Joined([]) == []
  {
  }

  /** Whatever is received as a message was such a transfer, with the checksum right. */
  lemma FrameAccepted(s: seq<byte>) returns (title: seq<byte>, cs: seq<seq<byte>>, ck: byte)
    requires ReadFrame(s, 0).Message?
    ensures var r := ReadFrame(s, 0);
      && TitleOk(title) && ChunksOk(cs) && r.end <= |s| && s[..r.end] == Transfer(title, cs, ck)
      && r.body == Joined(cs) && (SumOf(r.body) + ck) % 256 == 0
  {
    hide SumOf, ReadBody, ReadHead, Flat, Joined;
    title := HeadAccepted(s);
    var e := ReadHead(s, 0).end;
    cs, ck := BodyAccepted(s, e, []);
    var end := ReadFrame(s, 0).end;
    assert s[..end] == s[..e] + s[e..end];
    assert [] + Joined(cs) == Joined(cs);
  }

  /** A message is cut into chunks of 250 bytes, and a last one of what is left. */
  lemma {:induction false} ChunkSizes(s: seq<byte>) returns (cs: seq<seq<byte>>)
    ensures Chunks(s) == Flat(cs) && Joined(cs) == s
    ensures forall i :: 0 <= i < |cs| ==> if i < |cs| - 1 then |cs[i]| == 250 else 1 <= |cs[i]| <= 250
    decreases |s|
  {
    if s == [] {
      cs := [];
    } else if |s| > CHUNK_SIZE {
      var more := ChunkSizes(s[CHUNK_SIZE..]);
      cs := [s[..CHUNK_SIZE]] + more;
      FlatFirst(s[..CHUNK_SIZE], more);
      assert s == s[..CHUNK_SIZE] + s[CHUNK_SIZE..];
      FlatNone();
    } else {
      cs := [s];
      FlatFirst(s, []);
      FlatNone();
      assert [s] + [] == cs;
    }
  }

  /** What is sent of a whole message is such a transfer, in chunks of 250 bytes but for the last. */
  lemma FrameIs(title: seq<byte>, body: seq<byte>) returns (cs: seq<seq<byte>>, ck: byte)
    requires NUL !in title
    ensures TitleOk(Clipped(title, 80)) && Frame(title, 0, body) == Transfer(Clipped(title, 80), cs, ck)
    ensures Joined(cs) == body && (SumOf(body) + ck) % 256 == 0
    ensures forall i :: 0 <= i < |cs| ==> if i < |cs| - 1 then |cs[i]| == 250 else 1 <= |cs[i]| <= 250
  {
    hide SumOf, Chunks, Flat, Joined;
    ClippedText(title);
    cs := ChunkSizes(body);
    ck := Checksum(SumOf(body));
    ChecksumZero(SumOf(body));
    assert body[0..] == body && Clipped(Decimal(0), 6) == [48];
    var t := Clipped(title, 80);
    assert Head(title, 0) == [1, |t| + 3] + t + [0, 48, 0];
  }
}
