/**
  The messages of the exchange as bytes on the wire: each is read back with what follows it left,
  and no part of one is taken for one; in every run all that is on its way can be written so.
 */
module Wires {
  import opened Bytes
  import opened Options
  import opened Station
  import opened Frames
  import Archive
  import Exchange
  import Mids
  import P = Proposals

  type Text = seq<byte>

  // ----- writing -----

  function Letters(answers: seq<bool>): (r: Text)
    ensures |r| == |answers| && forall i :: 0 <= i < |r| ==> r[i] == if answers[i] then P.Ch('Y') else P.Ch('N')
  {
    seq(|answers|, i requires 0 <= i < |answers| => if answers[i] then P.Ch('Y') else P.Ch('N'))
  }

  function Line(mid: Text, usize: nat, csize: nat): P.Proposal { P.Proposal(P.Ch('C'), P.Ch('E'), mid, usize, csize) }

  /** A command without its CR; `sum` is that of the lines of the batch so far. */
  function Command(m: Msg, sum: nat): Text
    requires !m.Data?
  {
    match m
    case FC(mid, usize, csize) => P.Format(Line(mid, usize, csize))
    case Prompt => P.PromptLine(Checksum(sum))
    case FS(answers) => [P.Ch('F'), P.Ch('S'), P.SP] + Letters(answers)
    case FF => [P.Ch('F'), P.Ch('F')]
    case FQ => [P.Ch('F'), P.Ch('Q')]
  }

  /** A message as it is written; `title` is that of a compressed message. */
  function Written(m: Msg, sum: nat, title: Text): Text {
    match m
    case Data(file) => Frame(title, 0, file)
    case _ => Command(m, sum) + [P.CR]
  }

  function NextSum(m: Msg, sum: nat): nat {
    match m
    case FC(_, _, _) => sum + SumOf(Command(m, sum) + [P.CR])
    case Prompt => 0
    case _ => sum
  }

  /** A queue as it is written. */
  function Stream(q: seq<Msg>, titles: seq<Text>, sum: nat): Text
    requires |titles| == |q|
  {
    if q == [] then [] else Written(q[0], sum, titles[0]) + Stream(q[1..], titles[1..], NextSum(q[0], sum))
  }

  // ----- reading -----

  datatype Reading = Got(m: Msg, rest: Text, sum: nat) | Cut | Wrong

  function ReadLetters(s: Text): Option<seq<bool>> {
    if s == [] then Some([])
    else if s[|s| - 1] != P.Ch('Y') && s[|s| - 1] != P.Ch('N') then None
    else match ReadLetters(s[..|s| - 1])
      case None => None
      case Some(answers) => Some(answers + [s[|s| - 1] == P.Ch('Y')])
  }

  /** What a line says, and the sum after it. */
  function ReadCommand(line: Text, rest: Text, sum: nat): Reading {
    if P.Begins(line, [P.Ch('F'), P.Ch('C')]) then
      match P.Parse(line)
      case None => Wrong
      case Some(p) => Got(FC(p.mid, p.usize, p.csize), rest, sum + SumOf(line) + P.CR as int)
    else if P.Begins(line, [P.Ch('F'), P.Ch('>')]) then
      if P.Strtoul(line, 2, 16).0 == Checksum(sum) then Got(Prompt, rest, 0) else Wrong
    else if P.Begins(line, [P.Ch('F'), P.Ch('S'), P.SP]) then
      match ReadLetters(line[3..])
      case None => Wrong
      case Some(answers) => Got(FS(answers), rest, sum)
    else if P.Begins(line, [P.Ch('F'), P.Ch('F')]) then Got(FF, rest, sum)
    else if P.Begins(line, [P.Ch('F'), P.Ch('Q')]) then Got(FQ, rest, sum)
    else Wrong
  }

  /** The next message: a transfer when one is awaited, and otherwise a line. */
  function ReadOne(s: Text, sum: nat, receiving: bool): Reading {
    if receiving then
      match ReadFrame(s, 0)
      case Message(body, end) => if end <= |s| then Got(Data(body), s[end..], sum) else Wrong
      case Refused => Wrong
      case Lost => Cut
    else
      match P.ReadLine(s, 0, [])
      case NoLine => Cut
      case Line(text, end) => ReadCommand(P.CString(text), s[end..], sum)
  }

  // ----- one message -----

  /** What the stations send: ids and sizes that a line can carry, and files that are not too short to be sent. */
  predicate Carriable(m: Msg) {
    match m
    case FC(mid, usize, csize) => P.Proposable(Line(mid, usize, csize)) && csize < P.UINT
    case Data(file) => |file| >= 6
    case _ => true
  }

  lemma CommandPlain(m: Msg, sum: nat)
    requires Carriable(m) && !m.Data?
    ensures P.Plain(Command(m, sum))
  {
    hide P.Format;
    match m {
      case FC(mid, usize, csize) => P.FormatPlain(Line(mid, usize, csize));
      case _ =>
    }
  }

  lemma {:induction false} LettersRead(answers: seq<bool>)
    ensures ReadLetters(Letters(answers)) == Some(answers)
  {
    if answers != [] {
      var n := |answers| - 1;
      LettersRead(answers[..n]);
      assert Letters(answers)[..n] == Letters(answers[..n]);
      assert answers[..n] + [answers[n]] == answers;
    }
  }

  lemma CommandRead(m: Msg, sum: nat, rest: Text)
    requires Carriable(m) && !m.Data?
    ensures ReadCommand(Command(m, sum), rest, sum) == Got(m, rest, NextSum(m, sum))
  {
    hide P.Parse, P.Strtoul, P.Format, SumOf, ReadLetters, P.Proposable;
    var line := Command(m, sum);
    match m {
      case FC(mid, usize, csize) =>
        OfferRead(Line(mid, usize, csize));
        SumSnoc(line, P.CR);
      case Prompt =>
        P.HexRead(Checksum(sum));
        assert line[0] == P.Ch('F') && line[1] == P.Ch('>');
      case FS(answers) =>
        LettersRead(answers);
        assert line[..3] == [P.Ch('F'), P.Ch('S'), P.SP] && line[3..] == Letters(answers);
        assert line[1] == P.Ch('S');
      case FF => assert line[1] == P.Ch('F');
      case FQ => assert line[1] == P.Ch('Q');
    }
  }

  /** The end of a batch is accepted exactly if its byte and the bytes of the lines read add up to 0 modulo 256; anything
      else is taken for an error. */
  lemma PromptChecked(c: byte, sum: nat, rest: Text)
    ensures ReadOne(P.PromptLine(c) + [P.CR] + rest, sum, false) == if (sum + c) % 256 == 0 then Got(Prompt, rest, 0) else Wrong
  {
    hide P.Parse, P.Strtoul, ReadLetters, P.ReadLine, P.CString, Checksum;
    var line := P.PromptLine(c);
    var s := line + [P.CR] + rest;
    assert s[0..|line|] == line && s[|line|] == P.CR && s[|line| + 1..] == rest;
    P.PlainLineRead(s, 0, line, []);
    assert [] + line == line;
    P.PlainCString(line);
    P.HexRead(c);
    P.ChecksumOnly(sum, c);
    assert line[0] == P.Ch('F') && line[1] == P.Ch('>');
  }

  lemma OfferRead(p: P.Proposal)
    requires P.Proposable(p) && p.csize < P.UINT
    ensures P.Begins(P.Format(p), [P.Ch('F'), P.Ch('C')]) && P.Parse(P.Format(p)) == Some(p)
  {
    hide P.Parse, P.Format;
    P.ParseInverts(p);
    P.FrontFields(p);
    assert P.Format(p)[..2] == [P.Ch('F'), P.Ch('C')];
  }

  /** A message is read back, and what follows it is left. */
  lemma OneRead(m: Msg, sum: nat, title: Text, rest: Text)
    requires Carriable(m) && NUL !in title
    ensures ReadOne(Written(m, sum, title) + rest, sum, m.Data?) == Got(m, rest, NextSum(m, sum))
  {
    hide Frame, ReadFrame, P.ReadLine, P.CString, ReadCommand, P.Plain, Command;
    var w := Written(m, sum, title);
    assert (w + rest)[|w|..] == rest;
    if m.Data? {
      FrameRoundTrip(title, 0, m.file, rest);
      assert m.file[0..] == m.file;
    } else {
      var line := Command(m, sum);
      CommandPlain(m, sum);
      assert (w + rest)[0..|line|] == line && (w + rest)[|line|] == P.CR;
      P.PlainLineRead(w + rest, 0, line, []);
      assert [] + line == line;
      P.PlainCString(line);
      CommandRead(m, sum, rest);
    }
  }

  /** The lines besides proposals as they stand on the wire: "FS YN", "FF", "FQ", each with CR. */
  lemma LinesAre(sum: nat, title: Text)
    ensures Written(FS([true, false]), sum, title) == [70, 83, 32, 89, 78, 13]
    ensures Written(FF, sum, title) == [70, 70, 13] && Written(FQ, sum, title) == [70, 81, 13]
  {
  }

  // ----- part of a message -----

  lemma {:induction false} NoLineEnd(s: Text, i: nat, acc: Text)
    requires i <= |s| && P.CR !in s[i..]
    ensures P.ReadLine(s, i, acc) == P.NoLine
    decreases |s| - i
  {
    if i < |s| {
      assert s[i] == s[i..][0] && s[i + 1..] == s[i..][1..];
      NoLineEnd(s, i + 1, acc);
      NoLineEnd(s, i + 1, acc + [s[i]]);
    }
  }

  lemma {:induction false} TextRuns(s: Text, i: nat, n: nat)
    requires i <= |s| <= i + n && NUL !in s[i..]
    ensures TextEnd(s, i, n) == |s|
    decreases n
  {
    if i < |s| {
      assert s[i] == s[i..][0] && s[i + 1..] == s[i..][1..];
      TextRuns(s, i + 1, n - 1);
    }
  }

  /** Part of a header is not taken for a header. */
  lemma HeadCut(title: Text, s: Text)
    requires NUL !in title && s < Head(title, 0)
    ensures ReadHead(s, 0) == HeadLost
  {
    hide TextEnd;
    ClippedText(title);
    var t := Clipped(title, 80);
    var h := Head(title, 0);
    var o: Text := [48];
    assert Clipped(Decimal(0), 6) == o;
    assert h == [SOH, |t| + 3] + t + [NUL] + o + [NUL];
    assert forall i :: 0 <= i < |s| ==> s[i] == h[i];
    if 2 <= |s| <= 2 + |t| {
      assert s[2..] == t[..|s| - 2];
      TextRuns(s, 2, 80);
    } else if |s| > 2 + |t| {
      assert s[2..2 + |t|] == t && s[2 + |t|] == NUL;
      TextEnds(s, 2, 80, t);
      assert s[3 + |t|..] == o[..|s| - 3 - |t|];
      TextRuns(s, 3 + |t|, 6);
    }
  }

  lemma ChunkCut(s: Text, i: nat, body: Text, c: Text)
    requires i <= |s| && 0 < |c| <= 255 && s[i..] < Chunk(c)
    ensures ReadBody(s, i, body) == Lost
  {
    var u := s[i..];
    assert forall k :: 0 <= k < |u| ==> s[i + k] == u[k] == Chunk(c)[k];
  }

  lemma EndCut(s: Text, i: nat, body: Text, ck: byte)
    requires i <= |s| && s[i..] < [EOT, ck]
    ensures ReadBody(s, i, body) == Lost
  {
    var u := s[i..];
    assert forall k :: 0 <= k < |u| ==> s[i + k] == u[k] == [EOT, ck][k];
  }

  /** Part of the chunks and the checksum is not taken for a message. */
  lemma {:induction false} ChunksCut(s: Text, i: nat, body: Text, rest: Text, ck: byte)
    requires i <= |s| && s[i..] < Chunks(rest) + [EOT, ck]
    ensures ReadBody(s, i, body) == Lost
    decreases |rest|
  {
    hide SumOf, ReadBody;
    if rest == [] {
      assert Chunks(rest) + [EOT, ck] == [EOT, ck];
      EndCut(s, i, body, ck);
    } else {
      var n := if |rest| > CHUNK_SIZE then CHUNK_SIZE else |rest|;
      var c, more := rest[..n], rest[n..];
      NextChunk(rest, 0, n);
      assert rest[0..] == rest && rest[0..n] == c;
      var u, w, v := s[i..], Chunk(c), Chunks(more) + [EOT, ck];
      assert Chunks(rest) + [EOT, ck] == w + v;
      if |u| < |w| {
        assert u == (w + v)[..|u|] == w[..|u|];
        ChunkCut(s, i, body, c);
      } else {
        var u' := u[|w|..];
        assert u == w + u' by { assert u[..|w|] == (w + v)[..|u|][..|w|] == w; }
        assert u' == (w + v)[..|u|][|w|..] == v[..|u'|];
        ChunkRead(s, i, body, c, u');
        ChunksCut(s, i + 2 + n, body + c, more, ck);
      }
    }
  }

  lemma FrameCut(title: Text, file: Text, s: Text)
    requires NUL !in title && s < Frame(title, 0, file)
    ensures ReadFrame(s, 0) == Lost
  {
    hide Head, ReadHead, Chunks, ReadBody, SumOf;
    var h, tail := Head(title, 0), Chunks(file) + [EOT, Checksum(SumOf(file))];
    assert file[0..] == file && Frame(title, 0, file) == h + tail;
    if |s| < |h| {
      assert s == (h + tail)[..|s|] == h[..|s|];
      HeadCut(title, s);
    } else {
      var more := s[|h|..];
      assert s[..|h|] == (h + tail)[..|s|][..|h|] == h && s == h + more;
      assert more == (h + tail)[..|s|][|h|..] == tail[..|s| - |h|];
      HeadRead(title, 0, more);
      ChunksCut(s, |h|, [], file, Checksum(SumOf(file)));
    }
  }

  /** No part of a message is read as a message. */
  lemma OneCut(m: Msg, sum: nat, title: Text, s: Text)
    requires Carriable(m) && NUL !in title && s < Written(m, sum, title)
    ensures ReadOne(s, sum, m.Data?) == Cut
  {
    hide Frame, ReadFrame, P.ReadLine, ReadCommand, Command;
    if m.Data? {
      FrameCut(title, m.file, s);
    } else {
      var line := Command(m, sum);
      CommandPlain(m, sum);
      assert s == (line + [P.CR])[..|s|] == line[..|s|];
      assert s[0..] == s;
      NoLineEnd(s, 0, []);
    }
  }

  // ----- queues -----

  /** The sum after a queue has been read. */
  function SumAfter(q: seq<Msg>, sum: nat): nat {
    if q == [] then sum else SumAfter(q[1..], NextSum(q[0], sum))
  }

  lemma {:induction false} StreamConcat(p: seq<Msg>, q: seq<Msg>, tp: seq<Text>, tq: seq<Text>, sum: nat)
    requires |tp| == |p| && |tq| == |q|
    ensures Stream(p + q, tp + tq, sum) == Stream(p, tp, sum) + Stream(q, tq, SumAfter(p, sum))
    ensures SumAfter(p + q, sum) == SumAfter(q, SumAfter(p, sum))
  {
    hide Written, NextSum;
    if p == [] {
      assert p + q == q && tp + tq == tq;
    } else {
      StreamConcat(p[1..], q, tp[1..], tq, NextSum(p[0], sum));
      assert (p + q)[1..] == p[1..] + q && (tp + tq)[1..] == tp[1..] + tq;
    }
  }

  // ----- the queues of the exchange -----

  predicate AllCarriable(q: seq<Msg>) {
    forall i :: 0 <= i < |q| ==> Carriable(q[i])
  }

  /** Every message posted here is one that the encoder comes to an end with. */
  ghost predicate Compressibles(y: Station) {
    forall m :: m in y.posted ==> Compressible(y.posted[m])
  }

  lemma OfferCarriable(y: Station, p: Proposal)
    requires Exchange.Own(y) && Compressibles(y) && p in y.props
    ensures Carriable(Offer(p))
  {
    hide Encodes;
    assert Compressible(y.posted[p.mid]);
  }

  lemma RestCarriable(y: Station, k: nat)
    requires Exchange.Own(y) && Compressibles(y) && y.next <= |y.props| && k <= Size(y)
    ensures AllCarriable(Exchange.Rest(y, k))
  {
    hide Exchange.Own, Carriable, Compressibles;
    var q := Exchange.Rest(y, k);
    forall i | 0 <= i < |q| ensures Carriable(q[i]) {
      if i < |q| - 1 {
        assert q[i] == Offer(y.props[y.next + k + i]);
        OfferCarriable(y, y.props[y.next + k + i]);
      } else {
        assert q[i] == Prompt && Carriable(Prompt) by { PlainCommands(); }
      }
    }
  }

  lemma PlainCommands()
    ensures Carriable(Prompt) && Carriable(FF) && Carriable(FQ) && forall a :: Carriable(FS(a))
  {
  }

  lemma FileCarriable(file: File, text: Body)
    requires Encodes(file, text)
    ensures |file| >= 6
  {
    hide Parses;
    var ts :| Parses(ts, text) && Archive.Packed(file, text, ts);
    Archive.PackedSize(file[2..], text, ts);
  }

  lemma DatasCarriable(files: seq<File>, todo: seq<Mids.Mid>, posted: map<Mids.Mid, Body>)
    requires Exchange.Carries(files, todo, posted)
    ensures AllCarriable(Exchange.Datas(files))
  {
    hide Encodes;
    forall i | 0 <= i < |files| ensures Carriable(Data(files[i])) { FileCarriable(files[i], posted[todo[i]]); }
  }

  lemma FrontCarriable(q: seq<Msg>, full: seq<Msg>)
    requires q <= full && AllCarriable(full)
    ensures AllCarriable(q)
  {
    hide Carriable;
    assert forall i :: 0 <= i < |q| ==> q[i] == full[i];
  }

  lemma BothCarriable(p: seq<Msg>, q: seq<Msg>)
    requires AllCarriable(p) && AllCarriable(q)
    ensures AllCarriable(p + q)
  {
    hide Carriable;
  }

  /** What a station still has to read as answers is empty, or one answer. */
  lemma PreCarriable(x: Station, y: Station, pre: seq<Msg>)
    requires Exchange.Pending(x, y, pre)
    ensures AllCarriable(pre)
  {
    PlainCommands();
  }

  lemma LeftoverCarriable(q: seq<Msg>, posted: map<Mids.Mid, Body>)
    requires Exchange.Leftover(q, posted)
    ensures AllCarriable(q)
  {
    hide Encodes;
    forall i | 0 <= i < |q| ensures Carriable(q[i]) {
      assert Exchange.Packed(q[i], posted);
      var m :| m in posted && Encodes(q[i].file, posted[m]);
      FileCarriable(q[i].file, posted[m]);
    }
  }

  lemma PhaseCarriable(y: Station, x: Station, yx: seq<Msg>, xy: seq<Msg>, up: bool)
    requires Exchange.Phase(y, x, yx, xy, up) && Exchange.Own(y) && Compressibles(y)
    ensures AllCarriable(yx) && AllCarriable(xy)
  {
    hide Carriable, Exchange.Own, Exchange.Pending, Exchange.Rest, Exchange.Datas, Exchange.Carries, Exchange.Settled, Exchange.NoneMarked,
      Accepted, Exchange.Careless, Exchange.Leftover, Compressibles;
    PlainCommands();
    if pre :| Exchange.HasTurn(y, x, yx, xy, up, pre) {
      PreCarriable(x, y, pre);
      FrontCarriable(yx, pre);
    } else if pre :| Exchange.HasOffered(y, x, yx, xy, up, pre) {
      PreCarriable(x, y, pre);
      RestCarriable(y, 0);
      BothCarriable(pre, Exchange.Rest(y, 0));
      FrontCarriable(yx, pre + Exchange.Rest(y, 0));
    } else if Exchange.Reading(y, x, yx, xy, up) {
      RestCarriable(y, |x.pc.offers|);
      FrontCarriable(yx, Exchange.Rest(y, |x.pc.offers|));
    } else if answers :| Exchange.HasAnswered(y, x, yx, xy, up, answers) {
      FrontCarriable(xy, [FS(answers)]);
    } else if files :| Exchange.HasSent(y, x, yx, xy, up, files) {
      DatasCarriable(files, x.pc.todo, y.posted);
      FrontCarriable(yx, Exchange.Datas(files));
    } else if pre :| Exchange.HasPassed(y, x, yx, xy, up, pre) {
      PreCarriable(x, y, pre);
      BothCarriable(pre, [FF]);
      FrontCarriable(yx, pre + [FF]);
    } else if Exchange.HasLeft(y, x, yx, xy, up) {
      FrontCarriable(yx, [FQ]);
    } else if Exchange.Failed(y, x, yx, xy) {
      LeftoverCarriable(yx, y.posted);
    }
  }

  lemma PhaseQueues(t: Exchange.System)
    requires Exchange.Inv(t) && Compressibles(t.a) && Compressibles(t.b)
    ensures AllCarriable(t.ab) && AllCarriable(t.ba)
  {
    hide Exchange.Phase, Exchange.Own, Exchange.Mailbox, Exchange.NoLoss, Compressibles, AllCarriable;
    if Exchange.Phase(t.a, t.b, t.ab, t.ba, t.up) {
      PhaseCarriable(t.a, t.b, t.ab, t.ba, t.up);
    } else {
      PhaseCarriable(t.b, t.a, t.ba, t.ab, t.up);
    }
  }

  /** In every run all that is on its way can be written and read back, if the encoder comes to an end with every message
      posted. */
  lemma AlwaysCarriable(s: Exchange.System, es: seq<Exchange.Event>)
    requires Exchange.Initial(s) && Exchange.IsRun(s, es)
    requires Compressibles(Exchange.After(s, es).a) && Compressibles(Exchange.After(s, es).b)
    ensures var t := Exchange.After(s, es); AllCarriable(t.ab) && AllCarriable(t.ba)
  {
    hide Exchange.IsRun, Exchange.After, Exchange.Initial, Exchange.Inv, Compressibles, AllCarriable;
    Exchange.RunKeeps(s, es);
    PhaseQueues(Exchange.After(s, es));
  }
}
