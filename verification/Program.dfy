/**
  The program of one station as it is written: loops over the list of proposals and over the
  letters of an answer, against the actions of module Station.
 */
module Program {
  import opened Bytes
  import opened Buffers
  import opened Mids
  import opened Station
  import Archive
  import Exchange
  import Lzhuf
  import Lzss
  import Stream

  class StationProgram {
    ghost var posted: map<Mid, Body>
    ghost var mail: seq<Delivery>
    var outbox: map<Mid, Body>
    var props: seq<Proposal>
    var next: nat
    const store: MidDb
    const codec: Lzhuf.Codec
    var now: int
    var pc: Pc
    var alive: bool

    ghost function View(): Station
      reads this, store
    {
      Station(posted, outbox, props, next, store.db, now, mail, pc, alive)
    }

    /** What the codec's ring holds. */
    ghost function RingNow(): Ring
      reads codec.index.textBuf
      requires codec.Allocated()
    {
      codec.index.textBuf[..]
    }

    constructor ()
      ensures codec.Allocated()
    {
      store := new MidDb();
      codec := new Lzhuf.Codec();
    }

    /** Unlink what is marked among the proposals made so far. */
    method Unlink()
      requires next <= |props|
      modifies this`outbox, this`props
      ensures View() == old(DoDelete(View()))
    {
      ghost var s := View();
      var i := 0;
      while i != next
        invariant 0 <= i <= next && next <= |s.props| == |props|
        invariant props == Unmarked(s.props, i)
        invariant outbox == s.outbox - DoomedTo(s.props, i)
        decreases next - i
      {
        DoomedNext(s.props, i);
        if props[i].delete {
          outbox := outbox - {props[i].mid};
          props := props[i := props[i].(delete := false)];
        }
        assert props == Unmarked(s.props, i + 1);
        i := i + 1;
      }
      assert DoomedTo(s.props, next) == Doomed(s);
    }

    /** The lines of a batch: one for each of up to PROPLIMIT proposals, with its sizes, and the end of the batch. */
    method OfferBatch() returns (out: seq<Msg>)
      requires next < |props|
      ensures out == Offers(Offered(View())) + [Prompt]
    {
      out := [];
      var prop, i := next, 0;
      while i < PROPLIMIT
        invariant 0 <= i <= PROPLIMIT && prop == next + i < |props|
        invariant |out| == i && forall k :: 0 <= k < i ==> out[k] == Offer(props[next + k])
      {
        out := out + [FC(props[prop].mid, props[prop].usize, |props[prop].file|)];
        if prop + 1 == |props| {
          i := i + 1;
          break;
        }
        prop, i := prop + 1, i + 1;
      }
      assert out == Offers(Offered(View()));
      out := out + [Prompt];
    }

    /** b2outboundproposal up to its first read. */
    method OutboundProposal() returns (out: seq<Msg>)
      requires pc.Turn? && next <= |props|
      modifies this`pc
      ensures (View(), out) == old(Outbound(View()))
    {
      if next < |props| {
        out := OfferBatch();
        pc := AwaitFS;
      } else if pc.afterFF {
        out := [FQ];
        pc := Done;
      } else {
        out := [FF];
        pc := Listen([]);
      }
    }

    /** Go through the letters of the answer and the proposals together. */
    method MarkAnswers(answers: seq<bool>)
      requires next < |props|
      modifies this`props
      ensures props == Answered(old(props), next, answers)
    {
      ghost var ps := props;
      var prop, i := next, 0;
      while i < |answers| && prop < |props|
        invariant 0 <= i <= |answers| && prop == next + i <= |props| == |ps|
        invariant props == Answered(ps, next, answers[..i])
        decreases |answers| - i
      {
        props := props[prop := props[prop].(accepted := answers[i], delete := !answers[i])];
        assert props == Answered(ps, next, answers[..i + 1]);
        prop, i := prop + 1, i + 1;
      }
      assert props == Answered(ps, next, answers);
    }

    /** Send those of the batch that are not marked, and mark them. */
    method SendBatch() returns (out: seq<Msg>)
      requires next < |props|
      modifies this`props, this`next
      ensures var hi := old(next + Size(View()));
        props == AllDeleted(old(props), old(next), hi) && next == hi && out == Transfers(old(props), old(next), hi)
    {
      ghost var ps := props;
      out := [];
      var prop, i := next, 0;
      while i < PROPLIMIT
        invariant next == old(next) && 0 <= i <= PROPLIMIT && prop == next + i <= |props| && |props| == |ps| && (i < PROPLIMIT ==> prop < |props|)
        invariant props == AllDeleted(ps, next, prop)
        invariant out == Transfers(ps, next, prop)
      {
        if !props[prop].delete {
          out := out + [Data(props[prop].file)];
          props := props[prop := props[prop].(delete := true)];
        }
        assert props == AllDeleted(ps, next, prop + 1);
        prop, i := prop + 1, i + 1;
        if prop == |props| { break; }
      }
      next := prop;
    }

    /** The rest of b2outboundproposal: the letters of the answer, and then the transfers. */
    method ReadAnswers(answers: seq<bool>) returns (out: seq<Msg>)
      requires next < |props|
      modifies this`props, this`next, this`pc
      ensures (View(), out) == old(TakeAnswers(View(), answers))
    {
      MarkAnswers(answers);
      out := SendBatch();
      pc := Listen([]);
    }

    /** The answers to a batch, each after a look into the store. */
    method AnswerBatch(offers: seq<Mid>) returns (out: seq<Msg>)
      modifies this`pc, store
      ensures (View(), out) == old(TakePrompt(View(), offers))
    {
      hide Replies, Accepted, Checked, Known;
      ghost var s := View();
      if offers == [] {
        pc := Turn(false);
        return [];
      }
      var answers, todo, i := [], [], 0;
      NoOffers(s.db, offers, now);
      while i < |offers|
        invariant 0 <= i <= |offers| && |answers| == i
        invariant (answers, store.db) == Replies(s.db, offers[..i], now)
        invariant todo == Accepted(offers[..i], answers)
        invariant View() == s.(db := store.db)
      {
        OneOffer(s.db, offers, i, now, answers);
        var found := store.CheckMid(offers[i], now);
        answers := answers + [!found];
        todo := todo + if found then [] else [offers[i]];
        i := i + 1;
      }
      assert offers[..|offers|] == offers;
      out := [FS(answers)];
      pc := if todo == [] then Turn(false) else Receive(todo);
    }

    /** A compressed message has come for the first accepted id: recover and deliver it, and record its id. */
    method AcceptMessage(file: File)
      requires pc.Receive? && pc.todo != [] && codec.Allocated() && |file| < WORDS
      modifies this`pc, this`mail, store
      modifies codec.index, codec.index.textBuf, codec.sym.coder.freq, codec.sym.coder.son, codec.sym.coder.prnt, codec.sym.io
      ensures View() == old(TakeData(View(), pc.todo, file, RingNow()))
    {
      hide Archive.Unpacked;
      var cbuf := Filled(file);
      var faults, ubuf := codec.Version1Decode(cbuf);
      if faults || ubuf == null {
        pc := Error;
        return;
      }
      mail := mail + [Delivery(pc.todo[0], ubuf.Contents(), now)];
      store.RecordMid(pc.todo[0], now);
      pc := if |pc.todo| == 1 then Turn(false) else Receive(pc.todo[1..]);
    }

    /** Whatever comes next over the link. */
    method ReadNext(msg: Msg) returns (out: seq<Msg>)
      requires Reads(pc) && next <= |props| && (pc.AwaitFS? ==> next < |props|)
      requires codec.Allocated() && (msg.Data? ==> |msg.file| < WORDS)
      modifies this, store
      modifies codec.index, codec.index.textBuf, codec.sym.coder.freq, codec.sym.coder.son, codec.sym.coder.prnt, codec.sym.io
      ensures (View(), out) == old(Take(View(), msg, RingNow()))
    {
      hide TakeData, DoDelete, TakeAnswers, TakePrompt;
      out := [];
      match pc
      case AwaitFS =>
        if msg.FS? { out := ReadAnswers(msg.answers); } else { pc := Error; }
      case Receive(todo) =>
        if msg.Data? && todo != [] { AcceptMessage(msg.file); } else { pc := Error; }
      case Listen(offers) =>
        match msg {
          case FC(mid, _, _) =>
            Unlink();
            pc := if |offers| == PROPLIMIT then Error else Listen(offers + [mid]);
          case FF =>
            Unlink();
            pc := Turn(true);
          case FQ =>
            Unlink();
            pc := Done;
          case Prompt =>
            out := AnswerBatch(offers);
          case _ =>
            pc := Error;
        }
    }

    /** Compress a message of the outbox. */
    method Compress(text: Body) returns (file: File)
      requires codec.Allocated() && Compressible(text)
      modifies codec.index, codec.index.textBuf, codec.index.lson, codec.index.rson, codec.index.dad
      modifies codec.sym.coder.freq, codec.sym.coder.son, codec.sym.coder.prnt, codec.sym.io
      ensures Encodes(file, text)
    {
      hide Lzss.Sound, Lzss.Expand, Lzss.Greedy, Archive.Packed, Archive.Packs, Compressible, Encodes;
      var ubuf := Filled(text);
      ghost var body, ts;
      var ends, cbuf;
      ends, cbuf, body, ts := codec.Version1Encode(ubuf);
      CompressibleLength(text);
      TextParsed(text, body, ts);
      EncoderEnds(text, body, ts);
      file := cbuf.data[..cbuf.dlen];
      EncodesFrom(file, text, ts);
    }

    /** One proposal for each message of the outbox, in the order of its directory. */
    method ListOutbox(order: seq<Mid>) returns (ghost files: seq<File>)
      requires codec.Allocated()
      requires forall i :: 0 <= i < |order| ==> order[i] in outbox && Compressible(outbox[order[i]])
      modifies this`props, codec.index, codec.index.textBuf, codec.index.lson, codec.index.rson, codec.index.dad
      modifies codec.sym.coder.freq, codec.sym.coder.son, codec.sym.coder.prnt, codec.sym.io
      ensures |files| == |props| == |order|
      ensures forall k :: 0 <= k < |order| ==>
        Encodes(files[k], outbox[order[k]]) && props[k] == Proposal(order[k], |outbox[order[k]]|, files[k], false, false)
    {
      hide Encodes, Compressible;
      props := [];
      files := [];
      for i := 0 to |order|
        invariant |props| == |files| == i
        invariant forall k :: 0 <= k < i ==>
          Encodes(files[k], outbox[order[k]]) && props[k] == Proposal(order[k], |outbox[order[k]]|, files[k], false, false)
      {
        var file := Compress(outbox[order[i]]);
        files := files + [file];
        props := props + [Proposal(order[i], |outbox[order[i]]|, file, false, false)];
      }
    }

    /** A session begins: old ids are forgotten, and the list of proposals is made from the outbox. */
    method Start(order: seq<Mid>, first: bool) returns (ghost files: seq<File>)
      requires codec.Allocated()
      requires forall i :: 0 <= i < |order| ==> order[i] in outbox && Compressible(outbox[order[i]])
      modifies this, store, codec.index, codec.index.textBuf, codec.index.lson, codec.index.rson, codec.index.dad
      modifies codec.sym.coder.freq, codec.sym.coder.son, codec.sym.coder.prnt, codec.sym.io
      ensures Exchange.Carries(files, order, old(outbox))
      ensures View() == old(Exchange.Begin(View(), order, files, if first then Turn(false) else Listen([])))
    {
      hide Encodes, Compressible, Unexpired, Exchange.Begin;
      ghost var was := View();
      store.ExpireMids(now);
      files := ListOutbox(order);
      next := 0;
      pc := if first then Turn(false) else Listen([]);
      alive := true;
      Begun(was, order, files, props, pc);
    }
  }

  lemma Begun(was: Station, order: seq<Mid>, files: seq<File>, props: seq<Proposal>, pc: Pc)
    requires |files| == |props| == |order| && forall i :: 0 <= i < |order| ==> order[i] in was.outbox
    requires forall k :: 0 <= k < |order| ==> props[k] == Proposal(order[k], |was.outbox[order[k]]|, files[k], false, false)
    ensures was.(db := Unexpired(was.db, was.now), next := 0, pc := pc, alive := true, props := props)
      == Exchange.Begin(was, order, files, pc)
  {
    hide Unexpired;
  }

  lemma CompressibleLength(text: Body)
    requires Compressible(text)
    ensures |text| < Archive.SIZES
  {
  }

  lemma EncodesFrom(file: File, text: Body, ts: seq<Lzss.Token>)
    requires Parses(ts, text) && Archive.Packed(file, text, ts)
    ensures Encodes(file, text)
  {
  }

  lemma TextParsed(text: Body, body: seq<byte>, ts: seq<Lzss.Token>)
    requires |text| < Archive.SIZES && Lzss.Sound(ts) && Lzss.Greedy(Lzss.Blanks() + text, ts) && Archive.Packs(body, text, ts)
    requires |text| == 0 ==> ts == []
    ensures Parses(ts, text)
  {
    hide Lzss.Sound, Lzss.Greedy, Stream.Sends;
    if |text| == 0 {
      Stream.NoTokens();
      assert Lzss.Blanks() + text == Lzss.Blanks();
    }
  }

  /** A compressible text is compressed to less than 2^32 bytes, so the encoder comes to its end. */
  lemma EncoderEnds(text: Body, body: seq<byte>, ts: seq<Lzss.Token>)
    requires Compressible(text) && Parses(ts, text) && Archive.Packs(body, text, ts)
    ensures |body| + 2 < Archive.SIZES
  {
    hide Parses, Archive.Packs, Archive.Crc.CrcOf;
    var crc := Archive.Crc.CrcOf(body);
    Archive.Crc.CrcJoins(crc);
    var file := [Archive.Crc.CrcLow(crc), Archive.Crc.CrcHigh(crc)] + body;
    assert file[2..] == body;
    EncodesFrom(file, text, ts);
  }

  lemma NoOffers(db: Db, offers: seq<Mid>, now: int)
    ensures Replies(db, offers[..0], now) == ([], db) && Accepted(offers[..0], []) == []
  {
  }

  /** One more offer is answered. */
  lemma OneOffer(db: Db, offers: seq<Mid>, i: nat, now: int, answers: seq<bool>)
    requires i < |offers| && |answers| == i
    ensures var (a, d) := Replies(db, offers[..i], now);
      Replies(db, offers[..i + 1], now) == (a + [!Known(d, offers[i], now)], Checked(d, offers[i], now))
    ensures forall b :: Accepted(offers[..i + 1], answers + [b]) == Accepted(offers[..i], answers) + (if b then [offers[i]] else [])
  {
    hide Known, Checked;
    assert offers[..i + 1][..i] == offers[..i];
    forall b ensures Accepted(offers[..i + 1], answers + [b]) == Accepted(offers[..i], answers) + (if b then [offers[i]] else []) {
      assert (answers + [b])[..i] == answers;
    }
  }

  /** The marked ids among the first `n` proposals. */
  ghost function DoomedTo(ps: seq<Proposal>, n: nat): set<Mid>
    requires n <= |ps|
  {
    set i | 0 <= i < |ps| && i < n && ps[i].delete :: ps[i].mid
  }

  lemma DoomedNext(ps: seq<Proposal>, n: nat)
    requires n < |ps|
    ensures DoomedTo(ps, n + 1) == DoomedTo(ps, n) + (if ps[n].delete then {ps[n].mid} else {})
  {
    var d := DoomedTo(ps, n + 1);
    forall m | m in d ensures m in DoomedTo(ps, n) + (if ps[n].delete then {ps[n].mid} else {}) {
      var i :| 0 <= i < |ps| && i < n + 1 && ps[i].delete && ps[i].mid == m;
    }
  }
}
