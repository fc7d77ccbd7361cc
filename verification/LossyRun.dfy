/**
  What the exchange does with a message that the codec does not carry: a run in which what the
  decoder makes of it is delivered, its id recorded, and the original unlinked.
 */
module LossyRun {
  import opened Bytes
  import opened Mids
  import opened Options
  import opened Lzss
  import opened Station
  import opened Exchange
  import opened LossyText
  import Archive
  import Forest
  import Proposals
  import Stream

  // ----- the text is not sendable -----

  /** However the text is parsed, its last literal loses a bit. */
  lemma EveryParseLoses(x: Body, ts: seq<Token>, us: seq<Token>)
    requires Parses(ts, x) && Stream.LastLoses(ts) && Parses(us, x)
    ensures Stream.LastLoses(us)
  {
    hide Sound, Expand, Greedy, Stream.LastLoses;
    SameParse(Blanks() + x, ts, us);
    Stream.SameLoss(ts, us);
  }

  /** Whatever file the encoder makes of it, and whatever the decoder's ring holds: something else is recovered. */
  lemma EveryFileAltered(x: Body, ts: seq<Token>, file: File, ring: Ring)
    requires Parses(ts, x) && Stream.LastLoses(ts) && 0 < |x| < Archive.SIZES && Encodes(file, x)
    ensures Archive.Unpacked(file, ring).Some? && Archive.Unpacked(file, ring).value != x
  {
    hide Parses, Archive.Packed, Stream.LastLoses, Archive.Unpacked;
    var us :| Parses(us, x) && Archive.Packed(file, x, us);
    ParsesSound(ts, x);
    ParsesSound(us, x);
    EveryParseLoses(x, ts, us);
    Archive.LastAltered(file, x, us, ring);
  }

  lemma ParsedParses(x: Body, ts: seq<Token>)
    requires Parsed(Blanks() + x, ts, Forest.N - Forest.F + |x|)
    ensures Parses(ts, x)
  {
    hide Sound, Expand, Greedy;
    assert (Blanks() + x)[..Forest.N - Forest.F + |x|] == Blanks() + x;
  }

  /** There is a text of 818637 bytes of which the encoder makes files, and of none of them does the decoder recover it,
      though it finds the CRC right. */
  lemma SomeUnsendable() returns (x: Body, file: File)
    ensures |x| == 818637 && Encodes(file, x) && Compressible(x) && !Sendable(x)
    ensures forall f: File, ring: Ring :: Encodes(f, x) ==> Archive.Unpacked(f, ring).Some? && Archive.Unpacked(f, ring).value != x
  {
    hide Parses, Archive.Packed, Stream.LastLoses, Archive.Unpacked, Parsed, Stream.Fits, Sound, Expand, Encodes, Compressible;
    var ts;
    x, ts := LossyParse();
    ParsedParses(x, ts);
    ParsesSound(ts, x);
    ParsesText(ts, x);
    file := Archive.SomeFile(x, ts);
    EncodesBy(file, x, ts);
    Stream.LossUnfit(ts);
    ModestCompressible(x);
    forall f: File, ring: Ring | Encodes(f, x)
      ensures Archive.Unpacked(f, ring).Some? && Archive.Unpacked(f, ring).value != x
    { EveryFileAltered(x, ts, f, ring); }
  }

  lemma ParsesText(ts: seq<Token>, x: Body)
    requires Parses(ts, x)
    ensures Sound(ts) && Expand(ts) == Blanks() + x
  {
    hide Sound, Expand, Greedy;
  }

  lemma EncodesBy(file: File, x: Body, ts: seq<Token>)
    requires Parses(ts, x) && Archive.Packed(file, x, ts)
    ensures Encodes(file, x)
  {
    hide Parses, Archive.Packed;
  }

  // ----- a run -----

  lemma OneMore(s: System, es: seq<Event>, e: Event)
    requires IsRun(s, es) && Enabled(After(s, es), e)
    ensures IsRun(s, es + [e]) && After(s, es + [e]) == Apply(After(s, es), e)
  {
    hide Enabled, Apply;
    assert (es + [e])[..|es|] == es;
  }

  /** The first station has one message and one proposal for it, the second has nothing; so far as the session has come. */
  ghost predicate Stage(t: System, mid: Mid, x: Body, file: File, next: nat, delete: bool, pcA: Pc, pcB: Pc, ab: seq<Msg>, ba: seq<Msg>) {
    && t.up && t.a.alive && t.b.alive && t.a.pc == pcA && t.b.pc == pcB && t.ab == ab && t.ba == ba
    && t.a.next == next && |t.a.props| == 1 && t.a.props[0].mid == mid && t.a.props[0].usize == |x| && t.a.props[0].file == file
    && t.a.props[0].delete == delete && t.a.posted == t.a.outbox == map[mid := x]
    && t.b.next == 0 && t.b.props == [] && t.b.outbox == map[]
  }

  ghost predicate Untouched(y: Station) { y.db == map[] && y.mail == [] }

  lemma Connected(s: System, mid: Mid, x: Body, file: File) returns (es: seq<Event>)
    requires Initial(s) && Proposals.MidOk(mid) && Encodes(file, x)
    ensures IsRun(s, es) && Stage(After(s, es), mid, x, file, 0, false, Turn(false), Listen([]), [], []) && Untouched(After(s, es).b)
  {
    hide Encodes, Proposals.MidOk;
    var post := Post(true, mid, x, true);
    assert After(s, []) == s;
    OneMore(s, [], post);
    var t := Apply(s, post);
    var conn := Connect([mid], [file], [], []);
    assert Lists([mid], [file], t.a.outbox);
    OneMore(s, [] + [post], conn);
    es := [] + [post] + [conn];
  }

  lemma Proposes(t: System, mid: Mid, x: Body, file: File, ring: Ring)
    requires Stage(t, mid, x, file, 0, false, Turn(false), Listen([]), [], []) && Untouched(t.b)
    ensures Enabled(t, Move(true, ring))
    ensures var u := Apply(t, Move(true, ring));
      Stage(u, mid, x, file, 0, false, AwaitFS, Listen([]), [FC(mid, |x|, |file|), Prompt], []) && Untouched(u.b)
  {
    assert Offers(Offered(t.a)) == [FC(mid, |x|, |file|)];
  }

  lemma HearsOffer(t: System, mid: Mid, x: Body, file: File, ring: Ring)
    requires Stage(t, mid, x, file, 0, false, AwaitFS, Listen([]), [FC(mid, |x|, |file|), Prompt], []) && Untouched(t.b)
    ensures Enabled(t, Move(false, ring))
    ensures var u := Apply(t, Move(false, ring)); Stage(u, mid, x, file, 0, false, AwaitFS, Listen([mid]), [Prompt], []) && Untouched(u.b)
  {
    assert t.ab[1..] == [Prompt];
  }

  lemma Accepts(t: System, mid: Mid, x: Body, file: File, ring: Ring)
    requires Stage(t, mid, x, file, 0, false, AwaitFS, Listen([mid]), [Prompt], []) && Untouched(t.b)
    ensures Enabled(t, Move(false, ring))
    ensures var u := Apply(t, Move(false, ring)); Stage(u, mid, x, file, 0, false, AwaitFS, Receive([mid]), [], [FS([true])]) && Untouched(u.b)
  {
    OneReply(t.b.db, mid, t.b.now);
    assert t.ab[1..] == [];
  }

  lemma OneReply(db: Db, mid: Mid, now: int)
    requires db == map[]
    ensures Replies(db, [mid], now) == ([true], map[]) && Accepted([mid], [true]) == [mid]
  {
    var mids, none := [mid], [];
    assert mids[..0] == none && Replies(db, none, now) == ([], db);
    assert Replies(db, mids, now).0 == [] + [true] == [true] && Replies(db, mids, now).1 == db;
    var nobody: seq<Mid>, yes := [], [true];
    assert mids[..0] == nobody && yes[..0] == [] && Accepted(nobody, []) == nobody;
    assert Accepted(mids, yes) == nobody + [mid];
  }

  lemma Sends(t: System, mid: Mid, x: Body, file: File, ring: Ring)
    requires Stage(t, mid, x, file, 0, false, AwaitFS, Receive([mid]), [], [FS([true])]) && Untouched(t.b)
    ensures Enabled(t, Move(true, ring))
    ensures var u := Apply(t, Move(true, ring)); Stage(u, mid, x, file, 1, true, Listen([]), Receive([mid]), [Data(file)], []) && Untouched(u.b)
  {
    var ps := Answered(t.a.props, 0, [true]);
    assert Transfers(ps, 0, 0) == [];
    assert Transfers(ps, 0, 1) == [Data(file)];
    assert t.ba[1..] == [];
  }

  /** What is recovered is delivered, and the id recorded. */
  ghost predicate Has(y: Station, mid: Mid, body: Body) {
    mid in y.db && y.mail == [Delivery(mid, body, y.now)]
  }

  lemma Delivers(t: System, mid: Mid, x: Body, file: File, ring: Ring, body: Body)
    requires Stage(t, mid, x, file, 1, true, Listen([]), Receive([mid]), [Data(file)], []) && Untouched(t.b)
    requires Archive.Unpacked(file, ring) == Some(body)
    ensures Enabled(t, Move(false, ring))
    ensures var u := Apply(t, Move(false, ring)); Stage(u, mid, x, file, 1, true, Listen([]), Turn(false), [], []) && Has(u.b, mid, body)
  {
    hide Archive.Unpacked;
    assert t.ab[1..] == [];
  }

  lemma Passes(t: System, mid: Mid, x: Body, file: File, ring: Ring, body: Body)
    requires Stage(t, mid, x, file, 1, true, Listen([]), Turn(false), [], []) && Has(t.b, mid, body)
    ensures Enabled(t, Move(false, ring))
    ensures var u := Apply(t, Move(false, ring)); Stage(u, mid, x, file, 1, true, Listen([]), Listen([]), [], [FF]) && Has(u.b, mid, body)
  {
  }

  lemma Unlinks(t: System, mid: Mid, x: Body, file: File, ring: Ring, body: Body)
    requires Stage(t, mid, x, file, 1, true, Listen([]), Listen([]), [], [FF]) && Has(t.b, mid, body)
    ensures Enabled(t, Move(true, ring))
    ensures var u := Apply(t, Move(true, ring)); u.a.posted == map[mid := x] && u.a.outbox == map[] && Has(u.b, mid, body)
  {
    assert Doomed(t.a) == {mid};
  }

  /** Whatever the decoder makes of a file of a message can be what is delivered, with the id recorded, and the original
      unlinked. */
  lemma Handed(s: System, mid: Mid, x: Body, file: File, ring: Ring, body: Body) returns (es: seq<Event>)
    requires Initial(s) && Proposals.MidOk(mid) && Encodes(file, x) && Archive.Unpacked(file, ring) == Some(body)
    ensures IsRun(s, es)
    ensures var t := After(s, es); t.a.posted == map[mid := x] && t.a.outbox == map[] && Has(t.b, mid, body)
  {
    hide IsRun, After, Initial, Stage, Untouched, Has, Apply, Enabled, Encodes, Archive.Unpacked, Proposals.MidOk;
    var a, b := Move(true, ring), Move(false, ring);
    es := Connected(s, mid, x, file);
    Proposes(After(s, es), mid, x, file, ring);
    OneMore(s, es, a);
    es := es + [a];
    HearsOffer(After(s, es), mid, x, file, ring);
    OneMore(s, es, b);
    es := es + [b];
    Accepts(After(s, es), mid, x, file, ring);
    OneMore(s, es, b);
    es := es + [b];
    Sends(After(s, es), mid, x, file, ring);
    OneMore(s, es, a);
    es := es + [a];
    Delivers(After(s, es), mid, x, file, ring, body);
    OneMore(s, es, b);
    es := es + [b];
    Passes(After(s, es), mid, x, file, ring, body);
    OneMore(s, es, b);
    es := es + [b];
    Unlinks(After(s, es), mid, x, file, ring, body);
    OneMore(s, es, a);
    es := es + [a];
  }

  /** Without the assumption on texts the exchange is not safe: from any start and with any ring in the decoder there is
      a run in which something else than what was posted is delivered and the original unlinked. */
  lemma AlteredRun(s: System, mid: Mid, ring: Ring) returns (es: seq<Event>, x: Body, body: Body)
    requires Initial(s) && Proposals.MidOk(mid)
    ensures IsRun(s, es) && !Sendable(x) && body != x
    ensures var t := After(s, es); t.a.posted == map[mid := x] && t.a.outbox == map[] && Has(t.b, mid, body)
  {
    hide IsRun, After, Initial, Has, Encodes, Archive.Unpacked, Proposals.MidOk, Sendable;
    var file;
    x, file := SomeUnsendable();
    body := Archive.Unpacked(file, ring).value;
    es := Handed(s, mid, x, file, ring, body);
  }
}
