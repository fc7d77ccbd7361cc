/**
  The exchange over a link of bytes.  A station that reads takes the bytes that have come for a
  transfer or for a line as it stands in its program, and keeps the sum of the lines of a batch
  itself; a link is cut at any byte.  Every run over bytes is one over messages.
 */
module Links {
  import opened Bytes
  import opened Mids
  import opened Station
  import opened Exchange
  import Archive
  import W = Wires
  import Frames

  type Text = seq<byte>

  /** Two stations, the bytes on their way, and the sum that each has of the lines of a batch it has read. */
  datatype Link = Link(a: Station, b: Station, ab: Text, ba: Text, sumA: nat, sumB: nat, up: bool)

  /** One station goes on, with titles for the messages it sends; the link is cut, and only the front of the bytes on
      their way still arrives; or what else can happen to two stations. */
  datatype Act = Go(first: bool, ring: Ring, titles: seq<Text>) | Break(ab: nat, ba: nat) | Other(e: Event)

  /** A station can go on if it is its turn, or if what has come is no mere part of what it waits for. */
  predicate CanGo(x: Station, s: Text, sum: nat) {
    x.alive && x.next <= |x.props| && (x.pc.Turn? || (Reads(x.pc) && W.ReadOne(s, sum, x.pc.Receive?) != W.Cut))
  }

  /** The station after it has gone on, the bytes left to read, its sum, and what it sends; what is neither a transfer nor
      a line that it knows ends it. */
  ghost function Gone(x: Station, s: Text, sum: nat, ring: Ring): (Station, Text, nat, seq<Msg>)
    requires CanGo(x, s, sum)
  {
    if x.pc.Turn? then var (x', out) := Outbound(x); (x', s, sum, out)
    else
      match W.ReadOne(s, sum, x.pc.Receive?)
      case Got(m, rest, sum') => var (x', out) := Take(x, m, ring); (x', rest, sum', out)
      case _ => (x.(pc := Error), s, sum, [])
  }

  ghost predicate Titled(q: seq<Msg>, titles: seq<Text>) {
    |titles| == |q| && forall i :: 0 <= i < |q| ==> Frames.NUL !in titles[i]
  }

  function Bare(u: Link): System { System(u.a, u.b, [], [], u.up) }

  ghost predicate Able(u: Link, c: Act) {
    match c
    case Go(true, ring, titles) => CanGo(u.a, u.ba, u.sumA) && Titled(Gone(u.a, u.ba, u.sumA, ring).3, titles)
    case Go(false, ring, titles) => CanGo(u.b, u.ab, u.sumB) && Titled(Gone(u.b, u.ab, u.sumB, ring).3, titles)
    case Break(n, m) => n <= |u.ab| && m <= |u.ba|
    case Other(e) => !e.Move? && !e.Cut? && Enabled(Bare(u), e) && (e.Post? ==> Compressible(e.body))
  }

  /** The bytes on their way after more has been written; over a cut link nothing more goes. */
  function Wrote(up: bool, s: Text, out: seq<Msg>, titles: seq<Text>): Text
    requires |titles| == |out|
  {
    if up then s + W.Stream(out, titles, 0) else s
  }

  ghost function Do(u: Link, c: Act): Link
    requires Able(u, c)
  {
    match c
    case Go(true, ring, titles) =>
      var (a, ba, sumA, out) := Gone(u.a, u.ba, u.sumA, ring);
      u.(a := a, ba := ba, sumA := sumA, ab := Wrote(u.up, u.ab, out, titles))
    case Go(false, ring, titles) =>
      var (b, ab, sumB, out) := Gone(u.b, u.ab, u.sumB, ring);
      u.(b := b, ab := ab, sumB := sumB, ba := Wrote(u.up, u.ba, out, titles))
    case Break(n, m) => u.(ab := u.ab[..n], ba := u.ba[..m], up := false)
    case Other(e) =>
      var t := Apply(Bare(u), e);
      if e.Connect? then Link(t.a, t.b, [], [], 0, 0, true) else u.(a := t.a, b := t.b, up := t.up)
  }

  // ----- bytes and messages -----

  /** The bytes are part of the message that is lost. */
  ghost predicate Fragment(frag: Text, lost: seq<Msg>, sum: nat) {
    frag == [] || (lost != [] && exists title :: Frames.NUL !in title && frag < W.Written(lost[0], sum, title))
  }

  ghost predicate Consists(s: Text, q: seq<Msg>, lost: seq<Msg>, sum: nat, titles: seq<Text>, frag: Text) {
    Titled(q, titles) && s == W.Stream(q, titles, sum) + frag && Fragment(frag, lost, W.SumAfter(q, sum))
  }

  /** The bytes are the messages of the queue, and behind them, over a cut link, part of the first message lost. */
  ghost predicate OnLine(s: Text, q: seq<Msg>, lost: seq<Msg>, sum: nat, up: bool) {
    && |lost| <= 1 && (up ==> lost == [] && W.SumAfter(q, sum) == 0)
    && exists titles, frag :: Consists(s, q, lost, sum, titles, frag)
  }

  lemma OnLineIs(s: Text, q: seq<Msg>, lost: seq<Msg>, sum: nat, up: bool, titles: seq<Text>, frag: Text)
    requires |lost| <= 1 && (up ==> lost == [] && W.SumAfter(q, sum) == 0) && Consists(s, q, lost, sum, titles, frag)
    ensures OnLine(s, q, lost, sum, up)
  {
  }

  /** The next message of the queue is what is read. */
  lemma LineReads(s: Text, q: seq<Msg>, lost: seq<Msg>, sum: nat, up: bool) returns (rest: Text)
    requires OnLine(s, q, lost, sum, up) && q != [] && W.Carriable(q[0])
    ensures W.ReadOne(s, sum, q[0].Data?) == W.Got(q[0], rest, W.NextSum(q[0], sum))
    ensures OnLine(rest, q[1..], lost, W.NextSum(q[0], sum), up)
  {
    hide W.ReadOne, W.Written, W.NextSum, W.Carriable, Fragment, OnLine;
    var titles, frag := Parts(s, q, lost, sum, up);
    var w, more := W.Written(q[0], sum, titles[0]), W.Stream(q[1..], titles[1..], W.NextSum(q[0], sum));
    rest := more + frag;
    assert s == w + rest;
    W.OneRead(q[0], sum, titles[0], rest);
    OnLineIs(rest, q[1..], lost, W.NextSum(q[0], sum), up, titles[1..], frag);
  }

  lemma Parts(s: Text, q: seq<Msg>, lost: seq<Msg>, sum: nat, up: bool) returns (titles: seq<Text>, frag: Text)
    requires OnLine(s, q, lost, sum, up)
    ensures |lost| <= 1 && (up ==> lost == [] && W.SumAfter(q, sum) == 0) && Consists(s, q, lost, sum, titles, frag)
  {
    hide Consists;
    titles, frag :| Consists(s, q, lost, sum, titles, frag);
  }

  lemma NothingRead(sum: nat, receiving: bool)
    ensures W.ReadOne([], sum, receiving) == W.Cut
  {
  }

  /** When all messages have been read, what is left is not taken for one, if the station waits for one such. */
  lemma LineEnds(s: Text, lost: seq<Msg>, sum: nat, up: bool, receiving: bool)
    requires OnLine(s, [], lost, sum, up) && (lost != [] ==> W.Carriable(lost[0]) && lost[0].Data? == receiving)
    ensures W.ReadOne(s, sum, receiving) == W.Cut
  {
    hide W.ReadOne, W.Written, W.Carriable;
    var titles, frag := Parts(s, [], lost, sum, up);
    assert s == frag;
    if frag == [] {
      NothingRead(sum, receiving);
    } else {
      var title :| Frames.NUL !in title && frag < W.Written(lost[0], sum, title);
      W.OneCut(lost[0], sum, title, frag);
    }
  }

  /** What is written behind a queue is the longer queue. */
  lemma LineSends(s: Text, q: seq<Msg>, sum: nat, out: seq<Msg>, titles: seq<Text>)
    requires OnLine(s, q, [], sum, true) && Titled(out, titles) && W.SumAfter(out, 0) == 0
    ensures OnLine(s + W.Stream(out, titles, 0), q + out, [], sum, true)
  {
    hide OnLine, W.SumAfter, W.Stream, Titled;
    var before := WholeLine(s, q, sum);
    TitledBoth(q, before, out, titles);
    W.StreamConcat(q, out, before, titles, sum);
    WholeOnLine(s + W.Stream(out, titles, 0), q + out, sum, before + titles);
  }

  lemma WholeLine(s: Text, q: seq<Msg>, sum: nat) returns (titles: seq<Text>)
    requires OnLine(s, q, [], sum, true)
    ensures Titled(q, titles) && s == W.Stream(q, titles, sum) && W.SumAfter(q, sum) == 0
  {
    var frag;
    titles, frag := Parts(s, q, [], sum, true);
    assert W.Stream(q, titles, sum) + [] == W.Stream(q, titles, sum);
  }

  lemma WholeOnLine(s: Text, q: seq<Msg>, sum: nat, titles: seq<Text>)
    requires Titled(q, titles) && s == W.Stream(q, titles, sum) && W.SumAfter(q, sum) == 0
    ensures OnLine(s, q, [], sum, true)
  {
    hide W.SumAfter, W.Stream;
    assert s == W.Stream(q, titles, sum) + [];
    OnLineIs(s, q, [], sum, true, titles, []);
  }

  lemma TitledBoth(q: seq<Msg>, tq: seq<Text>, out: seq<Msg>, titles: seq<Text>)
    requires Titled(q, tq) && Titled(out, titles)
    ensures |tq| == |q| && |titles| == |out| && Titled(q + out, tq + titles)
  {
  }

  /** Bytes that are cut: some messages are still whole, and of the next one there is a part. */
  lemma {:induction false} StreamCut(q: seq<Msg>, titles: seq<Text>, sum: nat, s: Text) returns (k: nat, frag: Text)
    requires Titled(q, titles) && s < W.Stream(q, titles, sum)
    ensures k < |q| && s == W.Stream(q[..k], titles[..k], sum) + frag && frag < W.Written(q[k], W.SumAfter(q[..k], sum), titles[k])
  {
    hide W.Written, W.NextSum;
    if q == [] {
      assert false;
    } else {
      var sum' := W.NextSum(q[0], sum);
      var w, more := W.Written(q[0], sum, titles[0]), W.Stream(q[1..], titles[1..], sum');
      if |s| < |w| {
        k, frag := 0, s;
        assert s == (w + more)[..|s|] == w[..|s|];
        assert q[..0] == [] && titles[..0] == [];
      } else {
        var s' := s[|w|..];
        assert s == w + s' by { assert s[..|w|] == (w + more)[..|s|][..|w|] == w; }
        assert s' == (w + more)[..|s|][|w|..] == more[..|s'|];
        var j, f := StreamCut(q[1..], titles[1..], sum', s');
        k, frag := j + 1, f;
        assert q[..k][1..] == q[1..][..j] && titles[..k][1..] == titles[1..][..j];
        assert w + (W.Stream(q[1..][..j], titles[1..][..j], sum') + f) == (w + W.Stream(q[1..][..j], titles[1..][..j], sum')) + f;
      }
    }
  }

  lemma FragmentFront(frag: Text, lost: seq<Msg>, sum: nat, n: nat)
    requires Fragment(frag, lost, sum) && n <= |frag|
    ensures Fragment(frag[..n], lost, sum)
  {
    hide W.Written;
    if frag != [] {
      var title :| Frames.NUL !in title && frag < W.Written(lost[0], sum, title);
      assert frag[..n] < W.Written(lost[0], sum, title);
    }
  }

  /** A line that is cut is one of fewer messages, the first of those lost being the next one there was. */
  lemma LineCut(s: Text, q: seq<Msg>, lost: seq<Msg>, sum: nat, up: bool, n: nat) returns (k: nat, lost': seq<Msg>)
    requires OnLine(s, q, lost, sum, up) && n <= |s|
    ensures k <= |q| && q[..k] + lost' <= q + lost && OnLine(s[..n], q[..k], lost', sum, false)
  {
    hide OnLine, Fragment, W.Written, W.Stream, W.SumAfter;
    var titles, frag := Parts(s, q, lost, sum, up);
    var w := W.Stream(q, titles, sum);
    if n < |w| {
      assert s[..n] == w[..n];
      var f;
      k, f := StreamCut(q, titles, sum, s[..n]);
      lost' := [q[k]];
      PartOf(f, q[k], W.SumAfter(q[..k], sum), titles[k]);
      OnLineIs(s[..n], q[..k], lost', sum, false, titles[..k], f);
    } else {
      k, lost' := |q|, lost;
      assert q[..k] == q;
      FragmentFront(frag, lost, W.SumAfter(q, sum), n - |w|);
      assert s[..n] == w + frag[..n - |w|];
      OnLineIs(s[..n], q[..k], lost', sum, false, titles, frag[..n - |w|]);
    }
  }

  lemma PartOf(frag: Text, m: Msg, sum: nat, title: Text)
    requires frag < W.Written(m, sum, title) && Frames.NUL !in title
    ensures Fragment(frag, [m], sum)
  {
    hide W.Written;
  }

  // ----- what a station waits for -----

  /** In every phase the first message on its way is of the kind that its reader waits for. */
  lemma KindAsked(y: Station, x: Station, yx: seq<Msg>, xy: seq<Msg>, up: bool)
    requires Phase(y, x, yx, xy, up)
    ensures yx != [] && Reads(x.pc) ==> (yx[0].Data? <==> x.pc.Receive?)
    ensures xy != [] && Reads(y.pc) ==> (xy[0].Data? <==> y.pc.Receive?)
  {
    hide NoneMarked, Settled, Carries, Accepted, Careless, Leftover, Batch, Offered;
  }

  lemma KindsAsked(t: System)
    requires Inv(t)
    ensures t.ab != [] && Reads(t.b.pc) ==> (t.ab[0].Data? <==> t.b.pc.Receive?)
    ensures t.ba != [] && Reads(t.a.pc) ==> (t.ba[0].Data? <==> t.a.pc.Receive?)
  {
    hide Phase, Pair;
    if Phase(t.a, t.b, t.ab, t.ba, t.up) { KindAsked(t.a, t.b, t.ab, t.ba, t.up); } else { KindAsked(t.b, t.a, t.ba, t.ab, t.up); }
  }

  lemma {:induction false} SumKept(q: seq<Msg>, sum: nat)
    requires forall i :: 0 <= i < |q| ==> !q[i].FC? && !q[i].Prompt?
    ensures W.SumAfter(q, sum) == sum
  {
    if q != [] { SumKept(q[1..], sum); }
  }

  lemma {:induction false} PromptLast(q: seq<Msg>, sum: nat)
    ensures W.SumAfter(q + [Prompt], sum) == 0
  {
    if q == [] {
      assert q + [Prompt] == [Prompt];
      assert [Prompt][1..] == [];
    } else {
      PromptLast(q[1..], W.NextSum(q[0], sum));
      assert (q + [Prompt])[1..] == q[1..] + [Prompt];
    }
  }

  /** A batch is written whole, so the sum is zero behind whatever a station sends. */
  lemma OutboundSum(x: Station)
    requires x.pc.Turn? && x.next <= |x.props|
    ensures W.SumAfter(Outbound(x).1, 0) == 0
  {
    hide W.SumAfter;
    if x.next < |x.props| { PromptLast(Offers(Offered(x)), 0); } else { SumKept(Outbound(x).1, 0); }
  }

  lemma TakeSum(x: Station, m: Msg, ring: Ring)
    requires Reads(x.pc) && x.next <= |x.props|
    ensures W.SumAfter(Take(x, m, ring).1, 0) == 0
  {
    hide W.SumAfter, Accepted, DoDelete;
    if x.pc.AwaitFS? && m.FS? { AnswersData(x, m.answers); }
    SumKept(Take(x, m, ring).1, 0);
  }

  lemma AnswersData(x: Station, answers: seq<bool>)
    requires x.next <= |x.props|
    ensures forall i :: 0 <= i < |TakeAnswers(x, answers).1| ==> TakeAnswers(x, answers).1[i].Data?
  {
    TransfersData(Answered(x.props, x.next, answers), x.next, x.next + Size(x));
  }

  lemma {:induction false} TransfersData(ps: seq<Proposal>, lo: nat, hi: nat)
    requires lo <= hi <= |ps|
    ensures forall i :: 0 <= i < |Transfers(ps, lo, hi)| ==> Transfers(ps, lo, hi)[i].Data?
  {
    if lo < hi { TransfersData(ps, lo, hi - 1); }
  }

  // ----- a step over bytes is a step over messages -----

  /** The queues with the first of the messages lost. */
  function With(t: System, la: seq<Msg>, lb: seq<Msg>): System { t.(ab := t.ab + la, ba := t.ba + lb) }

  /** The bytes `u` are the messages `t`; `la` and `lb` are those lost of which a part may still come. */
  ghost predicate Like(u: Link, t: System, la: seq<Msg>, lb: seq<Msg>) {
    && u.a == t.a && u.b == t.b && u.up == t.up && Inv(With(t, la, lb))
    && OnLine(u.ab, t.ab, la, u.sumB, u.up) && OnLine(u.ba, t.ba, lb, u.sumA, u.up)
    && W.Compressibles(u.a) && W.Compressibles(u.b)
  }

  /** What comes next is of the kind that the station waits for, and can be read. */
  ghost predicate Readable(x: Station, q: seq<Msg>) {
    W.AllCarriable(q) && (q != [] && Reads(x.pc) ==> (q[0].Data? <==> x.pc.Receive?))
  }

  /** A station that goes on over bytes does what it does over messages. */
  lemma GoMoves(x: Station, s: Text, q: seq<Msg>, lost: seq<Msg>, sum: nat, up: bool, ring: Ring)
    requires OnLine(s, q, lost, sum, up) && Readable(x, q + lost) && CanGo(x, s, sum)
    ensures CanMove(x, q)
    ensures var ((x', q', out), (y', rest, sum', out')) := (Moved(x, q, ring), Gone(x, s, sum, ring));
      y' == x' && out' == out && OnLine(rest, q', lost, sum', up) && W.SumAfter(out, 0) == 0
  {
    hide OnLine, W.ReadOne, W.NextSum, W.SumAfter, W.Carriable, Take, Outbound;
    if x.pc.Turn? {
      OutboundSum(x);
    } else {
      if q == [] {
        assert q + lost == lost;
        LineEnds(s, lost, sum, up, x.pc.Receive?);
      }
      assert (q + lost)[0] == q[0];
      var rest := LineReads(s, q, lost, sum, up);
      TakeSum(x, q[0], ring);
    }
  }

  lemma LineWrote(s: Text, q: seq<Msg>, lost: seq<Msg>, sum: nat, up: bool, out: seq<Msg>, titles: seq<Text>)
    requires OnLine(s, q, lost, sum, up) && Titled(out, titles) && W.SumAfter(out, 0) == 0
    ensures OnLine(Wrote(up, s, out, titles), Sent(up, q, out), lost, sum, up)
  {
    hide W.SumAfter, W.Stream, Titled;
    if up {
      NoneLost(s, q, lost, sum);
      LineSends(s, q, sum, out, titles);
    }
  }

  lemma NoneLost(s: Text, q: seq<Msg>, lost: seq<Msg>, sum: nat)
    requires OnLine(s, q, lost, sum, true)
    ensures lost == []
  {
  }

  /** The messages lost make no difference to a station that goes on. */
  lemma MovedWith(x: Station, q: seq<Msg>, lost: seq<Msg>, ring: Ring)
    requires CanMove(x, q)
    ensures CanMove(x, q + lost)
    ensures var (x', q', out) := Moved(x, q, ring); Moved(x, q + lost, ring) == (x', q' + lost, out) && x'.posted == x.posted
  {
    hide Archive.Unpacked, Replies, Accepted;
    if !x.pc.Turn? { assert (q + lost)[0] == q[0] && (q + lost)[1..] == q[1..] + lost; }
  }

  lemma SentWith(up: bool, q: seq<Msg>, lost: seq<Msg>, out: seq<Msg>)
    requires up ==> lost == []
    ensures Sent(up, q + lost, out) == Sent(up, q, out) + lost
  {
    if up { assert q + [] == q && (q + out) + [] == q + out; }
  }

  lemma LostNone(s: Text, q: seq<Msg>, lost: seq<Msg>, sum: nat, up: bool)
    requires OnLine(s, q, lost, sum, up)
    ensures up ==> lost == []
  {
  }

  /** What can be read in a state of the exchange. */
  lemma LikeReadable(u: Link, t: System, la: seq<Msg>, lb: seq<Msg>)
    requires Like(u, t, la, lb)
    ensures Readable(t.a, t.ba + lb) && Readable(t.b, t.ab + la)
  {
    hide OnLine, W.Compressibles, Inv, W.Carriable;
    W.PhaseQueues(With(t, la, lb));
    KindsAsked(With(t, la, lb));
  }

  lemma FirstGoes(u: Link, t: System, la: seq<Msg>, lb: seq<Msg>, ring: Ring, titles: seq<Text>)
    requires Like(u, t, la, lb) && Able(u, Go(true, ring, titles))
    ensures Enabled(t, Move(true, ring)) && Like(Do(u, Go(true, ring, titles)), Apply(t, Move(true, ring)), la, lb)
  {
    hide OnLine, Inv, Gone, Moved, CanGo, CanMove, Titled, Readable, Wrote, Sent, W.SumAfter;
    LikeReadable(u, t, la, lb);
    GoMoves(u.a, u.ba, t.ba, lb, u.sumA, u.up, ring);
    var (a, ba, out) := Moved(t.a, t.ba, ring);
    LineWrote(u.ab, t.ab, la, u.sumB, u.up, out, titles);
    MovedWith(t.a, t.ba, lb, ring);
    LostNone(u.ab, t.ab, la, u.sumB, u.up);
    SentWith(u.up, t.ab, la, out);
    assert Apply(With(t, la, lb), Move(true, ring)) == With(Apply(t, Move(true, ring)), la, lb);
    StepKeeps(With(t, la, lb), Move(true, ring));
  }

  lemma SecondGoes(u: Link, t: System, la: seq<Msg>, lb: seq<Msg>, ring: Ring, titles: seq<Text>)
    requires Like(u, t, la, lb) && Able(u, Go(false, ring, titles))
    ensures Enabled(t, Move(false, ring)) && Like(Do(u, Go(false, ring, titles)), Apply(t, Move(false, ring)), la, lb)
  {
    hide OnLine, Inv, Gone, Moved, CanGo, CanMove, Titled, Readable, Wrote, Sent, W.SumAfter;
    LikeReadable(u, t, la, lb);
    GoMoves(u.b, u.ab, t.ab, la, u.sumB, u.up, ring);
    var (b, ab, out) := Moved(t.b, t.ab, ring);
    LineWrote(u.ba, t.ba, lb, u.sumA, u.up, out, titles);
    MovedWith(t.b, t.ab, la, ring);
    LostNone(u.ba, t.ba, lb, u.sumA, u.up);
    SentWith(u.up, t.ba, lb, out);
    assert Apply(With(t, la, lb), Move(false, ring)) == With(Apply(t, Move(false, ring)), la, lb);
    StepKeeps(With(t, la, lb), Move(false, ring));
  }

  /** Over a link cut at any byte what still arrives is a front of the messages, and part of the next. */
  lemma LinkBreaks(u: Link, t: System, la: seq<Msg>, lb: seq<Msg>, n: nat, m: nat)
    returns (e: Event, la': seq<Msg>, lb': seq<Msg>)
    requires Like(u, t, la, lb) && Able(u, Break(n, m))
    ensures Enabled(t, e) && Like(Do(u, Break(n, m)), Apply(t, e), la', lb')
  {
    hide OnLine, Inv;
    var i, j;
    i, la' := LineCut(u.ab, t.ab, la, u.sumB, u.up, n);
    j, lb' := LineCut(u.ba, t.ba, lb, u.sumA, u.up, m);
    e := Event.Cut(i, j);
    var s := With(t, la, lb);
    var ab, ba := t.ab[..i] + la', t.ba[..j] + lb';
    assert s.ab[..|ab|] == ab && s.ba[..|ba|] == ba;
    StepKeeps(s, Event.Cut(|ab|, |ba|));
    assert Apply(s, Event.Cut(|ab|, |ba|)) == With(Apply(t, e), la', lb');
  }

  lemma OnLineCut(s: Text, q: seq<Msg>, lost: seq<Msg>, sum: nat, up: bool)
    requires OnLine(s, q, lost, sum, up)
    ensures OnLine(s, q, lost, sum, false)
  {
    hide Consists;
  }

  lemma NewLine()
    ensures OnLine([], [], [], 0, true)
  {
    assert Consists([], [], [], 0, [], []);
  }

  lemma OthersSame(u: Link, t: System, la: seq<Msg>, lb: seq<Msg>, e: Event) returns (la': seq<Msg>, lb': seq<Msg>)
    requires Like(u, t, la, lb) && Able(u, Other(e))
    ensures Enabled(t, e) && Like(Do(u, Other(e)), Apply(t, e), la', lb')
  {
    hide OnLine, Inv, Apply, Enabled, Do, W.Compressibles, Compressible;
    OthersStations(u, t, e);
    OthersEnabled(With(t, la, lb), t, e);
    StepKeeps(With(t, la, lb), e);
    OthersWith(t, la, lb, e);
    OthersPosted(Bare(u), e);
    la', lb' := if e.Connect? then [] else la, if e.Connect? then [] else lb;
    OthersLines(u, t, la, lb, e);
  }

  lemma OthersEnabled(s: System, t: System, e: Event)
    requires Enabled(t, e) && !e.Move? && !e.Cut? && s.a == t.a && s.b == t.b
    ensures Enabled(s, e)
  {
    hide Lists;
  }

  lemma OthersStations(u: Link, t: System, e: Event)
    requires Able(u, Other(e)) && u.a == t.a && u.b == t.b && u.up == t.up
    ensures !e.Move? && !e.Cut? && Enabled(Bare(u), e) && Enabled(t, e) && (e.Post? ==> Compressible(e.body))
    ensures var (v, t', w) := (Do(u, Other(e)), Apply(t, e), Apply(Bare(u), e));
      v.a == t'.a == w.a && v.b == t'.b == w.b && v.up == t'.up
  {
    hide Apply, Enabled, Compressible;
    OthersEnabled(t, Bare(u), e);
    OthersApply(Bare(u), t, e);
  }

  lemma OthersApply(s: System, t: System, e: Event)
    requires Enabled(s, e) && Enabled(t, e) && !e.Move? && !e.Cut? && s.a == t.a && s.b == t.b && s.up == t.up
    ensures Apply(s, e).a == Apply(t, e).a && Apply(s, e).b == Apply(t, e).b && Apply(s, e).up == Apply(t, e).up
    ensures e.Connect? ==> Apply(s, e).up
  {
    hide Begin, Lists, Posted;
  }

  lemma OthersLines(u: Link, t: System, la: seq<Msg>, lb: seq<Msg>, e: Event)
    requires Able(u, Other(e)) && u.a == t.a && u.b == t.b && u.up == t.up && Enabled(t, e)
    requires OnLine(u.ab, t.ab, la, u.sumB, u.up) && OnLine(u.ba, t.ba, lb, u.sumA, u.up)
    ensures var (v, t', l, m) := (Do(u, Other(e)), Apply(t, e), if e.Connect? then [] else la, if e.Connect? then [] else lb);
      OnLine(v.ab, t'.ab, l, v.sumB, v.up) && OnLine(v.ba, t'.ba, m, v.sumA, v.up)
  {
    hide OnLine, Begin, Lists, Posted, Compressible;
    if e.Connect? {
      NewLine();
    } else {
      OnLineCut(u.ab, t.ab, la, u.sumB, u.up);
      OnLineCut(u.ba, t.ba, lb, u.sumA, u.up);
    }
  }

  lemma OthersWith(t: System, la: seq<Msg>, lb: seq<Msg>, e: Event)
    requires Enabled(t, e) && !e.Move? && !e.Cut?
    ensures Enabled(With(t, la, lb), e)
    ensures var (t', s) := (Apply(t, e), Apply(With(t, la, lb), e)); if e.Connect? then s == With(t', [], []) else s == With(t', la, lb)
  {
    hide Begin, Lists, Posted;
  }

  lemma OthersPosted(t: System, e: Event)
    requires W.Compressibles(t.a) && W.Compressibles(t.b) && Enabled(t, e) && !e.Move? && (e.Post? ==> Compressible(e.body))
    ensures W.Compressibles(Apply(t, e).a) && W.Compressibles(Apply(t, e).b)
  {
    hide Compressible, Lists;
  }

  /** A step over bytes is a step over messages. */
  lemma StepLike(u: Link, t: System, la: seq<Msg>, lb: seq<Msg>, c: Act) returns (e: Event, la': seq<Msg>, lb': seq<Msg>)
    requires Like(u, t, la, lb) && Able(u, c)
    ensures Enabled(t, e) && Like(Do(u, c), Apply(t, e), la', lb')
  {
    hide Like, Able, Do, Enabled, Apply;
    la', lb' := la, lb;
    match c
    case Go(first, ring, titles) =>
      e := Move(first, ring);
      if first { FirstGoes(u, t, la, lb, ring, titles); } else { SecondGoes(u, t, la, lb, ring, titles); }
    case Break(n, m) => e, la', lb' := LinkBreaks(u, t, la, lb, n, m);
    case Other(o) =>
      e := o;
      la', lb' := OthersSame(u, t, la, lb, o);
  }

  // ----- runs -----

  ghost predicate IsLinkRun(u: Link, cs: seq<Act>)
    decreases |cs|, 0
  {
    cs == [] || (IsLinkRun(u, cs[..|cs| - 1]) && Able(LinkAfter(u, cs[..|cs| - 1]), cs[|cs| - 1]))
  }

  ghost function LinkAfter(u: Link, cs: seq<Act>): Link
    requires IsLinkRun(u, cs)
    decreases |cs|, 1
  {
    if cs == [] then u else Do(LinkAfter(u, cs[..|cs| - 1]), cs[|cs| - 1])
  }

  /** Two stations that have never exchanged anything, and a link that is not up. */
  ghost predicate Idle(u: Link) {
    Empty(u.a) && Empty(u.b) && u.ab == [] && u.ba == [] && u.sumA == u.sumB == 0 && !u.up
  }

  /** Every run over bytes is a run over messages, and ends with the same stations. */
  lemma {:induction false} RunLike(u: Link, cs: seq<Act>) returns (es: seq<Event>, la: seq<Msg>, lb: seq<Msg>)
    requires Idle(u) && IsLinkRun(u, cs)
    ensures IsRun(Bare(u), es) && Like(LinkAfter(u, cs), After(Bare(u), es), la, lb)
  {
    hide Able, Do, Apply, Enabled, Like, Idle;
    if cs == [] {
      es, la, lb := [], [], [];
      IdleLike(u);
    } else {
      var before := cs[..|cs| - 1];
      es, la, lb := RunLike(u, before);
      var e;
      e, la, lb := StepLike(LinkAfter(u, before), After(Bare(u), es), la, lb, cs[|cs| - 1]);
      assert (es + [e])[..|es|] == es;
      es := es + [e];
    }
  }

  lemma IdleLike(u: Link)
    requires Idle(u)
    ensures Like(u, Bare(u), [], [])
  {
    hide OnLine;
    InitialInv(Bare(u));
    NewLine();
    OnLineCut([], [], [], 0, true);
    assert With(Bare(u), [], []) == Bare(u);
  }

  /** So over a link of bytes that is cut anywhere the exchange is as safe as over messages. */
  lemma LinksSafe(u: Link, cs: seq<Act>)
    requires Idle(u) && IsLinkRun(u, cs)
    ensures var v := LinkAfter(u, cs); Safe(v.a, v.b) && Safe(v.b, v.a)
  {
    hide IsLinkRun, LinkAfter, Idle, Safe, IsRun, After, OnLine, Inv;
    var es, la, lb := RunLike(u, cs);
    BareInitial(u);
    AlwaysSafe(Bare(u), es);
  }

  lemma BareInitial(u: Link)
    requires Idle(u)
    ensures Initial(Bare(u))
  {
  }
}
