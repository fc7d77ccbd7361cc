/**
  A session over a link that is not cut: it comes to an end, with one FQ, and then everything
  that was proposed has been handled and unlinked.
 */
module Session {
  import opened Mids
  import opened Station
  import opened Exchange
  import Archive

  // ----- the end is reached -----

  /** Proposals of `x` that have not been sent yet. */
  function Unsent(x: Station): int {
    if x.next > |x.props| || x.pc.Error? then 0
    else |x.props| - x.next - (if x.pc.AwaitFS? then Size(x) else 0)
  }

  function MsgWeight(m: Msg): nat {
    match m
    case FC(_, _, _) => 1
    case Prompt => 11
    case FS(_) => 6
    case Data(_) => 1
    case FF => 3
    case FQ => 1
  }

  function QueueWeight(q: seq<Msg>): nat {
    if q == [] then 0 else QueueWeight(q[..|q| - 1]) + MsgWeight(q[|q| - 1])
  }

  /** Turns alternate: a station without proposals passes, and the turn after that is the last or proposes. */
  function PcWeight(pc: Pc): nat {
    match pc
    case Turn(afterFF) => if afterFF then 2 else 4
    case Receive(_) => 4
    case _ => 0
  }

  function StationWeight(x: Station): int { 30 * Unsent(x) + PcWeight(x.pc) }

  function Rank(s: System): int {
    StationWeight(s.a) + StationWeight(s.b) + QueueWeight(s.ab) + QueueWeight(s.ba)
  }

  lemma {:induction false} WeightConcat(p: seq<Msg>, q: seq<Msg>)
    ensures QueueWeight(p + q) == QueueWeight(p) + QueueWeight(q)
  {
    if q == [] {
      assert p + q == p;
    } else {
      WeightConcat(p, q[..|q| - 1]);
      assert (p + q)[..|p + q| - 1] == p + q[..|q| - 1];
    }
  }

  lemma WeightHead(q: seq<Msg>)
    requires q != []
    ensures QueueWeight(q) == MsgWeight(q[0]) + QueueWeight(q[1..])
  {
    WeightConcat(q[..1], q[1..]);
    assert q == q[..1] + q[1..];
    assert q[..1][..0] == [];
  }

  lemma {:induction false} WeightSmall(q: seq<Msg>)
    requires forall i :: 0 <= i < |q| ==> MsgWeight(q[i]) == 1
    ensures QueueWeight(q) == |q|
  {
    if q != [] { WeightSmall(q[..|q| - 1]); }
  }

  lemma OutboundDecreases(x: Station)
    requires x.pc.Turn? && x.next <= |x.props|
    ensures var (x', out) := Outbound(x); StationWeight(x') + QueueWeight(out) < StationWeight(x)
  {
    hide QueueWeight, Offered;
    OneWeight(Prompt);
    OneWeight(FF);
    OneWeight(FQ);
    if x.next < |x.props| {
      WeightSmall(Offers(Offered(x)));
      WeightConcat(Offers(Offered(x)), [Prompt]);
    }
  }

  lemma OneWeight(m: Msg)
    ensures QueueWeight([m]) == MsgWeight(m)
  {
    assert [m][..0] == [];
  }

  lemma {:induction false} FewTransfers(ps: seq<Proposal>, lo: nat, hi: nat)
    requires lo <= hi <= |ps|
    ensures |Transfers(ps, lo, hi)| <= hi - lo
    ensures forall i :: 0 <= i < |Transfers(ps, lo, hi)| ==> Transfers(ps, lo, hi)[i].Data?
  {
    if lo < hi { FewTransfers(ps, lo, hi - 1); }
  }

  lemma AnswersDecrease(x: Station, answers: seq<bool>)
    requires x.pc.AwaitFS? && x.next <= |x.props|
    ensures var (x', out) := TakeAnswers(x, answers); StationWeight(x') + QueueWeight(out) <= StationWeight(x) + PROPLIMIT
    ensures forall i :: 0 <= i < |TakeAnswers(x, answers).1| ==> TakeAnswers(x, answers).1[i].Data?
  {
    FewTransfers(Answered(x.props, x.next, answers), x.next, x.next + Size(x));
    WeightSmall(TakeAnswers(x, answers).1);
  }

  lemma TakeDecreases(x: Station, msg: Msg, ring: Ring)
    requires Reads(x.pc) && x.next <= |x.props|
    ensures var (x', out) := Take(x, msg, ring); StationWeight(x') + QueueWeight(out) < StationWeight(x) + MsgWeight(msg)
  {
    hide TakeAnswers, DoDelete, Replies, Accepted, Archive.Unpacked;
    if x.pc.AwaitFS? {
      if msg.FS? { AnswersDecrease(x, msg.answers); }
    } else if x.pc.Listen? {
      DeleteNext(x);
      if msg.Prompt? && x.pc.offers != [] { OneWeight(Take(x, msg, ring).1[0]); }
    }
  }

  /** Every move brings the end nearer. */
  lemma MoveDecreases(s: System, e: Event)
    requires Enabled(s, e) && e.Move?
    ensures Rank(Apply(s, e)) < Rank(s)
  {
    hide Take, Outbound, StationWeight;
    var x, inq := if e.first then s.a else s.b, if e.first then s.ba else s.ab;
    var outq := if e.first then s.ab else s.ba;
    var (x', inq', out) := Moved(x, inq, e.ring);
    WeightConcat(outq, out);
    if x.pc.Turn? {
      OutboundDecreases(x);
    } else {
      TakeDecreases(x, inq[0], e.ring);
      WeightHead(inq);
    }
  }

  lemma RankPositive(s: System)
    ensures Rank(s) >= 0
  {
    assert Unsent(s.a) >= 0 && Unsent(s.b) >= 0;
  }

  /** Time passes, or a message is posted: nothing of the session changes. */
  lemma OthersKeepRank(s: System, e: Event)
    requires Enabled(s, e) && (e.Wait? || e.Post?)
    ensures Rank(Apply(s, e)) == Rank(s)
  {
  }

  /** The link is not cut, no station stops, and the two do not connect anew. */
  ghost predicate Unbroken(es: seq<Event>) {
    forall i :: 0 <= i < |es| ==> es[i].Move? || es[i].Wait? || es[i].Post?
  }

  /** How often one of the stations went on. */
  function Moves(es: seq<Event>): nat {
    if es == [] then 0 else Moves(es[..|es| - 1]) + (if es[|es| - 1].Move? then 1 else 0)
  }

  /** However much time passes and whatever is posted, a session has at most as many moves as its rank at the start says. */
  lemma {:induction false} SessionLength(s: System, es: seq<Event>)
    requires IsRun(s, es) && Unbroken(es)
    ensures Moves(es) + Rank(After(s, es)) <= Rank(s)
    ensures Moves(es) <= Rank(s)
  {
    hide Rank, Apply, Enabled;
    RankPositive(After(s, es));
    if es != [] {
      var us, e := es[..|es| - 1], es[|es| - 1];
      SessionLength(s, us);
      if e.Move? { MoveDecreases(After(s, us), e); } else { OthersKeepRank(After(s, us), e); }
    }
  }

  // ----- what holds when nothing more can happen -----

  predicate Running(s: System) { s.up && s.a.alive && s.b.alive }

  lemma PhaseGoesOn(y: Station, x: Station, yx: seq<Msg>, xy: seq<Msg>)
    requires Pair(y, x) && Phase(y, x, yx, xy, true) && y.alive && x.alive
    ensures CanMove(y, xy) || CanMove(x, yx) || Over(y, x, yx, xy) || Failed(y, x, yx, xy)
  {
    hide NoneMarked, Settled, Accepted, Own, NoLoss, Genuine, StoreOk, LongAgo, Encodes, Careless, Leftover;
    OwnNext(y);
    OwnNext(x);
    assert TodoOk(x, y.posted);
  }

  /** All proposals of `x` have been made; each is unlinked here, and has reached `y`. */
  ghost predicate Handled(x: Station, y: Station) {
    x.next == |x.props| && forall i :: 0 <= i < |x.props| ==> x.props[i].mid !in x.outbox && Delivered(y.mail, x.props[i].mid)
  }

  lemma OverHandled(y: Station, x: Station, yx: seq<Msg>, xy: seq<Msg>)
    requires Pair(y, x) && Over(y, x, yx, xy)
    ensures Handled(y, x) && Handled(x, y)
  {
    hide Mailbox, Delivered, Encodes, Sendable;
    assert Own(y) && Own(x);
    assert Mailbox(x, y.posted) && Mailbox(y, x.posted);
    forall i | 0 <= i < |y.props| ensures y.props[i].mid !in y.outbox && Delivered(x.mail, y.props[i].mid) {
      assert y.props[i].mid in y.posted;
    }
    forall i | 0 <= i < |x.props| ensures x.props[i].mid !in x.outbox && Delivered(y.mail, x.props[i].mid) {
      assert x.props[i].mid in x.posted;
    }
  }

  /** A station has ended in an error, and the other has posted a message that the codec does not carry. */
  ghost predicate Unrecovered(s: System) {
    (s.a.pc == Error && Careless(s.b)) || (s.b.pc == Error && Careless(s.a))
  }

  /** While the link is up one of the two can go on, until both have left and everything proposed has been handled, or a
      message could not be recovered, which takes one that the codec does not carry. */
  lemma NeverStuck(s: System)
    requires Inv(s) && Running(s)
    ensures
      || CanMove(s.a, s.ba) || CanMove(s.b, s.ab)
      || (s.a.pc == Done && s.b.pc == Done && s.ab == [] && s.ba == [] && Handled(s.a, s.b) && Handled(s.b, s.a))
      || Unrecovered(s)
  {
    hide Pair, Phase, Handled, Careless;
    PairSwap(s.a, s.b);
    if Phase(s.a, s.b, s.ab, s.ba, true) {
      PhaseGoesOn(s.a, s.b, s.ab, s.ba);
      if Over(s.a, s.b, s.ab, s.ba) { OverHandled(s.a, s.b, s.ab, s.ba); }
    } else {
      PhaseGoesOn(s.b, s.a, s.ba, s.ab);
      if Over(s.b, s.a, s.ba, s.ab) { OverHandled(s.b, s.a, s.ba, s.ab); }
    }
  }

  // ----- one FQ -----

  /** How many moves of the session were the sending of FQ. */
  ghost function Farewells(s: System, es: seq<Event>): nat
    requires IsRun(s, es)
  {
    if es == [] then 0
    else Farewells(s, es[..|es| - 1]) + (if Leaves(After(s, es[..|es| - 1]), es[|es| - 1]) then 1 else 0)
  }

  ghost predicate Leaves(s: System, e: Event)
    requires Enabled(s, e)
  {
    match e
    case Move(true, ring) => Moved(s.a, s.ba, ring).2 == [FQ]
    case Move(false, ring) => Moved(s.b, s.ab, ring).2 == [FQ]
    case _ => false
  }

  function Gone(x: Station): int { if x.pc == Done then 1 else 0 }

  function Waiting(q: seq<Msg>): nat {
    if q == [] then 0 else Waiting(q[..|q| - 1]) + (if q[|q| - 1] == FQ then 1 else 0)
  }

  lemma {:induction false} WaitingConcat(p: seq<Msg>, q: seq<Msg>)
    ensures Waiting(p + q) == Waiting(p) + Waiting(q)
  {
    if q == [] {
      assert p + q == p;
    } else {
      WaitingConcat(p, q[..|q| - 1]);
      assert (p + q)[..|p + q| - 1] == p + q[..|q| - 1];
    }
  }

  lemma {:induction false} NoneWaiting(q: seq<Msg>)
    requires forall i :: 0 <= i < |q| ==> q[i] != FQ
    ensures Waiting(q) == 0
  {
    if q != [] { NoneWaiting(q[..|q| - 1]); }
  }

  lemma WaitingHead(q: seq<Msg>)
    requires q != []
    ensures Waiting(q) == (if q[0] == FQ then 1 else 0) + Waiting(q[1..])
  {
    WaitingConcat(q[..1], q[1..]);
    assert q == q[..1] + q[1..];
    assert q[..1][..0] == [];
  }

  lemma OutboundLeaves(x: Station)
    requires x.pc.Turn? && x.next <= |x.props|
    ensures var (x', out) := Outbound(x); Gone(x') + Waiting(out) == if out == [FQ] then 2 else 0
  {
    var (x', out) := Outbound(x);
    if out == [FQ] {
      assert [FQ][..0] == [];
      assert Waiting([FQ]) == 1;
    } else {
      NoneWaiting(out);
    }
  }

  lemma TakeLeaves(x: Station, msg: Msg, ring: Ring)
    requires Reads(x.pc) && x.next <= |x.props| && Take(x, msg, ring).0.pc != Error
    ensures var (x', out) := Take(x, msg, ring); Gone(x') == (if msg == FQ then 1 else 0) && Waiting(out) == 0 && out != [FQ]
  {
    hide TakeAnswers, DoDelete, Replies, Accepted, Archive.Unpacked;
    if x.pc.AwaitFS? {
      AnswersDecrease(x, msg.answers);
      AnswersListen(x, msg.answers);
    }
    NoneWaiting(Take(x, msg, ring).1);
  }

  lemma AnswersListen(x: Station, answers: seq<bool>)
    requires x.next <= |x.props|
    ensures TakeAnswers(x, answers).0.pc == Listen([])
  {
  }

  /** A station leaves by sending FQ or by reading it. */
  lemma MoveLeaves(x: Station, inq: seq<Msg>, ring: Ring)
    requires CanMove(x, inq) && Moved(x, inq, ring).0.pc != Error
    ensures var (x', inq', out) := Moved(x, inq, ring);
      x.pc != Done && Gone(x') + Waiting(inq') + Waiting(out) == Waiting(inq) + (if out == [FQ] then 2 else 0)
  {
    hide Take, Outbound;
    if x.pc.Turn? {
      OutboundLeaves(x);
    } else {
      WaitingHead(inq);
      TakeLeaves(x, inq[0], ring);
    }
  }

  predicate NoError(s: System) { s.a.pc != Error && s.b.pc != Error }

  /** While no station has ended in an error, FQ has been sent once for every two that have left or have it on its way to
      them. */
  lemma {:induction false} CountFarewells(s: System, es: seq<Event>)
    requires Inv(s) && Running(s) && s.a.pc != Done && s.b.pc != Done && s.ab == [] && s.ba == []
    requires IsRun(s, es) && Unbroken(es)
    ensures Inv(After(s, es)) && Running(After(s, es))
    ensures NoError(After(s, es)) ==> 2 * Farewells(s, es) == Leaving(After(s, es))
  {
    hide Inv, Pair, Phase, Moved, CanMove, Apply, Enabled, Leaves, NoError;
    if es != [] {
      var t, e := After(s, es[..|es| - 1]), es[|es| - 1];
      CountFarewells(s, es[..|es| - 1]);
      StepKeeps(t, e);
      StillRunning(t, e);
      if NoError(Apply(t, e)) {
        ErrorStays(t, e);
        if e.Move? {
          MoveCounts(t, e);
        } else {
          OthersCount(t, e);
        }
      }
    }
  }

  /** A station that has ended in an error stays so until the two connect anew. */
  lemma ErrorStays(s: System, e: Event)
    requires Enabled(s, e) && (e.Move? || e.Wait? || e.Post?) && NoError(Apply(s, e))
    ensures NoError(s)
  {
    hide Moved;
  }

  lemma StillRunning(s: System, e: Event)
    requires Enabled(s, e) && (e.Move? || e.Wait? || e.Post?) && Running(s)
    ensures Running(Apply(s, e))
  {
    hide Moved, CanMove;
    if e.Move? {
      if e.first { MovedAlive(s.a, s.ba, e.ring); } else { MovedAlive(s.b, s.ab, e.ring); }
    }
  }

  lemma MovedAlive(x: Station, inq: seq<Msg>, ring: Ring)
    requires CanMove(x, inq)
    ensures Moved(x, inq, ring).0.alive == x.alive
  {
    hide Archive.Unpacked, Replies, Accepted;
  }

  /** How many have left, or have the other's FQ on its way to them. */
  function Leaving(s: System): int { Gone(s.a) + Gone(s.b) + Waiting(s.ab) + Waiting(s.ba) }

  lemma MoveCounts(s: System, e: Event)
    requires Enabled(s, e) && e.Move? && s.up && NoError(Apply(s, e))
    ensures Leaving(Apply(s, e)) == Leaving(s) + (if Leaves(s, e) then 2 else 0)
  {
    hide Moved, CanMove;
    if e.first {
      MoveLeaves(s.a, s.ba, e.ring);
      WaitingConcat(s.ab, Moved(s.a, s.ba, e.ring).2);
    } else {
      MoveLeaves(s.b, s.ab, e.ring);
      WaitingConcat(s.ba, Moved(s.b, s.ab, e.ring).2);
    }
  }

  lemma OthersCount(s: System, e: Event)
    requires Enabled(s, e) && (e.Wait? || e.Post?)
    ensures Leaving(Apply(s, e)) == Leaving(s) && !Leaves(s, e)
  {
  }

  /** A session that goes on until it can go on no longer has handled every proposal and has seen one FQ, or a message
      could not be recovered. */
  lemma SessionEnds(s: System, es: seq<Event>)
    requires Inv(s) && Running(s) && s.a.pc != Done && s.b.pc != Done && s.ab == [] && s.ba == []
    requires IsRun(s, es) && Unbroken(es)
    requires var t := After(s, es); !CanMove(t.a, t.ba) && !CanMove(t.b, t.ab)
    ensures var t := After(s, es); Unrecovered(t) || (Handled(t.a, t.b) && Handled(t.b, t.a) && Farewells(s, es) == 1)
  {
    hide Inv, Enabled, Handled, After, Farewells, Careless;
    CountFarewells(s, es);
    NeverStuck(After(s, es));
  }
}
