/**
  Two stations and the link between them: every run keeps the messages safe, and a session over
  an uncut link comes to an end.
 */
module Exchange {
  import opened Mids
  import opened Bytes
  import opened Options
  import opened Station
  import Archive
  import Proposals

  // ----- what one station keeps -----

  /** The proposals are messages posted here, each once; those gone over are unlinked or about to be. */
  ghost predicate Own(s: Station) {
    match s case Station(posted, outbox, props, next, _, _, _, _, _) =>
      && next <= |props|
      && (forall i, j :: 0 <= i < j < |props| ==> props[i].mid != props[j].mid)
      && (forall i :: 0 <= i < |props| ==> props[i].mid in posted && props[i].usize == |posted[props[i].mid]|)
      && (forall i :: 0 <= i < |props| ==> props[i].mid in posted && Encodes(props[i].file, posted[props[i].mid]))
      && (forall i :: next <= i < |props| ==> !props[i].delete)
      && (forall i :: 0 <= i < next ==> props[i].delete || props[i].mid !in outbox)
      && (forall m :: m in outbox ==> m in posted && outbox[m] == posted[m])
      && (forall m :: m in posted ==> Proposals.MidOk(m))
  }

  ghost predicate Delivered(mail: seq<Delivery>, m: Mid) {
    exists j :: 0 <= j < |mail| && mail[j].mid == m
  }

  /** No delivery of `m` is within thirty days of `now`. */
  ghost predicate LongAgo(mail: seq<Delivery>, m: Mid, now: int) {
    forall j :: 0 <= j < |mail| && mail[j].mid == m ==> now - mail[j].time > EXPIRE
  }

  /** No id has been delivered twice within thirty days. */
  ghost predicate NoDuplicates(mail: seq<Delivery>) {
    forall i, j :: 0 <= i < j < |mail| && mail[i].mid == mail[j].mid ==> mail[j].time - mail[i].time > EXPIRE
  }

  /** Everything delivered is what the codec has made of what was posted under its id. */
  ghost predicate Genuine(mail: seq<Delivery>, posted: map<Mid, Body>) {
    forall j :: 0 <= j < |mail| ==> mail[j].mid in posted && Yields(posted[mail[j].mid], mail[j].body)
  }

  /** Some message posted here is one that the codec does not carry. */
  ghost predicate Careless(y: Station) {
    exists m :: m in y.posted && !Sendable(y.posted[m])
  }

  /** The store knows what has been delivered in the last thirty days; it holds nothing but ids of deliveries and of
      messages posted here. */
  ghost predicate StoreOk(db: Db, mail: seq<Delivery>, own: map<Mid, Body>, now: int) {
    && (forall m :: m in db ==> Delivered(mail, m) || m in own)
    && (forall j :: 0 <= j < |mail| ==> mail[j].time <= now)
    && (forall m :: Known(db, m, now) || LongAgo(mail, m, now))
    && (forall j :: 0 <= j < |mail| && mail[j].mid in db ==> mail[j].time <= db[mail[j].mid])
  }

  /** The accepted messages that are still to come. */
  ghost predicate TodoOk(s: Station, posted: map<Mid, Body>) {
    match s.pc
    case Receive(todo) =>
      && todo != []
      && (forall i, j :: 0 <= i < j < |todo| ==> todo[i] != todo[j])
      && (forall i :: 0 <= i < |todo| ==> todo[i] in posted && LongAgo(s.mail, todo[i], s.now))
    case _ => true
  }

  /** What station `s` has received from a station that has posted `posted`. */
  ghost predicate Mailbox(s: Station, posted: map<Mid, Body>) {
    Genuine(s.mail, posted) && NoDuplicates(s.mail) && StoreOk(s.db, s.mail, s.posted, s.now) && TodoOk(s, posted)
  }

  /** Every message posted at `x` is still in its outbox, or has been delivered to `y`. */
  ghost predicate NoLoss(x: Station, y: Station) {
    forall m :: m in x.posted ==> m in x.outbox || Delivered(y.mail, m)
  }

  /** The two stations do not give the same id: an id ends in the callsign. */
  ghost predicate Apart(x: Station, y: Station) { x.posted.Keys !! y.posted.Keys }

  // ----- where a session can be -----

  ghost predicate NoneMarked(x: Station) {
    forall i :: 0 <= i < |x.props| ==> !x.props[i].delete
  }

  /** What `x` is about to unlink, `y` has recorded. */
  ghost predicate Settled(x: Station, y: Station) {
    forall i :: 0 <= i < |x.props| && x.props[i].delete ==> x.props[i].mid in y.db
  }

  /** What is on its way is `full`, or the front of it when the link has been cut. */
  ghost predicate OnWay(up: bool, q: seq<Msg>, full: seq<Msg>) {
    q <= full && (up ==> q == full)
  }

  function Noes(n: nat): (r: seq<bool>)
    ensures |r| == n && forall i :: 0 <= i < n ==> !r[i]
  {
    seq(n, _ => false)
  }

  /** `x` listens, or will as soon as it has read the answers `pre`, which refuse its whole batch. */
  ghost predicate Pending(x: Station, y: Station, pre: seq<Msg>) {
    x.next <= |x.props| && if pre == [] then x.pc == Listen([]) else Refused(x, y, pre)
  }

  ghost predicate Refused(x: Station, y: Station, pre: seq<Msg>)
    requires x.next <= |x.props|
  {
    x.pc.AwaitFS? && x.next < |x.props| && NoneMarked(x) && pre == [FS(Noes(Size(x)))]
    && forall i :: 0 <= i < Size(x) ==> Batch(x)[i] in y.db
  }

  /** What is left to come of a batch of which `k` proposals have been read. */
  function Rest(y: Station, k: nat): seq<Msg>
    requires y.next <= |y.props| && k <= Size(y)
  {
    Offers(Offered(y)[k..]) + [Prompt]
  }

  /** `y` is about to propose. */
  ghost predicate HasTurn(y: Station, x: Station, yx: seq<Msg>, xy: seq<Msg>, up: bool, pre: seq<Msg>) {
    y.pc.Turn? && xy == [] && OnWay(up, yx, pre) && Pending(x, y, pre) && NoneMarked(y) && Settled(x, y)
    && (y.pc.afterFF ==> pre == [] && x.next == |x.props|)
  }

  /** `y` has sent a batch that `x` has not begun to read. */
  ghost predicate HasOffered(y: Station, x: Station, yx: seq<Msg>, xy: seq<Msg>, up: bool, pre: seq<Msg>) {
    y.pc.AwaitFS? && y.next < |y.props| && xy == [] && OnWay(up, yx, pre + Rest(y, 0))
    && Pending(x, y, pre) && NoneMarked(y) && Settled(x, y)
  }

  /** `x` has read some of the proposals of the batch. */
  ghost predicate Reading(y: Station, x: Station, yx: seq<Msg>, xy: seq<Msg>, up: bool) {
    y.pc.AwaitFS? && y.next < |y.props| && xy == [] && NoneMarked(y) && NoneMarked(x) && x.next <= |x.props|
    && x.pc.Listen? && 0 < |x.pc.offers| <= Size(y) && x.pc.offers == Batch(y)[..|x.pc.offers|]
    && OnWay(up, yx, Rest(y, |x.pc.offers|))
  }

  /** `x` has accepted some of the batch, and its answers are on their way. */
  ghost predicate HasAnswered(y: Station, x: Station, yx: seq<Msg>, xy: seq<Msg>, up: bool, answers: seq<bool>) {
    y.pc.AwaitFS? && y.next < |y.props| && yx == [] && NoneMarked(y) && NoneMarked(x) && x.next <= |x.props|
    && |answers| == Size(y) && OnWay(up, xy, [FS(answers)])
    && x.pc == Receive(Accepted(Batch(y), answers))
    && forall i :: 0 <= i < Size(y) && !answers[i] ==> Batch(y)[i] in x.db
  }

  function Datas(files: seq<File>): (r: seq<Msg>)
    ensures |r| == |files|
  {
    seq(|files|, i requires 0 <= i < |files| => Data(files[i]))
  }

  /** The files are the messages posted under the ids, compressed. */
  ghost predicate Carries(files: seq<File>, todo: seq<Mid>, posted: map<Mid, Body>) {
    |files| == |todo| && forall i :: 0 <= i < |todo| ==> todo[i] in posted && Encodes(files[i], posted[todo[i]])
  }

  /** `y` has sent the messages that `x` has accepted. */
  ghost predicate HasSent(y: Station, x: Station, yx: seq<Msg>, xy: seq<Msg>, up: bool, files: seq<File>) {
    y.pc == Listen([]) && x.pc.Receive? && xy == [] && NoneMarked(x) && x.next <= |x.props|
    && Carries(files, x.pc.todo, y.posted) && OnWay(up, yx, Datas(files))
    && forall i :: 0 <= i < |y.props| && y.props[i].delete ==> y.props[i].mid in x.db || y.props[i].mid in x.pc.todo
  }

  /** `y` has nothing left to propose and has said so. */
  ghost predicate HasPassed(y: Station, x: Station, yx: seq<Msg>, xy: seq<Msg>, up: bool, pre: seq<Msg>) {
    y.pc == Listen([]) && y.next == |y.props| && xy == [] && OnWay(up, yx, pre + [FF])
    && Pending(x, y, pre) && NoneMarked(y) && Settled(x, y)
  }

  /** Neither has anything left, and `y` has left with FQ. */
  ghost predicate HasLeft(y: Station, x: Station, yx: seq<Msg>, xy: seq<Msg>, up: bool) {
    y.pc == Done && x.pc == Listen([]) && xy == [] && OnWay(up, yx, [FQ])
    && y.next == |y.props| && x.next == |x.props| && NoneMarked(y) && Settled(x, y)
  }

  /** Both have left, with everything proposed and nothing left to unlink. */
  ghost predicate Over(y: Station, x: Station, yx: seq<Msg>, xy: seq<Msg>) {
    y.pc == Done && x.pc == Done && xy == [] && yx == []
    && y.next == |y.props| && x.next == |x.props| && NoneMarked(y) && NoneMarked(x)
  }

  /** A message that has been posted, compressed. */
  ghost predicate Packed(msg: Msg, posted: map<Mid, Body>) {
    msg.Data? && exists m :: m in posted && Encodes(msg.file, posted[m])
  }

  ghost predicate Leftover(q: seq<Msg>, posted: map<Mid, Body>) {
    forall i :: 0 <= i < |q| ==> Packed(q[i], posted)
  }

  /** `x` has ended over a message that could not be recovered. */
  ghost predicate Failed(y: Station, x: Station, yx: seq<Msg>, xy: seq<Msg>) {
    y.pc == Listen([]) && x.pc == Error && xy == [] && Leftover(yx, y.posted) && Careless(y)
  }

  /** The session as seen from `y`, who has acted last or is to act next. */
  ghost predicate Phase(y: Station, x: Station, yx: seq<Msg>, xy: seq<Msg>, up: bool) {
    || (exists pre :: HasTurn(y, x, yx, xy, up, pre))
    || (exists pre :: HasOffered(y, x, yx, xy, up, pre))
    || Reading(y, x, yx, xy, up)
    || (exists answers :: HasAnswered(y, x, yx, xy, up, answers))
    || (exists files :: HasSent(y, x, yx, xy, up, files))
    || (exists pre :: HasPassed(y, x, yx, xy, up, pre))
    || HasLeft(y, x, yx, xy, up)
    || Over(y, x, yx, xy)
    || Failed(y, x, yx, xy)
  }

  // ----- what each action does to one station -----

  lemma OwnPc(s: Station, pc: Pc)
    requires Own(s)
    ensures Own(s.(pc := pc))
  {
  }

  lemma MailboxPc(s: Station, posted: map<Mid, Body>, pc: Pc)
    requires Mailbox(s, posted) && !pc.Receive?
    ensures Mailbox(s.(pc := pc), posted)
  {
  }

  lemma DeleteOwn(x: Station)
    requires Own(x)
    ensures Own(DoDelete(x)) && NoneMarked(DoDelete(x))
  {
    hide Sendable, Encodes, Proposals.MidOk;
    var d := Doomed(x);
    assert forall i :: 0 <= i < x.next && x.props[i].delete ==> x.props[i].mid in d;
  }

  lemma DeleteKeeps(x: Station, y: Station)
    requires Own(x) && Settled(x, y) && NoLoss(x, y) && StoreOk(y.db, y.mail, y.posted, y.now) && Apart(x, y)
    ensures Own(DoDelete(x)) && NoneMarked(DoDelete(x)) && NoLoss(DoDelete(x), y)
    ensures forall m :: m in x.outbox && m !in DoDelete(x).outbox ==> m in y.db
  {
    hide Known, LongAgo, Delivered, Own, NoneMarked;
    DeleteOwn(x);
    OwnNext(x);
    var d := Doomed(x);
    assert forall m :: m in d ==> m in y.db;
  }

  /** A batch that has been answered is marked, and what was not refused is sent. */
  lemma AnswersKeep(x: Station, answers: seq<bool>)
    requires Own(x) && NoneMarked(x) && |answers| == Size(x)
    ensures var x' := TakeAnswers(x, answers).0;
      && Own(x') && x'.next == x.next + Size(x)
      && (forall i :: 0 <= i < |x.props| ==> x'.props[i].mid == x.props[i].mid)
      && (forall i :: 0 <= i < |x.props| ==> (x'.props[i].delete <==> x.next <= i < x.next + Size(x)))
  {
    hide Encodes, Sendable, Transfers;
    var x' := TakeAnswers(x, answers).0;
    forall i | 0 <= i < |x.props|
      ensures x'.props[i].mid == x.props[i].mid && x'.props[i].file == x.props[i].file && x'.props[i].usize == x.props[i].usize
      ensures x'.props[i].delete <==> x.next <= i < x.next + Size(x)
    {
      assert !x.props[i].delete;
    }
  }

  lemma BatchOwn(x: Station, i: nat)
    requires Own(x) && i < Size(x)
    ensures Batch(x)[i] == x.props[x.next + i].mid && Batch(x)[i] in x.posted
    ensures Encodes(x.props[x.next + i].file, x.posted[Batch(x)[i]])
  {
    hide Encodes, Sendable;
  }

  lemma AcceptedNext<T>(xs: seq<T>, answers: seq<bool>, n: nat)
    requires n < |xs| == |answers|
    ensures Accepted(xs[..n + 1], answers[..n + 1]) == Accepted(xs[..n], answers[..n]) + (if answers[n] then [xs[n]] else [])
  {
    assert xs[..n + 1][..n] == xs[..n] && answers[..n + 1][..n] == answers[..n];
  }

  /** The message of the next proposal is sent exactly when its answer was yes. */
  lemma TransfersNext(x: Station, answers: seq<bool>, n: nat)
    requires x.next <= |x.props| && |answers| == Size(x) && n < Size(x)
    ensures var ps := Answered(x.props, x.next, answers);
      Transfers(ps, x.next, x.next + n + 1)
      == Transfers(ps, x.next, x.next + n) + (if answers[n] then [Data(x.props[x.next + n].file)] else [])
  {
    hide Transfers;
    TransfersLast(Answered(x.props, x.next, answers), x.next, x.next + n);
  }

  lemma TransfersLast(ps: seq<Proposal>, lo: nat, hi: nat)
    requires lo <= hi < |ps|
    ensures Transfers(ps, lo, hi + 1) == Transfers(ps, lo, hi) + (if ps[hi].delete then [] else [Data(ps[hi].file)])
  {
  }

  function FilesOf(ps: seq<Proposal>): (r: seq<File>)
    ensures |r| == |ps| && forall i :: 0 <= i < |ps| ==> r[i] == ps[i].file
  {
    seq(|ps|, i requires 0 <= i < |ps| => ps[i].file)
  }

  /** What is sent are the compressed messages of the accepted ids, in their order. */
  lemma {:induction false} TransfersAccepted(x: Station, answers: seq<bool>, n: nat)
    requires Own(x) && |answers| == Size(x) && n <= Size(x)
    ensures var files := Accepted(FilesOf(Offered(x))[..n], answers[..n]);
      && Transfers(Answered(x.props, x.next, answers), x.next, x.next + n) == Datas(files)
      && Carries(files, Accepted(Batch(x)[..n], answers[..n]), x.posted)
  {
    hide Own, Datas, Accepted, Transfers, Answered, Batch, Carries, Encodes;
    if n == 0 {
      NothingAnswered(x, answers);
    } else {
      BatchOwn(x, n - 1);
      AcceptedNext(Batch(x), answers, n - 1);
      AcceptedNext(FilesOf(Offered(x)), answers, n - 1);
      TransfersNext(x, answers, n - 1);
      TransfersAccepted(x, answers, n - 1);
      DatasNext(Accepted(FilesOf(Offered(x))[..n - 1], answers[..n - 1]), FilesOf(Offered(x))[n - 1],
                Accepted(Batch(x)[..n - 1], answers[..n - 1]), Batch(x)[n - 1], answers[n - 1], x.posted);
    }
  }

  lemma NothingAnswered(x: Station, answers: seq<bool>)
    requires x.next <= |x.props|
    ensures Transfers(Answered(x.props, x.next, answers), x.next, x.next) == []
    ensures Accepted(Batch(x)[..0], answers[..0]) == [] && Accepted(FilesOf(Offered(x))[..0], answers[..0]) == []
    ensures Datas([]) == [] && Carries([], [], x.posted)
  {
  }

  lemma DatasNext(files: seq<File>, f: File, todo: seq<Mid>, m: Mid, more: bool, posted: map<Mid, Body>)
    requires Carries(files, todo, posted) && m in posted && Encodes(f, posted[m])
    ensures Datas(files + (if more then [f] else [])) == Datas(files) + (if more then [Data(f)] else [])
    ensures Carries(files + (if more then [f] else []), todo + (if more then [m] else []), posted)
  {
    hide Encodes;
  }

  lemma AcceptedMembers(mids: seq<Mid>, answers: seq<bool>)
    requires |mids| == |answers|
    requires forall i, j :: 0 <= i < j < |mids| ==> mids[i] != mids[j]
    ensures var t := Accepted(mids, answers);
      && |t| <= |mids|
      && (forall i :: 0 <= i < |t| ==> Chosen(mids, answers, t[i]))
      && (forall k :: 0 <= k < |mids| && answers[k] ==> mids[k] in t)
      && (forall i, j :: 0 <= i < j < |t| ==> t[i] != t[j])
  {
    hide Accepted;
    var t := Accepted(mids, answers);
    AcceptedDistinct(mids, answers);
    forall i | 0 <= i < |t| ensures Chosen(mids, answers, t[i]) { AcceptedAre(mids, answers, t[i]); }
    forall k | 0 <= k < |mids| && answers[k] ensures mids[k] in t {
      assert Chosen(mids, answers, mids[k]);
      AcceptedAre(mids, answers, mids[k]);
    }
  }

  lemma {:induction false} AcceptedDistinct(mids: seq<Mid>, answers: seq<bool>)
    requires |mids| == |answers|
    requires forall i, j :: 0 <= i < j < |mids| ==> mids[i] != mids[j]
    ensures var t := Accepted(mids, answers); |t| <= |mids| && forall i, j :: 0 <= i < j < |t| ==> t[i] != t[j]
  {
    if mids != [] {
      var n := |mids| - 1;
      AcceptedDistinct(mids[..n], answers[..n]);
      AcceptedAre(mids[..n], answers[..n], mids[n]);
      assert mids[n] !in mids[..n];
    }
  }

  // ----- receiving -----

  /** One look keeps the store right, and tells of an unknown id that its last delivery is long ago. */
  lemma CheckKeeps(db: Db, mail: seq<Delivery>, own: map<Mid, Body>, now: int, m: Mid)
    requires StoreOk(db, mail, own, now)
    ensures StoreOk(Checked(db, m, now), mail, own, now)
    ensures !Known(db, m, now) ==> LongAgo(mail, m, now)
    ensures Known(db, m, now) ==> m in Checked(db, m, now)
    ensures forall k :: k in db && k != m ==> k in Checked(db, m, now)
  {
    hide Delivered, LongAgo;
    forall k ensures Known(Checked(db, m, now), k, now) || LongAgo(mail, k, now) { assert Known(db, k, now) || LongAgo(mail, k, now); }
  }

  lemma {:induction false} RepliesKeep(db: Db, mids: seq<Mid>, now: int, mail: seq<Delivery>, own: map<Mid, Body>)
    requires StoreOk(db, mail, own, now)
    requires forall i, j :: 0 <= i < j < |mids| ==> mids[i] != mids[j]
    ensures var (answers, db') := Replies(db, mids, now);
      && StoreOk(db', mail, own, now) && |answers| == |mids|
      && (forall i :: 0 <= i < |mids| && answers[i] ==> LongAgo(mail, mids[i], now))
      && (forall i :: 0 <= i < |mids| && !answers[i] ==> mids[i] in db')
      && (forall k :: k in db && k !in mids ==> k in db')
  {
    hide StoreOk, LongAgo, Known, Checked;
    if mids != [] {
      var n := |mids| - 1;
      RepliesKeep(db, mids[..n], now, mail, own);
      CheckKeeps(Replies(db, mids[..n], now).1, mail, own, now, mids[n]);
      assert forall i :: 0 <= i < n ==> mids[..n][i] == mids[i];
    }
  }

  /** A delivery with its record keeps the mailbox right. */
  lemma DataKeeps(s: Station, posted: map<Mid, Body>, todo: seq<Mid>, body: Body)
    requires Mailbox(s, posted) && s.pc == Receive(todo) && todo != []
    requires todo[0] in posted && Yields(posted[todo[0]], body)
    ensures Mailbox(Deliver(s, todo, body), posted)
    ensures forall m :: Delivered(s.mail, m) ==> Delivered(Deliver(s, todo, body).mail, m)
    ensures forall m :: m in s.db || m == todo[0] ==> m in Deliver(s, todo, body).db
  {
    hide Yields;
    var m0 := todo[0];
    var s' := Deliver(s, todo, body);
    DeliveredMore(s.mail, Delivery(m0, body, s.now));
    assert s'.mail[|s.mail|].mid == m0;
    RecordKeeps(s.db, s.mail, s.posted, s.now, m0, body);
    if |todo| > 1 {
      forall i | 0 <= i < |todo| - 1 ensures LongAgo(s'.mail, todo[1..][i], s.now) {
        assert LongAgo(s.mail, todo[i + 1], s.now) && todo[i + 1] != m0;
      }
    }
  }

  lemma DeliveredMore(mail: seq<Delivery>, d: Delivery)
    ensures forall m :: Delivered(mail, m) ==> Delivered(mail + [d], m)
  {
    forall m | Delivered(mail, m) ensures Delivered(mail + [d], m) {
      var j :| 0 <= j < |mail| && mail[j].mid == m;
      assert (mail + [d])[j].mid == m;
    }
  }

  lemma RecordKeeps(db: Db, mail: seq<Delivery>, own: map<Mid, Body>, now: int, m0: Mid, body: Body)
    requires StoreOk(db, mail, own, now) && LongAgo(mail, m0, now)
    ensures StoreOk(db[m0 := now], mail + [Delivery(m0, body, now)], own, now)
  {
    var mail' := mail + [Delivery(m0, body, now)];
    DeliveredMore(mail, Delivery(m0, body, now));
    assert mail'[|mail|].mid == m0;
    forall m ensures Known(db[m0 := now], m, now) || LongAgo(mail', m, now) {
      assert Known(db, m, now) || LongAgo(mail, m, now);
    }
  }

  // ----- one move -----

  /** What two stations keep towards each other, wherever the session is. */
  ghost predicate Pair(y: Station, x: Station) {
    match y.pc case _ =>
      Own(y) && Own(x) && Mailbox(y, x.posted) && Mailbox(x, y.posted) && NoLoss(y, x) && NoLoss(x, y) && Apart(y, x)
  }

  /** The queue after more has been sent; over a cut link nothing more goes. */
  function Sent(up: bool, q: seq<Msg>, out: seq<Msg>): seq<Msg> {
    if up then q + out else q
  }

  lemma OnWaySent(up: bool, q: seq<Msg>, full: seq<Msg>, out: seq<Msg>)
    requires OnWay(up, q, full)
    ensures OnWay(up, Sent(up, q, out), full + out)
  {
  }

  lemma OnWayRead(up: bool, q: seq<Msg>, full: seq<Msg>)
    requires OnWay(up, q, full) && q != []
    ensures full != [] && q[0] == full[0] && OnWay(up, q[1..], full[1..])
  {
  }

  /** The station whose turn it is proposes, passes, or leaves. */
  lemma TurnMoves(y: Station, x: Station, yx: seq<Msg>, xy: seq<Msg>, up: bool, pre: seq<Msg>)
    requires Pair(y, x) && HasTurn(y, x, yx, xy, up, pre)
    ensures y.next <= |y.props|
    ensures var (y', out) := Outbound(y); Pair(y', x) && Phase(y', x, Sent(up, yx, out), xy, up)
  {
    hide Own, Mailbox, NoLoss, OnWay, Pending, Refused, Pair;
    PairSwap(y, x);
    var (y', out) := Outbound(y);
    OnWaySent(up, yx, pre, out);
    assert Offered(y)[0..] == Offered(y);
    PairPc(y, x, y'.pc);
    PendingDb(x, y, y', pre);
    if y.next < |y.props| {
      assert HasOffered(y', x, Sent(up, yx, out), xy, up, pre);
    } else if y.pc.afterFF {
      assert pre + out == out;
      assert HasLeft(y', x, Sent(up, yx, out), xy, up);
    } else {
      assert HasPassed(y', x, Sent(up, yx, out), xy, up, pre);
    }
  }

  lemma OwnNext(y: Station)
    requires Own(y)
    ensures y.next <= |y.props|
  {
  }

  lemma PairPc(y: Station, x: Station, pc: Pc)
    requires Pair(y, x) && !pc.Receive?
    ensures Pair(y.(pc := pc), x)
  {
    OwnPc(y, pc);
    MailboxPc(y, x.posted, pc);
  }

  lemma PendingDb(x: Station, y: Station, y': Station, pre: seq<Msg>)
    requires Pending(x, y, pre) && y'.db == y.db
    ensures Pending(x, y', pre)
  {
  }

  /** Answers that refuse a whole batch: it is marked, nothing is sent, and the station listens. */
  lemma RefusedRead(x: Station, y: Station, pre: seq<Msg>, ring: Ring)
    requires Pair(x, y) && x.next <= |x.props| && Refused(x, y, pre)
    ensures var (x', out) := Take(x, pre[0], ring);
      Pair(x', y) && out == [] && Pending(x', y, []) && Settled(x', y) && |x'.props| == |x.props|
  {
    hide Mailbox, Own, Carries, Take, Accepted, NoLoss, Settled, Answered, AllDeleted, Transfers, Batch;
    var answers := Noes(Size(x));
    TakesAnswers(x, pre[0], ring);
    var (x', out) := TakeAnswers(x, answers);
    AnswersKeep(x, answers);
    NothingAccepted(Batch(x), answers);
    var files := AllTransfers(x, answers);
    CarriesNothing(files, x.posted);
    MailboxSame(x, x', y.posted);
    NoLossSame(x, x', y);
    RefusedSettled(x, x', y);
  }

  lemma TakesAnswers(x: Station, msg: Msg, ring: Ring)
    requires x.pc.AwaitFS? && x.next <= |x.props| && msg.FS?
    ensures Take(x, msg, ring) == TakeAnswers(x, msg.answers)
  {
    hide TakeAnswers;
  }

  /** What is marked then is the batch, and all of it was refused because the other has it. */
  lemma RefusedSettled(x: Station, x': Station, y: Station)
    requires x.next <= |x.props| == |x'.props| && forall i :: 0 <= i < Size(x) ==> Batch(x)[i] in y.db
    requires forall i :: 0 <= i < |x.props| ==> x'.props[i].mid == x.props[i].mid
    requires forall i :: 0 <= i < |x.props| ==> (x'.props[i].delete <==> x.next <= i < x.next + Size(x))
    ensures Settled(x', y)
  {
    hide Batch, Size;
    forall i | 0 <= i < |x'.props| && x'.props[i].delete ensures x'.props[i].mid in y.db {
      assert Batch(x)[i - x.next] == x.props[i].mid;
    }
  }

  lemma CarriesNothing(files: seq<File>, posted: map<Mid, Body>)
    requires Carries(files, [], posted)
    ensures Datas(files) == []
  {
  }

  lemma MailboxSame(x: Station, x': Station, posted: map<Mid, Body>)
    requires Mailbox(x, posted) && x'.mail == x.mail && x'.db == x.db && x'.now == x.now && x'.posted == x.posted && !x'.pc.Receive?
    ensures Mailbox(x', posted)
  {
  }

  lemma {:induction false} NothingAccepted(mids: seq<Mid>, answers: seq<bool>)
    requires |answers| == |mids| && forall i :: 0 <= i < |answers| ==> !answers[i]
    ensures Accepted(mids, answers) == []
  {
    if mids != [] { NothingAccepted(mids[..|mids| - 1], answers[..|mids| - 1]); }
  }

  lemma AllTransfers(x: Station, answers: seq<bool>) returns (files: seq<File>)
    requires Own(x) && |answers| == Size(x)
    ensures TakeAnswers(x, answers).1 == Datas(files) && Carries(files, Accepted(Batch(x), answers), x.posted)
  {
    hide Own, Accepted, Transfers, Datas, Carries;
    assert Batch(x)[..Size(x)] == Batch(x) && answers[..Size(x)] == answers && FilesOf(Offered(x))[..Size(x)] == FilesOf(Offered(x));
    TransfersAccepted(x, answers, Size(x));
    files := Accepted(FilesOf(Offered(x)), answers);
  }

  lemma RefusedMove(y: Station, x: Station, yx: seq<Msg>, up: bool, pre: seq<Msg>, rest: seq<Msg>, ring: Ring)
    requires Pair(x, y) && x.next <= |x.props| && Refused(x, y, pre) && OnWay(up, yx, pre + rest) && yx != []
    ensures var (x', out) := Take(x, yx[0], ring);
      Pair(x', y) && out == [] && Pending(x', y, []) && Settled(x', y) && OnWay(up, yx[1..], rest)
  {
    hide Take, Own;
    OnWayRead(up, yx, pre + rest);
    RefusedRead(x, y, pre, ring);
    assert (pre + rest)[1..] == rest;
  }

  /** Something is on its way from `y`, and `x` reads the first of it. */
  ghost predicate ReadTo(y: Station, x: Station, yx: seq<Msg>, xy: seq<Msg>, up: bool, ring: Ring)
    requires yx != [] && Reads(x.pc) && x.next <= |x.props|
  {
    var (x', out) := Take(x, yx[0], ring);
    && Pair(x', y)
    && (Phase(y, x', yx[1..], Sent(up, xy, out), up) || Phase(x', y, Sent(up, xy, out), yx[1..], up))
    && (forall m :: m in x.outbox && m !in x'.outbox ==> m in y.db)
  }

  lemma TurnRead(y: Station, x: Station, yx: seq<Msg>, xy: seq<Msg>, up: bool, pre: seq<Msg>, ring: Ring)
    requires Pair(x, y) && HasTurn(y, x, yx, xy, up, pre) && yx != []
    ensures Reads(x.pc) && x.next <= |x.props| && ReadTo(y, x, yx, xy, up, ring)
  {
    hide Take, Own, Size, Settled, Pair;
    assert pre + [] == pre;
    RefusedMove(y, x, yx, up, pre, [], ring);
    var (x', out) := Take(x, yx[0], ring);
    RefusedKeeps(x, y, yx[0], pre, ring);
    assert HasTurn(y, x', yx[1..], Sent(up, xy, out), up, []);
  }

  lemma RefusedKeeps(x: Station, y: Station, msg: Msg, pre: seq<Msg>, ring: Ring)
    requires x.next <= |x.props| && Refused(x, y, pre) && msg == pre[0]
    ensures Take(x, msg, ring).0.outbox == x.outbox
  {
  }

  lemma OfferedRead(y: Station, x: Station, yx: seq<Msg>, xy: seq<Msg>, up: bool, pre: seq<Msg>, ring: Ring)
    requires Pair(x, y) && HasOffered(y, x, yx, xy, up, pre) && yx != [] && pre != []
    ensures Reads(x.pc) && x.next <= |x.props| && ReadTo(y, x, yx, xy, up, ring)
  {
    hide Take, Own, Size, Settled, Pair;
    RefusedMove(y, x, yx, up, pre, Rest(y, 0), ring);
    var (x', out) := Take(x, yx[0], ring);
    OnWayRead(up, yx, pre + Rest(y, 0));
    RefusedKeeps(x, y, yx[0], pre, ring);
    assert [] + Rest(y, 0) == Rest(y, 0);
    assert HasOffered(y, x', yx[1..], Sent(up, xy, out), up, []);
  }

  lemma PassedRead(y: Station, x: Station, yx: seq<Msg>, xy: seq<Msg>, up: bool, pre: seq<Msg>, ring: Ring)
    requires Pair(x, y) && HasPassed(y, x, yx, xy, up, pre) && yx != [] && pre != []
    ensures Reads(x.pc) && x.next <= |x.props| && ReadTo(y, x, yx, xy, up, ring)
  {
    hide Take, Own, Size, Settled, Pair;
    RefusedMove(y, x, yx, up, pre, [FF], ring);
    var (x', out) := Take(x, yx[0], ring);
    OnWayRead(up, yx, pre + [FF]);
    RefusedKeeps(x, y, yx[0], pre, ring);
    assert HasPassed(y, x', yx[1..], Sent(up, xy, out), up, []);
  }

  /** A station that listens has unlinked what it was to unlink. */
  lemma ListenDeletes(x: Station, y: Station, pc: Pc)
    requires Pair(x, y) && Settled(x, y) && !pc.Receive?
    ensures var x' := DoDelete(x).(pc := pc);
      && Pair(x', y) && NoneMarked(x') && |x'.props| == |x.props|
      && (forall m :: m in x.outbox && m !in x'.outbox ==> m in y.db)
  {
    DeleteKeeps(x, y);
    OwnPc(DoDelete(x), pc);
    MailboxSame(x, DoDelete(x).(pc := pc), y.posted);
  }

  /** The next proposal of a batch is read. */
  lemma ProposalRead(y: Station, x: Station, yx: seq<Msg>, xy: seq<Msg>, up: bool, offers: seq<Mid>, ring: Ring)
    requires Pair(x, y) && x.pc == Listen(offers) && x.next <= |x.props| && y.next < |y.props| && y.pc.AwaitFS?
    requires xy == [] && NoneMarked(y) && Settled(x, y) && yx != []
    requires |offers| < Size(y) && offers == Batch(y)[..|offers|] && OnWay(up, yx, Rest(y, |offers|))
    ensures ReadTo(y, x, yx, xy, up, ring)
  {
    hide Own, Settled, Pair, DoDelete, NoneMarked, Batch, Size, Take, Rest, Pending;
    var k := |offers|;
    OnWayRead(up, yx, Rest(y, k));
    RestNext(y, k);
    TakesOffer(x, yx[0], ring);
    ListenDeletes(x, y, Listen(offers + [Batch(y)[k]]));
    assert Batch(y)[..k + 1] == offers + [Batch(y)[k]];
    DeleteNext(x);
    var x' := DoDelete(x).(pc := Listen(offers + [Batch(y)[k]]));
    assert Sent(up, xy, []) == xy;
    assert Reading(y, x', yx[1..], xy, up);
  }

  lemma RestNext(y: Station, k: nat)
    requires y.next <= |y.props| && k < Size(y)
    ensures Rest(y, k) != [] && Rest(y, k)[0].FC? && Rest(y, k)[0].mid == Batch(y)[k] && Rest(y, k)[1..] == Rest(y, k + 1)
  {
    assert Offered(y)[k..][0] == Offered(y)[k] && Offered(y)[k..][1..] == Offered(y)[k + 1..];
  }

  lemma TakesOffer(x: Station, msg: Msg, ring: Ring)
    requires x.pc.Listen? && x.next <= |x.props| && msg.FC? && |x.pc.offers| < PROPLIMIT
    ensures Take(x, msg, ring) == (DoDelete(x).(pc := Listen(x.pc.offers + [msg.mid])), [])
  {
    hide DoDelete;
  }

  lemma DeleteNext(x: Station)
    ensures DoDelete(x).next == x.next && |DoDelete(x).props| == |x.props|
  {
  }

  /** The end of a batch is read, and the batch is answered. */
  lemma PromptRead(y: Station, x: Station, yx: seq<Msg>, xy: seq<Msg>, up: bool, ring: Ring)
    requires Pair(x, y) && Reading(y, x, yx, xy, up) && yx != [] && |x.pc.offers| == Size(y)
    ensures ReadTo(y, x, yx, xy, up, ring)
  {
    hide Own, NoLoss, Mailbox, Settled, Accepted, Take, Batch, HasTurn, HasAnswered;
    var offers := x.pc.offers;
    OnWayRead(up, yx, Rest(y, Size(y)));
    assert Rest(y, Size(y)) == [Prompt];
    assert Batch(y)[..Size(y)] == Batch(y);
    var (x', out) := Take(x, Prompt, ring);
    PromptKeeps(x, y, ring);
    BatchDistinct(y);
    var answers := out[0].answers;
    OnWaySent(up, xy, [], out);
    assert [] + out == out == [FS(answers)] && [Prompt][1..] == [];
    NoneMarkedSame(x, x');
    if x'.pc.Receive? {
      NowAnswered(y, x', yx[1..], Sent(up, xy, out), up, answers);
    } else {
      NothingRefused(offers, answers);
      NoneSettled(y, x');
      NowTurn(y, x', yx[1..], Sent(up, xy, out), up, answers);
    }
  }

  lemma NowAnswered(y: Station, x: Station, yx: seq<Msg>, xy: seq<Msg>, up: bool, answers: seq<bool>)
    requires y.pc.AwaitFS? && y.next < |y.props| && yx == [] && NoneMarked(y) && NoneMarked(x) && x.next <= |x.props|
    requires |answers| == Size(y) && OnWay(up, xy, [FS(answers)]) && x.pc == Receive(Accepted(Batch(y), answers))
    requires forall i :: 0 <= i < Size(y) && !answers[i] ==> Batch(y)[i] in x.db
    ensures HasAnswered(y, x, yx, xy, up, answers)
  {
  }

  lemma NowTurn(y: Station, x: Station, yx: seq<Msg>, xy: seq<Msg>, up: bool, answers: seq<bool>)
    requires y.pc.AwaitFS? && y.next < |y.props| && yx == [] && NoneMarked(y) && NoneMarked(x) && x.pc == Turn(false)
    requires answers == Noes(Size(y)) && OnWay(up, xy, [FS(answers)]) && Settled(y, x)
    requires forall i :: 0 <= i < Size(y) && !answers[i] ==> Batch(y)[i] in x.db
    ensures HasTurn(x, y, xy, yx, up, [FS(answers)])
  {
    hide Settled, NoneMarked;
  }

  lemma NoneSettled(y: Station, x: Station)
    requires NoneMarked(y)
    ensures Settled(y, x)
  {
  }

  lemma BatchDistinct(y: Station)
    requires Own(y)
    ensures forall i, j :: 0 <= i < j < Size(y) ==> Batch(y)[i] != Batch(y)[j]
    ensures forall i :: 0 <= i < Size(y) ==> Batch(y)[i] in y.posted
  {
  }

  lemma NothingRefused(mids: seq<Mid>, answers: seq<bool>)
    requires |answers| == |mids| && Accepted(mids, answers) == []
    requires forall i, j :: 0 <= i < j < |mids| ==> mids[i] != mids[j]
    ensures answers == Noes(|mids|)
  {
    AcceptedMembers(mids, answers);
    assert forall k :: 0 <= k < |mids| ==> !answers[k];
  }

  lemma PromptKeeps(x: Station, y: Station, ring: Ring)
    requires Pair(x, y) && x.pc.Listen? && y.next < |y.props| && x.pc.offers == Batch(y)
    ensures var (x', out) := Take(x, Prompt, ring);
      && Pair(x', y) && x'.props == x.props && x'.next == x.next && x'.outbox == x.outbox
      && |out| == 1 && out[0].FS? && var answers := out[0].answers;
        && |answers| == Size(y)
        && (forall i :: 0 <= i < Size(y) && !answers[i] ==> Batch(y)[i] in x'.db)
        && x'.pc == if Accepted(Batch(y), answers) == [] then Turn(false) else Receive(Accepted(Batch(y), answers))
  {
    hide Accepted, Replies, Own, Mailbox, NoLoss, StoreOk, Batch;
    var offers := x.pc.offers;
    MailboxStore(x, y.posted);
    BatchDistinct(y);
    RepliesKeep(x.db, offers, x.now, x.mail, x.posted);
    var (answers, db) := Replies(x.db, offers, x.now);
    AcceptedMembers(offers, answers);
    PromptMailbox(x, y.posted, db, offers, answers);
    OwnNext(x);
    OwnSame(x, Take(x, Prompt, ring).0);
    NoLossSame(x, Take(x, Prompt, ring).0, y);
  }

  lemma MailboxStore(x: Station, posted: map<Mid, Body>)
    requires Mailbox(x, posted)
    ensures StoreOk(x.db, x.mail, x.posted, x.now)
  {
    hide StoreOk;
  }

  lemma PromptMailbox(x: Station, posted: map<Mid, Body>, db: Db, offers: seq<Mid>, answers: seq<bool>)
    requires Mailbox(x, posted) && StoreOk(db, x.mail, x.posted, x.now) && |answers| == |offers|
    requires forall i, j :: 0 <= i < j < |offers| ==> offers[i] != offers[j]
    requires forall i :: 0 <= i < |offers| ==> offers[i] in posted && (answers[i] ==> LongAgo(x.mail, offers[i], x.now))
    ensures Mailbox(x.(db := db, pc := Turn(false)), posted)
    ensures Accepted(offers, answers) != [] ==> Mailbox(x.(db := db, pc := Receive(Accepted(offers, answers))), posted)
  {
    hide StoreOk, LongAgo, Accepted;
    AcceptedMembers(offers, answers);
  }

  /** The answers are read, and what was accepted is sent. */
  lemma AnswersRead(y: Station, x: Station, yx: seq<Msg>, xy: seq<Msg>, up: bool, answers: seq<bool>, ring: Ring)
    requires Pair(y, x) && HasAnswered(y, x, yx, xy, up, answers) && xy != []
    ensures Reads(y.pc) && y.next <= |y.props| && ReadTo(x, y, xy, yx, up, ring)
  {
    hide Own, NoLoss, Mailbox, Datas, Carries, Accepted, AllDeleted, Transfers;
    OnWayRead(up, xy, [FS(answers)]);
    var (y', out) := Take(y, xy[0], ring);
    AnswersKeep(y, answers);
    MailboxSame(y, y', x.posted);
    NoLossSame(y, y', x);
    BatchDistinct(y);
    var todo := Accepted(Batch(y), answers);
    AcceptedMembers(Batch(y), answers);
    var files := AllTransfers(y, answers);
    OnWaySent(up, yx, [], out);
    assert [] + out == out;
    SettledOrComing(y, y', x, answers);
    assert HasSent(y', x, Sent(up, yx, out), xy[1..], up, files);
  }

  lemma SettledOrComing(y: Station, y': Station, x: Station, answers: seq<bool>)
    requires Own(y) && |answers| == Size(y) && |y'.props| == |y.props|
    requires forall i :: 0 <= i < Size(y) && !answers[i] ==> Batch(y)[i] in x.db
    requires forall i :: 0 <= i < |y.props| ==> y'.props[i].mid == y.props[i].mid
    requires forall i :: 0 <= i < |y.props| ==> (y'.props[i].delete <==> y.next <= i < y.next + Size(y))
    ensures forall i :: 0 <= i < |y'.props| && y'.props[i].delete ==>
      y'.props[i].mid in x.db || y'.props[i].mid in Accepted(Batch(y), answers)
  {
    hide Accepted, Own, Batch;
    OwnNext(y);
    BatchDistinct(y);
    var b, t := Batch(y), Accepted(Batch(y), answers);
    forall i | 0 <= i < |y'.props| && y'.props[i].delete ensures y'.props[i].mid in x.db || y'.props[i].mid in t {
      var k := i - y.next;
      assert b[k] == y'.props[i].mid;
      if answers[k] { AcceptedHas(b, answers, k); }
    }
  }

  lemma AcceptedHas(mids: seq<Mid>, answers: seq<bool>, k: nat)
    requires k < |mids| == |answers| && answers[k]
    requires forall i, j :: 0 <= i < j < |mids| ==> mids[i] != mids[j]
    ensures mids[k] in Accepted(mids, answers)
  {
    hide Accepted;
    AcceptedMembers(mids, answers);
  }

  lemma NoLossSame(y: Station, y': Station, x: Station)
    requires NoLoss(y, x) && NoLoss(x, y) && y'.posted == y.posted && y'.outbox == y.outbox && y'.mail == y.mail
    ensures NoLoss(y', x) && NoLoss(x, y')
  {
  }

  /** A compressed message comes for the first accepted id.  What is recovered is delivered; if nothing is, the text was
      not one that the codec carries. */
  lemma DataRead(y: Station, x: Station, yx: seq<Msg>, xy: seq<Msg>, up: bool, files: seq<File>, ring: Ring)
    requires Pair(x, y) && HasSent(y, x, yx, xy, up, files) && yx != []
    ensures ReadTo(y, x, yx, xy, up, ring)
  {
    hide Own, Pair, Encodes, Sendable, Archive.Unpacked, Yields, ReadTo, Take, HasSent;
    SentFirst(y, x, yx, xy, up, files);
    var todo := x.pc.todo;
    TakesData(x, yx[0], ring);
    match Archive.Unpacked(files[0], ring)
    case None =>
      if Sendable(y.posted[todo[0]]) { Recovers(files[0], y.posted[todo[0]], ring); }
      DataFails(y, x, yx, xy, up, files, ring);
    case Some(body) =>
      YieldsFrom(files[0], y.posted[todo[0]], ring, body);
      DataDelivered(y, x, yx, xy, up, files, body);
      ReadDelivered(y, x, yx, xy, up, body, ring);
  }

  lemma SentFirst(y: Station, x: Station, yx: seq<Msg>, xy: seq<Msg>, up: bool, files: seq<File>)
    requires HasSent(y, x, yx, xy, up, files) && yx != []
    ensures x.pc.Receive? && x.next <= |x.props| && x.pc.todo != []
    ensures files != [] && yx[0] == Data(files[0]) && OnWay(up, yx[1..], Datas(files)[1..])
    ensures x.pc.todo[0] in y.posted && Encodes(files[0], y.posted[x.pc.todo[0]])
  {
    hide Encodes;
    OnWayRead(up, yx, Datas(files));
  }

  lemma TakesData(x: Station, msg: Msg, ring: Ring)
    requires x.pc.Receive? && x.pc.todo != [] && x.next <= |x.props| && msg.Data?
    ensures Take(x, msg, ring) == (TakeData(x, x.pc.todo, msg.file, ring), [])
  {
    hide TakeData;
  }

  lemma DataFails(y: Station, x: Station, yx: seq<Msg>, xy: seq<Msg>, up: bool, files: seq<File>, ring: Ring)
    requires Pair(x, y) && HasSent(y, x, yx, xy, up, files) && yx != []
    requires Take(x, yx[0], ring) == (x.(pc := Error), [])
    requires x.pc.todo != [] && x.pc.todo[0] in y.posted && !Sendable(y.posted[x.pc.todo[0]])
    ensures ReadTo(y, x, yx, xy, up, ring)
  {
    hide Own, Mailbox, Encodes, Sendable, Carries, Datas, Take, Leftover;
    PairSwap(x, y);
    PairPc(x, y, Error);
    var x' := x.(pc := Error);
    assert Sent(up, xy, []) == xy;
    SentLeftover(y, x, yx, xy, up, files);
    assert Failed(y, x', yx[1..], xy);
  }

  lemma SentLeftover(y: Station, x: Station, yx: seq<Msg>, xy: seq<Msg>, up: bool, files: seq<File>)
    requires HasSent(y, x, yx, xy, up, files) && yx != []
    ensures Leftover(yx[1..], y.posted)
  {
    hide Encodes, NoneMarked, Packed;
    forall i | 0 <= i < |yx[1..]| ensures Packed(yx[1..][i], y.posted) {
      assert yx[1..][i] == yx[i + 1] == Datas(files)[i + 1] == Data(files[i + 1]);
      PackedFrom(files[i + 1], x.pc.todo[i + 1], y.posted);
    }
  }

  lemma PackedFrom(file: File, m: Mid, posted: map<Mid, Body>)
    requires m in posted && Encodes(file, posted[m])
    ensures Packed(Data(file), posted)
  {
    hide Encodes;
  }

  /** With the message delivered the session is where it should be. */
  lemma DataDelivered(y: Station, x: Station, yx: seq<Msg>, xy: seq<Msg>, up: bool, files: seq<File>, body: Body)
    requires Pair(x, y) && HasSent(y, x, yx, xy, up, files) && yx != [] && x.pc.todo != [] && files != []
    requires OnWay(up, yx[1..], Datas(files)[1..])
    requires x.pc.todo[0] in y.posted && Yields(y.posted[x.pc.todo[0]], body)
    ensures var x' := Deliver(x, x.pc.todo, body);
      Pair(x', y) && (Phase(y, x', yx[1..], xy, up) || Phase(x', y, xy, yx[1..], up)) && x'.outbox == x.outbox
  {
    hide Own, NoLoss, Mailbox, Delivered, Encodes, Yields;
    var todo := x.pc.todo;
    DataKeeps(x, y.posted, todo, body);
    var x' := Deliver(x, todo, body);
    OwnSame(x, x');
    NoLossMore(y, x, x');
    OwnNext(y);
    if |todo| == 1 {
      assert HasTurn(x', y, xy, yx[1..], up, []) by {
        NoneMarkedSame(x, x');
        forall i | 0 <= i < |y.props| && y.props[i].delete ensures y.props[i].mid in x'.db {
          assert y.props[i].mid in todo ==> y.props[i].mid == todo[0];
        }
      }
    } else {
      CarriesRest(files, todo, y.posted);
      assert HasSent(y, x', yx[1..], xy, up, files[1..]);
    }
  }

  lemma ReadDelivered(y: Station, x: Station, yx: seq<Msg>, xy: seq<Msg>, up: bool, body: Body, ring: Ring)
    requires yx != [] && x.pc.Receive? && x.pc.todo != [] && x.next <= |x.props|
    requires var x' := Deliver(x, x.pc.todo, body);
      && Take(x, yx[0], ring) == (x', []) && Pair(x', y) && x'.outbox == x.outbox
      && (Phase(y, x', yx[1..], xy, up) || Phase(x', y, xy, yx[1..], up))
    ensures ReadTo(y, x, yx, xy, up, ring)
  {
    hide Pair, Phase, Take;
    assert Sent(up, xy, []) == xy;
  }

  lemma CarriesRest(files: seq<File>, todo: seq<Mid>, posted: map<Mid, Body>)
    requires Carries(files, todo, posted) && todo != []
    ensures Datas(files)[1..] == Datas(files[1..]) && Carries(files[1..], todo[1..], posted)
  {
    hide Encodes;
  }

  lemma OwnSame(x: Station, x': Station)
    requires Own(x) && x'.posted == x.posted && x'.outbox == x.outbox && x'.props == x.props && x'.next == x.next
    ensures Own(x')
  {
  }

  lemma NoneMarkedSame(x: Station, x': Station)
    requires NoneMarked(x) && x'.props == x.props
    ensures NoneMarked(x')
  {
  }

  lemma NoLossMore(y: Station, x: Station, x': Station)
    requires NoLoss(y, x) && NoLoss(x, y) && x'.posted == x.posted && x'.outbox == x.outbox
    requires forall m :: Delivered(x.mail, m) ==> Delivered(x'.mail, m)
    ensures NoLoss(y, x') && NoLoss(x', y)
  {
    hide Delivered;
  }

  /** The other side has nothing to propose: it is this side's turn, and the last one if it has nothing either. */
  lemma PassRead(y: Station, x: Station, yx: seq<Msg>, xy: seq<Msg>, up: bool, ring: Ring)
    requires Pair(x, y) && HasPassed(y, x, yx, xy, up, []) && yx != []
    ensures ReadTo(y, x, yx, xy, up, ring)
  {
    hide Own, Pair, DoDelete, NoneMarked;
    assert [] + [FF] == [FF];
    OnWayRead(up, yx, [FF]);
    ListenDeletes(x, y, Turn(true));
    DeleteNext(x);
    var (x', out) := Take(x, yx[0], ring);
    assert Sent(up, xy, out) == xy && [FF][1..] == [];
    NoneSettled(y, x');
    assert HasTurn(x', y, xy, yx[1..], up, []);
  }

  lemma LeaveRead(y: Station, x: Station, yx: seq<Msg>, xy: seq<Msg>, up: bool, ring: Ring)
    requires Pair(x, y) && HasLeft(y, x, yx, xy, up) && yx != []
    ensures ReadTo(y, x, yx, xy, up, ring)
  {
    hide Own, Pair, DoDelete, NoneMarked;
    OnWayRead(up, yx, [FQ]);
    assert [FQ][1..] == [];
    ListenDeletes(x, y, Done);
    DeleteNext(x);
    var (x', out) := Take(x, yx[0], ring);
    assert Sent(up, xy, out) == xy;
    assert Over(y, x', yx[1..], xy);
  }

  /** Whatever is read, by the station the session is seen from or by the other, is in its place. */
  lemma AnyRead(y: Station, x: Station, yx: seq<Msg>, xy: seq<Msg>, up: bool, ring: Ring)
    requires Pair(y, x) && Phase(y, x, yx, xy, up) && yx != [] && Reads(x.pc) && x.next <= |x.props|
    ensures ReadTo(y, x, yx, xy, up, ring)
  {
    hide Pair, HasTurn, HasOffered, Reading, HasAnswered, HasSent, HasPassed, HasLeft, ReadTo, Take;
    PairSwap(y, x);
    if pre :| HasTurn(y, x, yx, xy, up, pre) {
      TurnRead(y, x, yx, xy, up, pre, ring);
    } else if pre :| HasOffered(y, x, yx, xy, up, pre) {
      ReadOffered(y, x, yx, xy, up, pre, ring);
    } else if Reading(y, x, yx, xy, up) {
      ReadOn(y, x, yx, xy, up, ring);
    } else if answers :| HasAnswered(y, x, yx, xy, up, answers) {
      AnsweredEmpty(y, x, yx, xy, up, answers);
    } else if files :| HasSent(y, x, yx, xy, up, files) {
      DataRead(y, x, yx, xy, up, files, ring);
    } else if pre :| HasPassed(y, x, yx, xy, up, pre) {
      if pre == [] { PassRead(y, x, yx, xy, up, ring); } else { PassedRead(y, x, yx, xy, up, pre, ring); }
    } else if HasLeft(y, x, yx, xy, up) {
      LeaveRead(y, x, yx, xy, up, ring);
    }
  }

  lemma AnsweredEmpty(y: Station, x: Station, yx: seq<Msg>, xy: seq<Msg>, up: bool, answers: seq<bool>)
    requires HasAnswered(y, x, yx, xy, up, answers)
    ensures yx == []
  {
  }

  lemma PairSwap(y: Station, x: Station)
    requires Pair(y, x)
    ensures Pair(x, y) && y.next <= |y.props| && x.next <= |x.props|
  {
  }

  lemma ReadOffered(y: Station, x: Station, yx: seq<Msg>, xy: seq<Msg>, up: bool, pre: seq<Msg>, ring: Ring)
    requires Pair(x, y) && HasOffered(y, x, yx, xy, up, pre) && yx != [] && Reads(x.pc) && x.next <= |x.props|
    ensures ReadTo(y, x, yx, xy, up, ring)
  {
    hide Pair, ReadTo, Take, Rest;
    if pre != [] {
      OfferedRead(y, x, yx, xy, up, pre, ring);
    } else {
      assert [] + Rest(y, 0) == Rest(y, 0);
      ProposalRead(y, x, yx, xy, up, [], ring);
    }
  }

  lemma ReadOn(y: Station, x: Station, yx: seq<Msg>, xy: seq<Msg>, up: bool, ring: Ring)
    requires Pair(x, y) && Reading(y, x, yx, xy, up) && yx != []
    ensures ReadTo(y, x, yx, xy, up, ring)
  {
    hide Pair, ReadTo, Take, Rest;
    if |x.pc.offers| < Size(y) {
      NoneSettled(x, y);
      ProposalRead(y, x, yx, xy, up, x.pc.offers, ring);
    } else {
      PromptRead(y, x, yx, xy, up, ring);
    }
  }

  /** The station the session is seen from reads only answers. */
  lemma OwnRead(y: Station, x: Station, yx: seq<Msg>, xy: seq<Msg>, up: bool, ring: Ring)
    requires Pair(y, x) && Phase(y, x, yx, xy, up) && xy != [] && y.next <= |y.props|
    ensures Reads(y.pc) && ReadTo(x, y, xy, yx, up, ring)
  {
    hide Pair, ReadTo, Take;
    var answers :| HasAnswered(y, x, yx, xy, up, answers);
    AnswersRead(y, x, yx, xy, up, answers, ring);
  }

  /** A station about to propose is the one the session is seen from. */
  lemma AnyTurn(y: Station, x: Station, yx: seq<Msg>, xy: seq<Msg>, up: bool)
    requires Pair(y, x) && Phase(y, x, yx, xy, up) && y.pc.Turn?
    ensures y.next <= |y.props|
    ensures var (y', out) := Outbound(y); Pair(y', x) && Phase(y', x, Sent(up, yx, out), xy, up)
  {
    hide Pair, Outbound;
    var pre :| HasTurn(y, x, yx, xy, up, pre);
    TurnMoves(y, x, yx, xy, up, pre);
  }

  lemma OtherTurn(y: Station, x: Station, yx: seq<Msg>, xy: seq<Msg>, up: bool)
    requires Phase(y, x, yx, xy, up)
    ensures !x.pc.Turn? && (x.pc == Error ==> Careless(y)) && y.pc != Error
  {
  }

  // ----- the system -----

  /** Two stations and what is on its way between them; `up` until the link is cut. */
  datatype System = System(a: Station, b: Station, ab: seq<Msg>, ba: seq<Msg>, up: bool)

  ghost predicate Inv(s: System) {
    match s case System(a, b, ab, ba, up) =>
      Pair(a, b) && (Phase(a, b, ab, ba, up) || Phase(b, a, ba, ab, up))
  }

  /** One station goes on, its ring holding whatever it does; time passes; a message is posted, with its id recorded or
      not; the link is cut and only the front of what is on its way still arrives; a station stops; or the two connect,
      with their outboxes compressed. */
  datatype Event =
    | Move(first: bool, ring: Ring)
    | Wait(first: bool, seconds: nat)
    | Post(first: bool, mid: Mid, body: Body, record: bool)
    | Cut(ab: nat, ba: nat)
    | Stop(first: bool)
    | Connect(orderA: seq<Mid>, filesA: seq<File>, orderB: seq<Mid>, filesB: seq<File>)

  predicate CanMove(x: Station, inq: seq<Msg>) {
    x.alive && x.next <= |x.props| && (x.pc.Turn? || (Reads(x.pc) && inq != []))
  }

  /** The station after its move, what is left to read, and what it has sent. */
  ghost function Moved(x: Station, inq: seq<Msg>, ring: Ring): (Station, seq<Msg>, seq<Msg>)
    requires CanMove(x, inq)
  {
    if x.pc.Turn? then var (x', out) := Outbound(x); (x', inq, out)
    else var (x', out) := Take(x, inq[0], ring); (x', inq[1..], out)
  }

  /** A session begins: old ids are forgotten, and everything in the outbox is to be proposed. */
  function Begin(x: Station, order: seq<Mid>, files: seq<File>, pc: Pc): Station
    requires |files| == |order| && forall i :: 0 <= i < |order| ==> order[i] in x.outbox
  {
    x.(db := Unexpired(x.db, x.now), next := 0, pc := pc, alive := true,
       props := seq(|order|, i requires 0 <= i < |order| => Proposal(order[i], |x.outbox[order[i]]|, files[i], false, false)))
  }

  /** The outbox in the order in which its directory is read, and each message compressed. */
  ghost predicate Lists(order: seq<Mid>, files: seq<File>, outbox: map<Mid, Body>) {
    && (forall i :: 0 <= i < |order| ==> order[i] in outbox)
    && (forall m :: m in outbox ==> m in order)
    && (forall i, j :: 0 <= i < j < |order| ==> order[i] != order[j])
    && Carries(files, order, outbox)
  }

  /** What has been recorded more than thirty days ago is forgotten as a session begins, and nothing else. */
  lemma BeginForgets(x: Station, order: seq<Mid>, files: seq<File>, pc: Pc)
    requires |files| == |order| && forall i :: 0 <= i < |order| ==> order[i] in x.outbox
    ensures var db := Begin(x, order, files, pc).db;
      (forall m :: m in db <==> m in x.db && x.now - x.db[m] <= 2592000) && forall m :: m in db ==> db[m] == x.db[m]
  {
  }

  predicate Away(x: Station) { !x.alive || x.pc.Done? || x.pc.Error? }

  /** An id that no message has had. */
  predicate Fresh(s: System, mid: Mid) { mid !in s.a.posted && mid !in s.b.posted && Proposals.MidOk(mid) }

  ghost predicate Enabled(s: System, e: Event) {
    match e
    case Move(first, _) => if first then CanMove(s.a, s.ba) else CanMove(s.b, s.ab)
    case Wait(_, _) => true
    case Post(_, mid, _, _) => Fresh(s, mid)
    case Cut(n, m) => n <= |s.ab| && m <= |s.ba|
    case Stop(_) => true
    case Connect(orderA, filesA, orderB, filesB) =>
      Away(s.a) && Away(s.b) && Lists(orderA, filesA, s.a.outbox) && Lists(orderB, filesB, s.b.outbox)
  }

  /** A new message in the outbox; as a rule its id goes into the station's own store. */
  function Posted(x: Station, mid: Mid, body: Body, record: bool): Station {
    x.(posted := x.posted[mid := body], outbox := x.outbox[mid := body], db := if record then x.db[mid := x.now] else x.db)
  }

  ghost function Apply(s: System, e: Event): System
    requires Enabled(s, e)
  {
    match e
    case Move(true, ring) => var (a, ba, out) := Moved(s.a, s.ba, ring); s.(a := a, ba := ba, ab := Sent(s.up, s.ab, out))
    case Move(false, ring) => var (b, ab, out) := Moved(s.b, s.ab, ring); s.(b := b, ab := ab, ba := Sent(s.up, s.ba, out))
    case Wait(first, d) => if first then s.(a := s.a.(now := s.a.now + d)) else s.(b := s.b.(now := s.b.now + d))
    case Post(first, mid, body, record) =>
      if first then s.(a := Posted(s.a, mid, body, record)) else s.(b := Posted(s.b, mid, body, record))
    case Cut(n, m) => s.(ab := s.ab[..n], ba := s.ba[..m], up := false)
    case Stop(first) => if first then s.(a := s.a.(alive := false), up := false) else s.(b := s.b.(alive := false), up := false)
    case Connect(orderA, filesA, orderB, filesB) =>
      System(Begin(s.a, orderA, filesA, Turn(false)), Begin(s.b, orderB, filesB, Listen([])), [], [], true)
  }

  /** What is unlinked in a step, the other station has in its store. */
  ghost predicate UnlinksKnown(s: System, t: System) {
    && (forall m :: m in s.a.outbox && m !in t.a.outbox ==> m in s.b.db)
    && (forall m :: m in s.b.outbox && m !in t.b.outbox ==> m in s.a.db)
  }

  /** Less on the way, and nothing else that matters to the session has changed. */
  ghost predicate SameSession(y: Station, y': Station) {
    y'.pc == y.pc && y'.props == y.props && y'.next == y.next && (forall m :: m in y.db ==> m in y'.db)
    && forall m :: m in y.posted ==> m in y'.posted && y'.posted[m] == y.posted[m]
  }

  lemma PendingSame(x: Station, y: Station, x': Station, y': Station, pre: seq<Msg>)
    requires Pending(x, y, pre) && SameSession(x, x') && SameSession(y, y')
    ensures Pending(x', y', pre)
  {
    if pre != [] { assert Batch(x') == Batch(x); }
  }

  lemma SettledSame(x: Station, y: Station, x': Station, y': Station)
    requires SameSession(x, x') && SameSession(y, y')
    ensures Settled(x, y) ==> Settled(x', y')
    ensures NoneMarked(x) ==> NoneMarked(x')
    ensures x.next <= |x.props| ==> Batch(x') == Batch(x) && Offered(x') == Offered(x)
  {
  }

  lemma RestSame(y: Station, y': Station, k: nat)
    requires SameSession(y, y') && y.next <= |y.props| && k <= Size(y)
    ensures Rest(y', k) == Rest(y, k)
  {
  }

  lemma CarriesSame(files: seq<File>, todo: seq<Mid>, y: Station, y': Station)
    requires Carries(files, todo, y.posted) && SameSession(y, y')
    ensures Carries(files, todo, y'.posted)
  {
    hide Encodes;
  }

  lemma CarelessSame(y: Station, y': Station)
    requires Careless(y) && SameSession(y, y')
    ensures Careless(y')
  {
    hide Sendable;
    var m :| m in y.posted && !Sendable(y.posted[m]);
    assert m in y'.posted;
  }

  lemma LeftoverSame(q: seq<Msg>, q': seq<Msg>, y: Station, y': Station)
    requires Leftover(q, y.posted) && q' <= q && SameSession(y, y')
    ensures Leftover(q', y'.posted)
  {
    hide Encodes, Packed;
    forall i | 0 <= i < |q'| ensures Packed(q'[i], y'.posted) {
      assert q'[i] == q[i];
      PackedSame(q[i], y, y');
    }
  }

  lemma PackedSame(msg: Msg, y: Station, y': Station)
    requires Packed(msg, y.posted) && SameSession(y, y')
    ensures Packed(msg, y'.posted)
  {
    hide Encodes;
    var m :| m in y.posted && Encodes(msg.file, y.posted[m]);
    PackedFrom(msg.file, m, y'.posted);
  }

  /** Somewhere from the answers of a batch on. */
  ghost predicate Later(y: Station, x: Station, yx: seq<Msg>, xy: seq<Msg>, up: bool) {
    || (exists answers :: HasAnswered(y, x, yx, xy, up, answers))
    || (exists files :: HasSent(y, x, yx, xy, up, files))
    || HasLeft(y, x, yx, xy, up)
    || Over(y, x, yx, xy)
    || Failed(y, x, yx, xy)
  }

  lemma LaterSame(y: Station, x: Station, yx: seq<Msg>, xy: seq<Msg>, up: bool,
                  y': Station, x': Station, yx': seq<Msg>, xy': seq<Msg>, up': bool)
    requires Later(y, x, yx, xy, up) && SameSession(y, y') && SameSession(x, x')
    requires yx' <= yx && xy' <= xy && (up' ==> up && yx' == yx && xy' == xy)
    ensures Later(y', x', yx', xy', up')
  {
    hide Settled, NoneMarked, Batch, Offered, Accepted, Carries, Datas, Careless, Leftover;
    SettledSame(x, y, x', y');
    SettledSame(y, x, y', x');
    if answers :| HasAnswered(y, x, yx, xy, up, answers) {
      assert HasAnswered(y', x', yx', xy', up', answers);
    } else if files :| HasSent(y, x, yx, xy, up, files) {
      CarriesSame(files, x.pc.todo, y, y');
      assert HasSent(y', x', yx', xy', up', files);
    } else if HasLeft(y, x, yx, xy, up) {
      assert HasLeft(y', x', yx', xy', up');
    } else if Failed(y, x, yx, xy) {
      CarelessSame(y, y');
      LeftoverSame(yx, yx', y, y');
      assert Failed(y', x', yx', xy');
    } else {
      assert Over(y', x', yx', xy');
    }
  }

  lemma PhaseSame(y: Station, x: Station, yx: seq<Msg>, xy: seq<Msg>, up: bool,
                  y': Station, x': Station, yx': seq<Msg>, xy': seq<Msg>, up': bool)
    requires Phase(y, x, yx, xy, up) && SameSession(y, y') && SameSession(x, x')
    requires yx' <= yx && xy' <= xy && (up' ==> up && yx' == yx && xy' == xy)
    ensures Phase(y', x', yx', xy', up')
  {
    hide Pending, Settled, NoneMarked, Batch, Offered, Rest, HasAnswered, HasSent, HasLeft, Over, Failed, SameSession;
    if Later(y, x, yx, xy, up) {
      LaterSame(y, x, yx, xy, up, y', x', yx', xy', up');
    } else {
      EarlierSame(y, x, yx, xy, up, y', x', yx', xy', up');
    }
  }

  lemma EarlierSame(y: Station, x: Station, yx: seq<Msg>, xy: seq<Msg>, up: bool,
                    y': Station, x': Station, yx': seq<Msg>, xy': seq<Msg>, up': bool)
    requires Phase(y, x, yx, xy, up) && !Later(y, x, yx, xy, up) && SameSession(y, y') && SameSession(x, x')
    requires yx' <= yx && xy' <= xy && (up' ==> up && yx' == yx && xy' == xy)
    ensures Phase(y', x', yx', xy', up')
  {
    hide Pending, Settled, NoneMarked, Batch, Offered, Rest, HasAnswered, HasSent, HasLeft, Over, Failed;
    SettledSame(x, y, x', y');
    SettledSame(y, x, y', x');
    if pre :| HasTurn(y, x, yx, xy, up, pre) {
      PendingSame(x, y, x', y', pre);
      assert HasTurn(y', x', yx', xy', up', pre);
    } else if pre :| HasOffered(y, x, yx, xy, up, pre) {
      PendingSame(x, y, x', y', pre);
      RestSame(y, y', 0);
      assert HasOffered(y', x', yx', xy', up', pre);
    } else if Reading(y, x, yx, xy, up) {
      RestSame(y, y', |x.pc.offers|);
      assert Reading(y', x', yx', xy', up');
    } else {
      var pre :| HasPassed(y, x, yx, xy, up, pre);
      PendingSame(x, y, x', y', pre);
      assert HasPassed(y', x', yx', xy', up', pre);
    }
  }

  lemma InvSame(s: System, t: System)
    requires Inv(s) && Pair(t.a, t.b) && SameSession(s.a, t.a) && SameSession(s.b, t.b)
    requires t.ab <= s.ab && t.ba <= s.ba && (t.up ==> s.up && t.ab == s.ab && t.ba == s.ba)
    ensures Inv(t)
  {
    hide Phase, Pair;
    if Phase(s.a, s.b, s.ab, s.ba, s.up) {
      PhaseSame(s.a, s.b, s.ab, s.ba, s.up, t.a, t.b, t.ab, t.ba, t.up);
    } else {
      PhaseSame(s.b, s.a, s.ba, s.ab, s.up, t.b, t.a, t.ba, t.ab, t.up);
    }
  }

  lemma WaitKeeps(x: Station, y: Station, d: nat)
    requires Pair(x, y)
    ensures Pair(x.(now := x.now + d), y)
  {
    hide Delivered;
    var x' := x.(now := x.now + d);
    assert Own(x');
    forall m ensures Known(x'.db, m, x'.now) || LongAgo(x'.mail, m, x'.now) {
      assert Known(x.db, m, x.now) || LongAgo(x.mail, m, x.now);
    }
  }

  lemma PostKeeps(x: Station, y: Station, mid: Mid, body: Body, record: bool)
    requires Pair(x, y) && mid !in x.posted && mid !in y.posted && Proposals.MidOk(mid)
    ensures Pair(Posted(x, mid, body, record), y) && SameSession(x, Posted(x, mid, body, record))
  {
    hide Delivered, LongAgo, NoDuplicates, StoreOk, Sendable, Encodes, Proposals.MidOk;
    var x' := Posted(x, mid, body, record);
    PostOwn(x, mid, body, record);
    PostStore(x, y.posted, mid, body, record);
    assert Mailbox(y, x'.posted);
  }

  lemma PostOwn(x: Station, mid: Mid, body: Body, record: bool)
    requires Own(x) && mid !in x.posted && Proposals.MidOk(mid)
    ensures Own(Posted(x, mid, body, record))
  {
    hide Sendable, Encodes, Proposals.MidOk;
  }

  /** An id posted here has not been delivered here. */
  lemma PostStore(x: Station, posted: map<Mid, Body>, mid: Mid, body: Body, record: bool)
    requires Mailbox(x, posted) && mid !in posted
    ensures var x' := Posted(x, mid, body, record); StoreOk(x'.db, x'.mail, x'.posted, x'.now)
  {
    hide Delivered;
    var x' := Posted(x, mid, body, record);
    forall m ensures Known(x'.db, m, x'.now) || LongAgo(x'.mail, m, x'.now) {
      assert Known(x.db, m, x.now) || LongAgo(x.mail, m, x.now);
    }
  }

  lemma StopKeeps(x: Station, y: Station)
    requires Pair(x, y)
    ensures Pair(x.(alive := false), y)
  {
    hide Delivered, LongAgo;
    assert Own(x.(alive := false));
  }

  lemma BeginKeeps(x: Station, y: Station, order: seq<Mid>, files: seq<File>, pc: Pc)
    requires Pair(x, y) && Lists(order, files, x.outbox) && !pc.Receive?
    ensures Pair(Begin(x, order, files, pc), y) && NoneMarked(Begin(x, order, files, pc))
  {
    hide Delivered, Sendable, Encodes;
    var x' := Begin(x, order, files, pc);
    assert Own(x');
    forall m ensures Known(x'.db, m, x'.now) || LongAgo(x'.mail, m, x'.now) {
      assert Known(x.db, m, x.now) || LongAgo(x.mail, m, x.now);
    }
    assert Mailbox(x', y.posted);
  }

  /** A new session starts in good order, however the last one ended. */
  lemma ConnectKeeps(s: System, e: Event)
    requires Inv(s) && Enabled(s, e) && e.Connect?
    ensures Inv(Apply(s, e)) && UnlinksKnown(s, Apply(s, e))
  {
    hide Pair, Begin, NoneMarked, Lists;
    var Connect(orderA, filesA, orderB, filesB) := e;
    var a, b := Apply(s, e).a, Apply(s, e).b;
    BeginKeeps(s.a, s.b, orderA, filesA, Turn(false));
    PairSwap(a, s.b);
    BeginKeeps(s.b, a, orderB, filesB, Listen([]));
    PairSwap(b, a);
    NoneSettled(b, a);
    BeginIs(s.a, orderA, filesA, Turn(false));
    BeginIs(s.b, orderB, filesB, Listen([]));
    assert HasTurn(a, b, [], [], true, []);
  }

  lemma BeginIs(x: Station, order: seq<Mid>, files: seq<File>, pc: Pc)
    requires Lists(order, files, x.outbox)
    ensures Begin(x, order, files, pc).pc == pc && Begin(x, order, files, pc).outbox == x.outbox
  {
    hide Encodes;
  }

  /** One station goes on: everything is kept, and nothing comes out of place. */
  lemma MoveKeeps(y: Station, x: Station, yx: seq<Msg>, xy: seq<Msg>, up: bool, ring: Ring)
    requires Pair(y, x) && (Phase(y, x, yx, xy, up) || Phase(x, y, xy, yx, up)) && CanMove(x, yx)
    ensures var (x', yx', out) := Moved(x, yx, ring);
      && Pair(y, x') && (Phase(y, x', yx', Sent(up, xy, out), up) || Phase(x', y, Sent(up, xy, out), yx', up))
      && (forall m :: m in x.outbox && m !in x'.outbox ==> m in y.db)
  {
    hide Pair, Phase, Take, Outbound;
    PairSwap(y, x);
    if x.pc.Turn? {
      if Phase(y, x, yx, xy, up) { OtherTurn(y, x, yx, xy, up); }
      AnyTurn(x, y, xy, yx, up);
      OutboundOutbox(x);
      PairSwap(Outbound(x).0, y);
    } else {
      if Phase(y, x, yx, xy, up) { AnyRead(y, x, yx, xy, up, ring); } else { OwnRead(x, y, xy, yx, up, ring); }
      PairSwap(Take(x, yx[0], ring).0, y);
    }
  }

  lemma OutboundOutbox(x: Station)
    requires x.pc.Turn? && x.next <= |x.props|
    ensures Outbound(x).0.outbox == x.outbox
  {
  }

  lemma MoveStep(s: System, e: Event)
    requires Inv(s) && Enabled(s, e) && e.Move?
    ensures Inv(Apply(s, e)) && UnlinksKnown(s, Apply(s, e))
  {
    hide Pair, Phase, Moved, CanMove, Sent;
    PairSwap(s.a, s.b);
    if e.first {
      MoveKeeps(s.b, s.a, s.ba, s.ab, s.up, e.ring);
      PairSwap(s.b, Moved(s.a, s.ba, e.ring).0);
    } else {
      MoveKeeps(s.a, s.b, s.ab, s.ba, s.up, e.ring);
    }
  }

  lemma WaitStep(s: System, e: Event)
    requires Inv(s) && Enabled(s, e) && e.Wait?
    ensures Inv(Apply(s, e)) && UnlinksKnown(s, Apply(s, e))
  {
    hide Pair, Phase;
    PairSwap(s.a, s.b);
    if e.first { WaitKeeps(s.a, s.b, e.seconds); } else { WaitKeeps(s.b, s.a, e.seconds); PairSwap(Apply(s, e).b, s.a); }
    InvSame(s, Apply(s, e));
  }

  lemma PostStep(s: System, e: Event)
    requires Inv(s) && Enabled(s, e) && e.Post?
    ensures Inv(Apply(s, e)) && UnlinksKnown(s, Apply(s, e))
  {
    hide Pair, Phase;
    PairSwap(s.a, s.b);
    if e.first {
      PostKeeps(s.a, s.b, e.mid, e.body, e.record);
    } else {
      PostKeeps(s.b, s.a, e.mid, e.body, e.record);
      PairSwap(Apply(s, e).b, s.a);
    }
    InvSame(s, Apply(s, e));
  }

  /** The link is cut, or a station stops. */
  lemma BreakStep(s: System, e: Event)
    requires Inv(s) && Enabled(s, e) && (e.Cut? || e.Stop?)
    ensures Inv(Apply(s, e)) && UnlinksKnown(s, Apply(s, e))
  {
    hide Pair, Phase;
    PairSwap(s.a, s.b);
    if e.Stop? {
      if e.first { StopKeeps(s.a, s.b); } else { StopKeeps(s.b, s.a); PairSwap(Apply(s, e).b, s.a); }
    }
    InvSame(s, Apply(s, e));
  }

  /** Every step keeps the invariant, and unlinks only what the other station has recorded. */
  lemma StepKeeps(s: System, e: Event)
    requires Inv(s) && Enabled(s, e)
    ensures Inv(Apply(s, e)) && UnlinksKnown(s, Apply(s, e))
  {
    hide Inv, Apply, Enabled, UnlinksKnown;
    match e
    case Move(_, _) => MoveStep(s, e);
    case Wait(_, _) => WaitStep(s, e);
    case Post(_, _, _, _) => PostStep(s, e);
    case Cut(_, _) => BreakStep(s, e);
    case Stop(_) => BreakStep(s, e);
    case Connect(_, _, _, _) => ConnectKeeps(s, e);
  }

  // ----- runs -----

  ghost predicate IsRun(s: System, es: seq<Event>)
    decreases |es|, 0
  {
    es == [] || (IsRun(s, es[..|es| - 1]) && Enabled(After(s, es[..|es| - 1]), es[|es| - 1]))
  }

  ghost function After(s: System, es: seq<Event>): System
    requires IsRun(s, es)
    decreases |es|, 1
  {
    if es == [] then s else Apply(After(s, es[..|es| - 1]), es[|es| - 1])
  }

  ghost predicate Empty(x: Station) {
    x.posted == map[] && x.outbox == map[] && x.props == [] && x.next == 0 && x.db == map[] && x.mail == [] && x.pc == Done
  }

  /** Two stations that have never exchanged anything. */
  ghost predicate Initial(s: System) {
    Empty(s.a) && Empty(s.b) && s.ab == [] && s.ba == []
  }

  lemma InitialInv(s: System)
    requires Initial(s)
    ensures Inv(s)
  {
    assert Own(s.a) && Own(s.b);
    assert Over(s.a, s.b, s.ab, s.ba);
  }

  lemma {:induction false} RunKeeps(s: System, es: seq<Event>)
    requires Initial(s) && IsRun(s, es)
    ensures Inv(After(s, es))
  {
    hide Inv, Initial, Apply, Enabled;
    if es == [] {
      InitialInv(s);
    } else {
      RunKeeps(s, es[..|es| - 1]);
      StepKeeps(After(s, es[..|es| - 1]), es[|es| - 1]);
    }
  }

  /** Of a text that the codec carries, what is delivered is that text. */
  ghost predicate Unaltered(mail: seq<Delivery>, posted: map<Mid, Body>) {
    forall j :: 0 <= j < |mail| && mail[j].mid in posted && Sendable(posted[mail[j].mid]) ==> mail[j].body == posted[mail[j].mid]
  }

  /** What a station's user may rely on, towards the station `y` it exchanges with. */
  ghost predicate Safe(x: Station, y: Station) {
    && (forall m :: m in x.posted ==> (m in x.outbox && x.outbox[m] == x.posted[m]) || Delivered(y.mail, m))
    && Genuine(y.mail, x.posted) && Unaltered(y.mail, x.posted)
    && NoDuplicates(y.mail)
    && (x.pc == Error ==> Careless(y))
  }

  /** In every run, whatever is posted, whatever is cut and whoever stops: every message is still in its outbox or has been
      delivered, none twice within thirty days, none that the codec carries is altered, and a station ends in an error
      only if the other has posted one that it does not carry. */
  lemma AlwaysSafe(s: System, es: seq<Event>)
    requires Initial(s) && IsRun(s, es)
    ensures var t := After(s, es); Safe(t.a, t.b) && Safe(t.b, t.a)
  {
    hide IsRun, After, Initial;
    RunKeeps(s, es);
    InvSafe(After(s, es));
  }

  lemma InvSafe(t: System)
    requires Inv(t)
    ensures Safe(t.a, t.b) && Safe(t.b, t.a)
  {
    hide Phase, Delivered, LongAgo, Unaltered, Yields, Careless, StoreOk, TodoOk;
    if Phase(t.a, t.b, t.ab, t.ba, t.up) { OtherTurn(t.a, t.b, t.ab, t.ba, t.up); } else { OtherTurn(t.b, t.a, t.ba, t.ab, t.up); }
    GenuineUnaltered(t.a.mail, t.b.posted);
    GenuineUnaltered(t.b.mail, t.a.posted);
  }

  lemma GenuineUnaltered(mail: seq<Delivery>, posted: map<Mid, Body>)
    requires Genuine(mail, posted)
    ensures Unaltered(mail, posted)
  {
    hide Yields, Sendable;
    forall j | 0 <= j < |mail| && mail[j].mid in posted && Sendable(posted[mail[j].mid]) ensures mail[j].body == posted[mail[j].mid] {
      YieldsSame(posted[mail[j].mid], mail[j].body);
    }
  }

  /** In every run a message is unlinked only when the other station has it in its store. */
  lemma UnlinkedOnlyWhenKnown(s: System, es: seq<Event>, e: Event)
    requires Initial(s) && IsRun(s, es) && Enabled(After(s, es), e)
    ensures UnlinksKnown(After(s, es), Apply(After(s, es), e))
  {
    hide IsRun, After, Initial, Inv, Apply, Enabled;
    RunKeeps(s, es);
    StepKeeps(After(s, es), e);
  }
}
