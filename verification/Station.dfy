/**
  One station of the B2 forwarding exchange: its outbox, the proposals it makes, the store of
  ids it has received, and one turn of its program at a time.
 */
module Station {
  import opened Bytes
  import opened Mids
  import opened Options
  import opened Lzss
  import opened Stream
  import Archive
  import Forest

  type Body = seq<byte>

  /** A compressed message. */
  type File = seq<byte>

  /** The codec's text ring, which keeps what earlier calls have left in it. */
  type Ring = r: seq<byte> | |r| == Forest.TEXT_SIZE witness seq(Forest.TEXT_SIZE, _ => 0)

  const PROPLIMIT := 5

  datatype Proposal = Proposal(mid: Mid, usize: nat, file: File, accepted: bool, delete: bool)

  datatype Delivery = Delivery(mid: Mid, body: Body, time: int)

  /** What goes over the link: a proposal with both sizes, the end of a batch, the answers, a compressed message, and
      the two commands of an empty hand. */
  datatype Msg = FC(mid: Mid, usize: nat, csize: nat) | Prompt | FS(answers: seq<bool>) | Data(file: File) | FF | FQ

  /** Where the program stands: about to propose, waiting for answers, reading commands with the
      proposals of a batch, receiving the messages it has accepted, or gone. */
  datatype Pc = Turn(afterFF: bool) | AwaitFS | Listen(offers: seq<Mid>) | Receive(todo: seq<Mid>) | Done | Error

  /** `posted` keeps every message ever put into the outbox; `mail` every message delivered here. */
  datatype Station = Station(posted: map<Mid, Body>, outbox: map<Mid, Body>, props: seq<Proposal>, next: nat,
                             db: Db, now: int, mail: seq<Delivery>, pc: Pc, alive: bool)

  // ----- compressed messages -----

  /** The tokens are a parse of the text as the encoder makes one. */
  ghost predicate Parses(ts: seq<Token>, text: Body) {
    Sound(ts) && Expand(ts) == Blanks() + text && Greedy(Blanks() + text, ts)
  }

  /** The file is what the encoder makes of the text, whatever its ring holds. */
  ghost predicate Encodes(file: File, text: Body) {
    exists ts :: Parses(ts, text) && Archive.Packed(file, text, ts)
  }

  /** A text that the encoder comes to an end with: its length and that of the file are below 2^32. */
  ghost predicate Compressible(text: Body) {
    |text| < Archive.SIZES && forall file :: Encodes(file, text) ==> |file| < Archive.SIZES
  }

  /** A text that the codec can carry: however it is parsed every set bit arrives, and both lengths are below 2^32. */
  ghost predicate Sendable(text: Body) {
    |text| < Archive.SIZES
    && forall file, ts :: Parses(ts, text) && Archive.Packed(file, text, ts) ==> Fits(ts) && |file| < Archive.SIZES
  }

  lemma SendableCompressible(text: Body)
    requires Sendable(text)
    ensures Compressible(text)
  {
    hide Parses, Archive.Packed, Fits;
  }

  /** Texts of up to 2^31 - 4 bytes are compressible. */
  lemma ModestCompressible(text: Body)
    requires |text| <= 0x7FFF_FFFC
    ensures Compressible(text)
  {
    hide Parses, Archive.Packs;
    forall file | Encodes(file, text) ensures |file| < Archive.SIZES {
      var ts :| Parses(ts, text) && Archive.Packed(file, text, ts);
      Archive.PackedSize(file[2..], text, ts);
    }
  }

  /** What the codec can make of a text: what is recovered of a file that the encoder makes of it. */
  ghost predicate Yields(text: Body, body: Body) {
    exists file, ring: Ring :: Encodes(file, text) && Archive.Unpacked(file, ring) == Some(body)
  }

  /** What the receiver recovers of a sendable text is the text, whatever its ring holds. */
  lemma Recovers(file: File, text: Body, ring: Ring)
    requires Encodes(file, text) && Sendable(text)
    ensures Archive.Unpacked(file, ring) == Some(text) && |file| < Archive.SIZES
  {
    hide Parses, Archive.Packed, Archive.Unpacked, Fits;
    var ts :| Parses(ts, text) && Archive.Packed(file, text, ts);
    ParsesSound(ts, text);
    Archive.RoundTrip(file, text, ts, ring);
  }

  lemma YieldsFrom(file: File, text: Body, ring: Ring, body: Body)
    requires Encodes(file, text) && Archive.Unpacked(file, ring) == Some(body)
    ensures Yields(text, body)
  {
    hide Encodes, Archive.Unpacked;
  }

  lemma YieldsSame(text: Body, body: Body)
    requires Yields(text, body) && Sendable(text)
    ensures body == text
  {
    hide Encodes, Sendable, Archive.Unpacked;
    var file, ring: Ring :| Encodes(file, text) && Archive.Unpacked(file, ring) == Some(body);
    Recovers(file, text, ring);
  }

  lemma ParsesSound(ts: seq<Token>, text: Body)
    requires Parses(ts, text)
    ensures Sound(ts) && |ts| <= |text|
  {
    hide Sound, Expand, Greedy;
  }

  /** Texts of up to 3867 bytes are sendable. */
  lemma ShortSendable(text: Body)
    requires |text| <= 3867
    ensures Sendable(text)
  {
    hide Sound, Expand, Greedy, Archive.Packs, Fits;
    forall file, ts | Parses(ts, text) && Archive.Packed(file, text, ts) ensures Fits(ts) && |file| < Archive.SIZES {
      ParsesSound(ts, text);
      FewFit(ts);
      Archive.PackedSize(file[2..], text, ts);
    }
  }

  // ----- proposing -----

  /** How many proposals the next batch has. */
  function Size(s: Station): (n: nat)
    requires s.next <= |s.props|
    ensures n <= 5 && s.next + n <= |s.props| && (n < 5 ==> s.next + n == |s.props|)
  {
    if |s.props| - s.next < PROPLIMIT then |s.props| - s.next else PROPLIMIT
  }

  function MidsOf(ps: seq<Proposal>): (r: seq<Mid>)
    ensures |r| == |ps| && forall i :: 0 <= i < |ps| ==> r[i] == ps[i].mid
  {
    seq(|ps|, i requires 0 <= i < |ps| => ps[i].mid)
  }

  /** The proposals of the next batch. */
  function Offered(s: Station): (r: seq<Proposal>)
    requires s.next <= |s.props|
    ensures |r| == Size(s) && forall i :: 0 <= i < |r| ==> r[i] == s.props[s.next + i]
  {
    s.props[s.next..s.next + Size(s)]
  }

  function Batch(s: Station): (r: seq<Mid>)
    requires s.next <= |s.props|
    ensures |r| == Size(s) && forall i :: 0 <= i < |r| ==> r[i] == s.props[s.next + i].mid
  {
    MidsOf(Offered(s))
  }

  function Offer(p: Proposal): Msg { FC(p.mid, p.usize, |p.file|) }

  function Offers(ps: seq<Proposal>): (r: seq<Msg>)
    ensures |r| == |ps| && forall i :: 0 <= i < |r| ==> r[i] == Offer(ps[i])
  {
    seq(|ps|, i requires 0 <= i < |ps| => Offer(ps[i]))
  }

  /** b2outboundproposal up to its first read: a batch, or FF, or FQ in answer to FF. */
  function Outbound(s: Station): (Station, seq<Msg>)
    requires s.pc.Turn? && s.next <= |s.props|
  {
    if s.next < |s.props| then (s.(pc := AwaitFS), Offers(Offered(s)) + [Prompt])
    else if s.pc.afterFF then (s.(pc := Done), [FQ])
    else (s.(pc := Listen([])), [FF])
  }

  /** The proposals after the letters of an FS line have been read. */
  function Answered(ps: seq<Proposal>, next: nat, answers: seq<bool>): (r: seq<Proposal>)
    ensures |r| == |ps|
  {
    seq(|ps|, i requires 0 <= i < |ps| =>
      if next <= i < next + |answers| then ps[i].(accepted := answers[i - next], delete := !answers[i - next]) else ps[i])
  }

  /** The messages of those proposals from `lo` to `hi` that are not to be deleted. */
  function Transfers(ps: seq<Proposal>, lo: nat, hi: nat): seq<Msg>
    requires lo <= hi <= |ps|
  {
    if lo == hi then []
    else Transfers(ps, lo, hi - 1) + (if ps[hi - 1].delete then [] else [Data(ps[hi - 1].file)])
  }

  function AllDeleted(ps: seq<Proposal>, lo: nat, hi: nat): (r: seq<Proposal>)
    ensures |r| == |ps|
  {
    seq(|ps|, i requires 0 <= i < |ps| => if lo <= i < hi then ps[i].(delete := true) else ps[i])
  }

  /** The rest of b2outboundproposal: read the answers, send what was not refused, go on to the next batch. */
  function TakeAnswers(s: Station, answers: seq<bool>): (Station, seq<Msg>)
    requires s.next <= |s.props|
  {
    var ps := Answered(s.props, s.next, answers);
    var hi := s.next + Size(s);
    (s.(props := AllDeleted(ps, s.next, hi), next := hi, pc := Listen([])), Transfers(ps, s.next, hi))
  }

  // ----- listening -----

  /** The ids of the proposals made so far that are marked to be deleted. */
  function Doomed(s: Station): set<Mid> {
    set i | 0 <= i < |s.props| && i < s.next && s.props[i].delete :: s.props[i].mid
  }

  function Unmarked(ps: seq<Proposal>, hi: nat): (r: seq<Proposal>)
    ensures |r| == |ps|
  {
    seq(|ps|, i requires 0 <= i < |ps| => if i < hi then ps[i].(delete := false) else ps[i])
  }

  /** dodelete: unlink what is marked among the proposals made so far. */
  function DoDelete(s: Station): Station {
    s.(outbox := s.outbox - Doomed(s), props := Unmarked(s.props, s.next))
  }

  /** The answers to a batch, and the store after the looks for its ids. */
  function Replies(db: Db, mids: seq<Mid>, now: int): (seq<bool>, Db) {
    if mids == [] then ([], db)
    else
      var (answers, db1) := Replies(db, mids[..|mids| - 1], now);
      var m := mids[|mids| - 1];
      (answers + [!Known(db1, m, now)], Checked(db1, m, now))
  }

  /** An id is answered yes exactly if it is not in the store, or was recorded more than thirty days ago; and then it is
      not in the store any more. */
  lemma {:induction false} RepliesAre(db: Db, mids: seq<Mid>, now: int)
    requires forall i, j :: 0 <= i < j < |mids| ==> mids[i] != mids[j]
    ensures var (answers, db') := Replies(db, mids, now);
      && |answers| == |mids|
      && (forall i :: 0 <= i < |mids| ==> (answers[i] <==> mids[i] !in db || now - db[mids[i]] > 2592000))
      && (forall i :: 0 <= i < |mids| ==> (answers[i] <==> mids[i] !in db'))
      && (forall m :: m in db' ==> m in db && db'[m] == db[m])
      && (forall m :: m in db && m !in mids ==> m in db')
  {
    if mids != [] {
      var n := |mids| - 1;
      RepliesAre(db, mids[..n], now);
      assert mids[n] !in mids[..n];
      assert forall i :: 0 <= i < n ==> mids[..n][i] == mids[i];
    }
  }

  /** Those of a list that were answered with yes. */
  function Accepted<T>(xs: seq<T>, answers: seq<bool>): seq<T>
    requires |answers| == |xs|
  {
    if xs == [] then []
    else Accepted(xs[..|xs| - 1], answers[..|xs| - 1]) + (if answers[|xs| - 1] then [xs[|xs| - 1]] else [])
  }

  lemma {:induction false} RepliesLength(db: Db, mids: seq<Mid>, now: int)
    ensures |Replies(db, mids, now).0| == |mids|
  {
    if mids != [] { RepliesLength(db, mids[..|mids| - 1], now); }
  }

  /** The end of a batch: answer it, and go on to receive, or to the own turn when nothing was accepted. */
  function TakePrompt(s: Station, offers: seq<Mid>): (Station, seq<Msg>) {
    if offers == [] then (s.(pc := Turn(false)), [])
    else
      var (answers, db) := Replies(s.db, offers, s.now);
      RepliesLength(s.db, offers, s.now);
      var todo := Accepted(offers, answers);
      (s.(db := db, pc := if todo == [] then Turn(false) else Receive(todo)), [FS(answers)])
  }

  /** The id is in the list and was answered with yes. */
  ghost predicate Chosen(xs: seq<Mid>, answers: seq<bool>, m: Mid)
    requires |answers| == |xs|
  {
    exists i :: 0 <= i < |xs| && xs[i] == m && answers[i]
  }

  lemma {:induction false} AcceptedAre(xs: seq<Mid>, answers: seq<bool>, m: Mid)
    requires |answers| == |xs|
    ensures m in Accepted(xs, answers) <==> Chosen(xs, answers, m)
  {
    hide Chosen;
    if xs == [] {
      NoneChosen(xs, answers, m);
    } else {
      var n := |xs| - 1;
      AcceptedAre(xs[..n], answers[..n], m);
      ChosenLast(xs, answers, m);
    }
  }

  lemma NoneChosen(xs: seq<Mid>, answers: seq<bool>, m: Mid)
    requires |answers| == |xs| == 0
    ensures !Chosen(xs, answers, m)
  {
  }

  lemma ChosenLast(xs: seq<Mid>, answers: seq<bool>, m: Mid)
    requires |answers| == |xs| > 0
    ensures var n := |xs| - 1; Chosen(xs, answers, m) <==> Chosen(xs[..n], answers[..n], m) || (xs[n] == m && answers[n])
  {
    var n := |xs| - 1;
    var ys, said := xs[..n], answers[..n];
    if Chosen(ys, said, m) {
      var i :| 0 <= i < |ys| && ys[i] == m && said[i];
      assert xs[i] == m && answers[i];
    }
    if Chosen(xs, answers, m) {
      var i :| 0 <= i < |xs| && xs[i] == m && answers[i];
      if i < n { assert ys[i] == m && said[i]; }
    }
  }

  /** A batch of different ids is answered id by id, yes exactly for those not recorded in the last thirty days, and these
      are awaited. */
  lemma PromptAnswers(s: Station, offers: seq<Mid>)
    requires offers != [] && forall i, j :: 0 <= i < j < |offers| ==> offers[i] != offers[j]
    ensures var (s', out) := TakePrompt(s, offers);
      && |out| == 1 && out[0].FS? && |out[0].answers| == |offers|
      && (forall i :: 0 <= i < |offers| ==> (out[0].answers[i] <==> offers[i] !in s.db || s.now - s.db[offers[i]] > 2592000))
      && (forall m :: (s'.pc.Receive? && m in s'.pc.todo) <==> m in offers && (m !in s.db || s.now - s.db[m] > 2592000))
  {
    hide Replies, Accepted;
    RepliesAre(s.db, offers, s.now);
    var answers := Replies(s.db, offers, s.now).0;
    forall m ensures m in Accepted(offers, answers) <==> m in offers && (m !in s.db || s.now - s.db[m] > 2592000) {
      AcceptedAre(offers, answers, m);
      if m in offers {
        var i :| 0 <= i < |offers| && offers[i] == m;
        assert answers[i] ==> Chosen(offers, answers, m);
      }
    }
  }

  /** A message has been recovered for the first accepted id: deliver it, and record the id. */
  function Deliver(s: Station, todo: seq<Mid>, body: Body): Station
    requires todo != []
  {
    s.(mail := s.mail + [Delivery(todo[0], body, s.now)], db := s.db[todo[0] := s.now],
       pc := if |todo| == 1 then Turn(false) else Receive(todo[1..]))
  }

  /** A compressed message has come; one that cannot be recovered ends the program. */
  ghost function TakeData(s: Station, todo: seq<Mid>, file: File, ring: Ring): Station
    requires todo != []
  {
    match Archive.Unpacked(file, ring)
    case None => s.(pc := Error)
    case Some(body) => Deliver(s, todo, body)
  }

  predicate Reads(pc: Pc) { pc.AwaitFS? || pc.Listen? || pc.Receive? }

  /** What the station does with the next thing that comes over the link; a thing out of place ends it. */
  ghost function Take(s: Station, msg: Msg, ring: Ring): (Station, seq<Msg>)
    requires Reads(s.pc) && s.next <= |s.props|
  {
    match s.pc
    case AwaitFS => if msg.FS? then TakeAnswers(s, msg.answers) else (s.(pc := Error), [])
    case Receive(todo) => if msg.Data? && todo != [] then (TakeData(s, todo, msg.file, ring), []) else (s.(pc := Error), [])
    case Listen(offers) =>
      match msg
      case FC(mid, _, _) =>
        if |offers| == PROPLIMIT then (DoDelete(s).(pc := Error), []) else (DoDelete(s).(pc := Listen(offers + [mid])), [])
      case FF => (DoDelete(s).(pc := Turn(true)), [])
      case FQ => (DoDelete(s).(pc := Done), [])
      case Prompt => TakePrompt(s, offers)
      case _ => (s.(pc := Error), [])
  }

  /** What the program waits for: answers, a transfer, or a command, of which a sixth proposal in a batch is none. */
  predicate Awaited(pc: Pc, msg: Msg) {
    match pc
    case AwaitFS => msg.FS?
    case Receive(todo) => msg.Data? && todo != []
    case Listen(offers) => msg.FF? || msg.FQ? || msg.Prompt? || (msg.FC? && |offers| != 5)
    case _ => false
  }

  /** It ends in an error exactly over something else, or a message that is not recovered, and then sends, delivers and
      records nothing. */
  lemma TakeErrors(s: Station, msg: Msg, ring: Ring)
    requires Reads(s.pc) && s.next <= |s.props|
    ensures var (s', out) := Take(s, msg, ring);
      && (s'.pc == Error <==> !Awaited(s.pc, msg) || (msg.Data? && Archive.Unpacked(msg.file, ring) == None))
      && (s'.pc == Error ==> out == [] && s'.mail == s.mail && s'.db == s.db)
  {
    hide Archive.Unpacked, Replies, Accepted, Doomed;
  }
}
