/**
  A batch of proposals as text: the FC lines with their checksum, and what the other station
  reads from them.
 */
module Proposals {
  import opened Bytes
  import opened Buffers
  import opened Options
  import Frames

  type Text = seq<byte>

  const CR: byte := 13
  const LF: byte := 10
  const SP: byte := 32
  const MID_MAXLEN := 12
  const PROPLIMIT := 5
  const ULONG := 0x1_0000_0000_0000_0000
  const UINT := 0x1_0000_0000

  function Ch(c: char): byte
    requires c as int < 256
  {
    c as int
  }

  /** What a proposal line tells. */
  datatype Proposal = Proposal(code: byte, kind: byte, mid: Text, usize: nat, csize: nat)

  // ----- lines -----

  datatype LineRead = Line(text: Text, end: nat) | NoLine

  /** tgetline with the terminator CR, ignoring LF: bytes that are not ASCII, and 0x1e, are dropped. */
  function ReadLine(s: Text, i: nat, acc: Text): (r: LineRead)
    requires i <= |s|
    ensures r.Line? ==> i < r.end <= |s|
    decreases |s| - i
  {
    if i == |s| then NoLine
    else if s[i] == 0x1e || s[i] >= 128 then ReadLine(s, i + 1, acc)
    else if s[i] == CR then Line(acc, i + 1)
    else ReadLine(s, i + 1, if s[i] == LF then acc else acc + [s[i]])
  }

  method GetLine(inb: Wire) returns (r: LineRead)
    requires inb.at <= |inb.bytes|
    modifies inb`at
    ensures r == ReadLine(inb.bytes, old(inb.at), [])
    ensures inb.at == if r.Line? then r.end else |inb.bytes|
  {
    ghost var s := inb.bytes;
    var buf := [];
    while true
      invariant old(inb.at) <= inb.at <= |s|
      invariant ReadLine(s, old(inb.at), []) == ReadLine(s, inb.at, buf)
      decreases |s| - inb.at
    {
      var c := inb.Get();
      if c.Eof? { return NoLine; }
      if c.c == 0x1e || (c.c >= 128 && c.c != CR && c.c != LF) { continue; }
      if c.c == CR { return Line(buf, inb.at); }
      if c.c != LF { buf := buf + [c.c]; }
    }
  }

  /** A line without what tgetline drops: LF, 0x1e, and what is not ASCII. */
  function Kept(s: Text): Text {
    if s == [] then []
    else Kept(s[..|s| - 1]) + (if s[|s| - 1] == 10 || s[|s| - 1] == 30 || s[|s| - 1] > 127 then [] else [s[|s| - 1]])
  }

  lemma {:induction false} KeptConcat(s: Text, t: Text)
    ensures Kept(s + t) == Kept(s) + Kept(t)
  {
    if t == [] {
      assert s + t == s;
    } else {
      KeptConcat(s, t[..|t| - 1]);
      assert (s + t)[..|s + t| - 1] == s + t[..|t| - 1];
    }
  }

  /** A line is there exactly if a CR is, and it is what is kept of the characters up to the first one. */
  lemma {:induction false} LineIs(s: Text, i: nat, acc: Text)
    requires i <= |s|
    ensures var r := ReadLine(s, i, acc);
      if CR in s[i..] then r.Line? && s[r.end - 1] == CR && CR !in s[i..r.end - 1] && r.text == acc + Kept(s[i..r.end - 1]) else r == NoLine
    decreases |s| - i
  {
    hide Kept, ReadLine;
    ReadStep(s, i, acc);
    if i < |s| {
      assert s[i..] == [s[i]] + s[i + 1..];
      if s[i] == CR {
        assert s[i..i] == [];
      } else {
        var acc' := LineStep(s, i, acc);
        LineIs(s, i + 1, acc');
        var r := ReadLine(s, i + 1, acc');
        if r.Line? {
          var rest := s[i + 1..r.end - 1];
          assert s[i..r.end - 1] == [s[i]] + rest;
          KeptConcat([s[i]], rest);
          assert acc' + Kept(rest) == acc + (Kept([s[i]]) + Kept(rest));
        }
      }
    }
  }

  lemma ReadStep(s: Text, i: nat, acc: Text)
    requires i <= |s|
    ensures i == |s| ==> ReadLine(s, i, acc) == NoLine
    ensures i < |s| && s[i] == CR ==> ReadLine(s, i, acc) == Line(acc, i + 1) && acc + Kept(s[i..i]) == acc
  {
    assert s[i..i] == [] && acc + [] == acc;
  }

  lemma LineStep(s: Text, i: nat, acc: Text) returns (acc': Text)
    requires i < |s| && s[i] != CR
    ensures acc' == acc + Kept([s[i]]) && ReadLine(s, i, acc) == ReadLine(s, i + 1, acc')
  {
    KeptOne(s[i]);
    acc' := acc + Kept([s[i]]);
    assert acc + [] == acc;
  }

  lemma KeptOne(c: byte)
    ensures Kept([c]) == if c == 10 || c == 30 || c > 127 then [] else [c]
  {
    assert [c][..0] == [];
  }

  /** A line as a C string ends at its first NUL. */
  function CString(s: Text): (r: Text)
    ensures 0 !in r && r <= s && (|r| < |s| ==> s[|r|] == 0)
  {
    if s == [] || s[0] == 0 then [] else [s[0]] + CString(s[1..])
  }

  /** The character at `i`; NUL at the end. */
  function At(s: Text, i: nat): byte { if i < |s| then s[i] else 0 }

  predicate Begins(s: Text, p: Text) { p <= s }

  // ----- numbers -----

  predicate IsSpace(c: byte) { c == SP || 9 <= c <= 13 }

  function SpaceEnd(s: Text, i: nat): (e: nat)
    requires i <= |s|
    ensures i <= e <= |s|
    decreases |s| - i
  {
    if i < |s| && IsSpace(s[i]) then SpaceEnd(s, i + 1) else i
  }

  /** The value of a digit in any base up to 16; 16 for what is no digit. */
  function Digit(c: byte): (d: nat)
    ensures d <= 16
  {
    if 48 <= c <= 57 then c - 48 else if 65 <= c <= 70 then c - 55 else if 97 <= c <= 102 then c - 87 else 16
  }

  /** The digits are those of ASCII, the letters in either case, and nothing else is one. */
  lemma DigitIs(c: byte, d: nat)
    requires d < 16
    ensures Digit(c) == d <==> (if d < 10 then c == 48 + d else c == 55 + d || c == 87 + d)
  {
  }

  /** The digits from `i` on, behind the value `acc`. */
  function ScanDigits(s: Text, i: nat, base: nat, acc: nat): (r: (nat, nat))
    requires i <= |s| && base <= 16
    ensures i <= r.1 <= |s|
    decreases |s| - i
  {
    if i < |s| && Digit(s[i]) < base then ScanDigits(s, i + 1, base, acc * base + Digit(s[i])) else (acc, i)
  }

  /** strtoul: the value, and where the number ends; at `i` itself when there is none. */
  function Strtoul(s: Text, i: nat, base: nat): (r: (nat, nat))
    requires i <= |s| && base <= 16
    ensures i <= r.1 <= |s| && r.0 < ULONG
  {
    var j := SpaceEnd(s, i);
    var k := if At(s, j) == Ch('+') || At(s, j) == Ch('-') then j + 1 else j;
    var m := if base == 16 && At(s, k) == Ch('0') && (At(s, k + 1) == Ch('x') || At(s, k + 1) == Ch('X')) && Digit(At(s, k + 2)) < 16
             then k + 2 else k;
    var (v, e) := ScanDigits(s, m, base, 0);
    if e == m then (0, i) else if v >= ULONG then (ULONG - 1, e) else (if At(s, j) == Ch('-') then -(v as int) % ULONG else v, e)
  }

  /** The number that digits make behind `acc`. */
  function Fold(d: Text, base: nat, acc: nat): nat {
    if d == [] then acc else Fold(d[..|d| - 1], base, acc) * base + Digit(d[|d| - 1])
  }

  lemma {:induction false} FoldFront(d: Text, base: nat, acc: nat)
    requires d != []
    ensures Fold(d, base, acc) == Fold(d[1..], base, acc * base + Digit(d[0]))
  {
    if |d| > 1 {
      FoldFront(d[..|d| - 1], base, acc);
      assert d[..|d| - 1][1..] == d[1..][..|d[1..]| - 1];
    } else {
      assert d[..0] == [];
    }
  }

  lemma NoDigits(base: nat, acc: nat)
    ensures Fold([], base, acc) == acc
  {
  }

  lemma {:induction false} DigitsScanned(s: Text, i: nat, base: nat, d: Text, acc: nat)
    requires base <= 16 && i + |d| <= |s| && s[i..i + |d|] == d && forall k :: 0 <= k < |d| ==> Digit(d[k]) < base
    requires Digit(At(s, i + |d|)) >= base
    ensures ScanDigits(s, i, base, acc) == (Fold(d, base, acc), i + |d|)
    decreases |d|
  {
    hide Fold, Digit;
    if d == [] {
      NoDigits(base, acc);
    } else {
      FoldFront(d, base, acc);
      assert s[i] == d[0];
      assert s[i + 1..i + 1 + |d[1..]|] == s[i..i + |d|][1..];
      DigitsScanned(s, i + 1, base, d[1..], acc * base + Digit(d[0]));
    }
  }

  lemma {:induction false} DecimalFold(n: nat)
    ensures Fold(Frames.Decimal(n), 10, 0) == n
  {
    var d := Frames.Decimal(n);
    if n >= 10 {
      DecimalFold(n / 10);
      assert d[..|d| - 1] == Frames.Decimal(n / 10);
    } else {
      assert d[..0] == [];
    }
  }

  /** A decimal number is read back, up to what an unsigned long holds, and a larger one as that. */
  lemma DecimalRead(s: Text, i: nat, n: nat)
    requires i + |Frames.Decimal(n)| <= |s| && s[i..i + |Frames.Decimal(n)|] == Frames.Decimal(n)
    requires Digit(At(s, i + |Frames.Decimal(n)|)) >= 10
    ensures Strtoul(s, i, 10) == (if n < 0x1_0000_0000_0000_0000 then n else 0xFFFF_FFFF_FFFF_FFFF, i + |Frames.Decimal(n)|)
  {
    hide Fold, Frames.Decimal;
    var d := Frames.Decimal(n);
    assert s[i] == d[0];
    DigitsScanned(s, i, 10, d, 0);
    DecimalFold(n);
  }

  lemma {:induction false} SpacesEnd(s: Text, i: nat, j: nat)
    requires i <= j < |s| && forall k :: i <= k < j ==> s[k] == 32 || 9 <= s[k] <= 13
    requires s[j] != 32 && (s[j] < 9 || s[j] > 13)
    ensures SpaceEnd(s, i) == j
    decreases j - i
  {
    if i < j { SpacesEnd(s, i + 1, j); }
  }

  /** White space up to `j`, a sign or none, and digits from `k` to `e`: the number, negated modulo 2^64 behind a minus, and
      the largest one when it is too large. */
  lemma StrtoulIs(s: Text, i: nat, j: nat, k: nat, e: nat)
    requires i <= j <= k < e <= |s| && forall t :: i <= t < j ==> s[t] == 32 || 9 <= s[t] <= 13
    requires k == j || (k == j + 1 && (s[j] == 43 || s[j] == 45))
    requires (forall t :: k <= t < e ==> 48 <= s[t] <= 57) && (e < |s| ==> s[e] < 48 || s[e] > 57)
    ensures var n, big := Fold(s[k..e], 10, 0), 0x1_0000_0000_0000_0000;
      Strtoul(s, i, 10) == (if n >= big then big - 1 else if s[j] == 45 then (big - n) % big else n, e)
  {
    hide Fold, ScanDigits, SpaceEnd, Strtoul;
    SpacesEnd(s, i, j);
    DecimalScanned(s, k, s[k..e]);
    Signed(s, i, j, k, e, Fold(s[k..e], 10, 0));
  }

  lemma DecimalScanned(s: Text, i: nat, d: Text)
    requires i + |d| <= |s| && s[i..i + |d|] == d && (forall k :: 0 <= k < |d| ==> 48 <= d[k] <= 57)
    requires At(s, i + |d|) < 48 || At(s, i + |d|) > 57
    ensures ScanDigits(s, i, 10, 0) == (Fold(d, 10, 0), i + |d|)
  {
    hide Fold, ScanDigits;
    assert forall k :: 0 <= k < |d| ==> Digit(d[k]) < 10;
    DigitsScanned(s, i, 10, d, 0);
  }

  lemma Signed(s: Text, i: nat, j: nat, k: nat, e: nat, n: nat)
    requires i <= j <= k < e <= |s| && SpaceEnd(s, i) == j && ScanDigits(s, k, 10, 0) == (n, e) && 48 <= s[k] <= 57
    requires k == j || (k == j + 1 && (s[j] == 43 || s[j] == 45))
    ensures var big := 0x1_0000_0000_0000_0000;
      Strtoul(s, i, 10) == (if n >= big then big - 1 else if s[j] == 45 then (big - n) % big else n, e)
  {
    hide ScanDigits, SpaceEnd;
  }

  // ----- one proposal -----

  /** The line that proposes a message, without its CR. */
  function Format(p: Proposal): Text {
    [Ch('F'), p.code, SP, p.kind, Ch('M'), SP] + p.mid + [SP] + Frames.Decimal(p.usize) + [SP] + Frames.Decimal(p.csize) + [SP, Ch('0')]
  }

  /** Where an id of at most 12 characters ends: at a space, at the end of the line, or after 12. */
  function MidEnd(s: Text, i: nat, n: nat): (e: nat)
    requires i <= |s|
    ensures i <= e <= |s| && e <= i + n
    decreases n
  {
    if n == 0 || At(s, i) == SP || At(s, i) == 0 then i else MidEnd(s, i + 1, n - 1)
  }

  /** parse_proposal. */
  function Parse(s: Text): Option<Proposal> {
    if At(s, 0) != Ch('F') then None
    else if At(s, 1) != Ch('C') then Some(Proposal(At(s, 1), Ch('X'), [], 0, 0))
    else if At(s, 2) != SP || (At(s, 3) != Ch('C') && At(s, 3) != Ch('E')) || At(s, 4) != Ch('M') || At(s, 5) != SP then None
    else
      var e := MidEnd(s, 6, MID_MAXLEN);
      if At(s, e) != SP then None
      else
        var (usize, f) := Strtoul(s, e + 1, 10);
        if At(s, f) != SP then None
        else
          var (csize, g) := Strtoul(s, f + 1, 10);
          if At(s, g) != SP then None else Some(Proposal(Ch('C'), s[3], s[6..e], usize, csize % UINT))
  }

  method ParseProposal(line: Text) returns (r: Option<Proposal>)
    ensures r == Parse(line)
  {
    hide Strtoul;
    var cp := 0;
    if At(line, cp) != Ch('F') { return None; }
    cp := cp + 1;
    var code := At(line, cp);
    cp := cp + 1;
    if code != Ch('C') {
      return Some(Proposal(code, Ch('X'), [], 0, 0));
    }
    if At(line, cp) != SP { return None; }
    var kind := At(line, cp + 1);
    if kind != Ch('C') && kind != Ch('E') { return None; }
    if At(line, cp + 2) != Ch('M') { return None; }
    if At(line, cp + 3) != SP { return None; }
    cp := cp + 4;
    var mid, i := [], 0;
    while i < MID_MAXLEN
      invariant 0 <= i <= MID_MAXLEN && cp == 6 + i <= |line| && mid == line[6..cp]
      invariant MidEnd(line, 6, MID_MAXLEN) == MidEnd(line, cp, MID_MAXLEN - i)
    {
      if At(line, cp) == SP {
        break;
      } else if At(line, cp) == 0 {
        return None;
      }
      assert line[6..cp + 1] == line[6..cp] + [line[cp]];
      mid := mid + [line[cp]];
      cp, i := cp + 1, i + 1;
    }
    if At(line, cp) != SP { return None; }
    var (usize, f) := Strtoul(line, cp + 1, 10);
    if At(line, f) != SP { return None; }
    var (csize, g) := Strtoul(line, f + 1, 10);
    if At(line, g) != SP { return None; }
    r := Some(Proposal(code, kind, mid, usize, csize % UINT));
  }

  /** An id that a proposal line can carry: at most 12 characters, none of them a space or a control character. */
  predicate MidOk(mid: Text) {
    |mid| <= MID_MAXLEN && forall k :: 0 <= k < |mid| ==> SP < mid[k] < 128
  }

  /** A message that can be proposed. */
  predicate Proposable(p: Proposal) {
    p.code == Ch('C') && (p.kind == Ch('C') || p.kind == Ch('E')) && MidOk(p.mid) && p.usize < ULONG && p.csize < ULONG
  }

  lemma {:induction false} MidEnds(s: Text, i: nat, n: nat, m: Text)
    requires i + |m| < |s| && s[i..i + |m|] == m && s[i + |m|] == SP && |m| <= n
    requires SP !in m && 0 !in m
    ensures MidEnd(s, i, n) == i + |m|
    decreases n
  {
    if m != [] {
      assert s[i] == m[0];
      assert s[i + 1..i + 1 + |m[1..]|] == s[i..i + |m|][1..];
      MidEnds(s, i + 1, n - 1, m[1..]);
    }
  }

  lemma SpaceNoDigit()
    ensures Digit(SP) == 16
  {
  }

  lemma FrontFields(p: Proposal)
    ensures var s := Format(p);
      |s| > 6 && s[0] == Ch('F') && s[1] == p.code && s[2] == SP && s[3] == p.kind && s[4] == Ch('M') && s[5] == SP
  {
    hide Frames.Decimal;
  }

  lemma ParseFields(p: Proposal, a: Text, b: Text)
    requires MidOk(p.mid)
    requires a == Frames.Decimal(p.usize) && b == Frames.Decimal(p.csize)
    ensures var s := Format(p); var e := 6 + |p.mid|; var f := e + 1 + |a|; var g := f + 1 + |b|;
      && |s| == g + 2 && s[6..e] == p.mid && s[e] == SP && s[e + 1..f] == a && s[f] == SP && s[f + 1..g] == b && s[g] == SP
      && MidEnd(s, 6, MID_MAXLEN) == e
  {
    hide Frames.Decimal;
    var s, e := Format(p), 6 + |p.mid|;
    assert s[6..e] == p.mid && s[e] == SP;
    MidEnds(s, 6, MID_MAXLEN, p.mid);
  }

  /** A proposal is read back as it was made, the compressed size modulo 2^32. */
  lemma ParseInverts(p: Proposal)
    requires Proposable(p)
    ensures Parse(Format(p)) == Some(p.(csize := p.csize % UINT))
    ensures Parse(Format(p)) == Some(p) <==> p.csize < UINT
  {
    hide Strtoul, Frames.Decimal, Format, MidEnd, Digit;
    var s, a, b := Format(p), Frames.Decimal(p.usize), Frames.Decimal(p.csize);
    var e := 6 + |p.mid|;
    var f := e + 1 + |a|;
    ParseFields(p, a, b);
    FrontFields(p);
    SpaceNoDigit();
    DecimalRead(s, e + 1, p.usize);
    DecimalRead(s, f + 1, p.csize);
  }

  /** A line that begins with "FC ", a kind C or E, "M ", an id of up to 12 characters and two numbers, each of the three
      with a space behind it. */
  ghost predicate ProposalLine(s: Text, p: Proposal) {
    && p.code == Ch('C') && (p.kind == Ch('C') || p.kind == Ch('E')) && |p.mid| <= 12 && SP !in p.mid && 0 !in p.mid
    && Fields(p) <= s
    && var (usize, f) := Strtoul(s, |Fields(p)|, 10);
      && f < |s| && s[f] == SP && p.usize == usize
      && var (csize, g) := Strtoul(s, f + 1, 10);
        g < |s| && s[g] == SP && p.csize == csize % 0x1_0000_0000
  }

  /** The fields before the sizes. */
  function Fields(p: Proposal): Text { [70, p.code, SP, p.kind, 77, SP] + p.mid + [SP] }

  lemma {:induction false} MidEndIs(s: Text, i: nat, n: nat)
    requires i <= |s|
    ensures var e := MidEnd(s, i, n); SP !in s[i..e] && 0 !in s[i..e]
    decreases n
  {
    if n > 0 && At(s, i) != SP && At(s, i) != 0 {
      MidEndIs(s, i + 1, n - 1);
      assert s[i..MidEnd(s, i, n)] == [s[i]] + s[i + 1..MidEnd(s, i, n)];
    }
  }

  /** Exactly such lines are taken for the proposal of a message. */
  lemma ParseAccepts(s: Text, p: Proposal)
    ensures Parse(s) == Some(p) && p.code == Ch('C') <==> ProposalLine(s, p)
  {
    hide Strtoul, MidEnd;
    if ProposalLine(s, p) {
      var t, e := Fields(p), 6 + |p.mid|;
      assert s[..|t|] == t;
      assert s[0] == t[0] && s[1] == t[1] && s[2] == t[2] && s[3] == t[3] && s[4] == t[4] && s[5] == t[5] && s[e] == t[e];
      assert s[6..e] == t[6..e] == p.mid;
      MidEnds(s, 6, MID_MAXLEN, p.mid);
    }
    if Parse(s) == Some(p) && p.code == Ch('C') {
      var e := MidEnd(s, 6, MID_MAXLEN);
      MidEndIs(s, 6, MID_MAXLEN);
      assert s[..e + 1] == s[..6] + s[6..e] + [s[e]];
      assert s[..6] == [70, p.code, SP, p.kind, 77, SP];
      assert Fields(p) == s[..e + 1];
    }
  }

  // ----- a batch -----

  function HexDigit(n: nat): byte
    requires n < 16
  {
    if n < 10 then 48 + n else 55 + n
  }

  /** The line that ends a batch, with the checksum of its lines in two hexadecimal digits. */
  function PromptLine(cksum: byte): Text {
    [Ch('F'), Ch('>'), SP, HexDigit(cksum / 16), HexDigit(cksum % 16)]
  }

  /** The lines of a batch, each with its CR. */
  function Lines(ps: seq<Proposal>): Text {
    if ps == [] then [] else Lines(ps[..|ps| - 1]) + Format(ps[|ps| - 1]) + [CR]
  }

  function BatchText(ps: seq<Proposal>): Text {
    Lines(ps) + PromptLine(Frames.Checksum(Frames.SumOf(Lines(ps)))) + [CR]
  }

  /** The first part of b2outboundproposal: up to five proposals, and the checksum. */
  method PutBatch(ps: seq<Proposal>, out: Wire)
    requires ps != []
    modifies out`bytes
    ensures out.bytes == old(out.bytes) + BatchText(if |ps| < PROPLIMIT then ps else ps[..PROPLIMIT])
  {
    hide Format, Frames.SumOf, Lines;
    ghost var before := out.bytes;
    var cksum, i, prop := 0, 0, 0;
    SumNothing();
    while i < PROPLIMIT
      invariant 0 <= i == prop <= PROPLIMIT && prop <= |ps| && (i < PROPLIMIT ==> prop < |ps|)
      invariant out.bytes == before + Lines(ps[..prop])
      invariant cksum == Frames.SumOf(Lines(ps[..prop]))
    {
      var line := Format(ps[prop]) + [CR];
      LinesSnoc(ps, prop);
      Frames.AddAll(out, line);
      cksum := Frames.AddUp(line, cksum);
      prop, i := prop + 1, i + 1;
      if prop == |ps| { break; }
    }
    var sent := if |ps| < PROPLIMIT then ps else ps[..PROPLIMIT];
    assert ps[..prop] == sent;
    Frames.AddAll(out, PromptLine(Frames.Checksum(cksum)) + [CR]);
  }

  lemma SumNothing()
    ensures Frames.SumOf([]) == 0 && Lines([]) == []
  {
  }

  lemma LinesSnoc(ps: seq<Proposal>, k: nat)
    requires k < |ps|
    ensures Lines(ps[..k + 1]) == Lines(ps[..k]) + (Format(ps[k]) + [CR])
    ensures Frames.SumOf(Lines(ps[..k + 1])) == Frames.SumOf(Lines(ps[..k])) + Frames.SumOf(Format(ps[k]) + [CR])
  {
    hide Format, Frames.SumOf;
    var p := ps[..k + 1];
    assert p[..|p| - 1] == ps[..k] && p[|p| - 1] == ps[k];
    Frames.SumConcat(Lines(ps[..k]), Format(ps[k]) + [CR]);
  }

  /** What comes of reading a batch: its proposals, an error, another command, or the end of the input. */
  datatype BatchRead = Batch(ps: seq<Proposal>, end: nat) | BadBatch | OtherCommand | Ended

  /** The FC and F> branches of inbound_parser, from `i` on, with what has been read of the batch. */
  function ReadBatch(s: Text, i: nat, sum: nat, ps: seq<Proposal>): BatchRead
    requires i <= |s|
    decreases |s| - i
  {
    match ReadLine(s, i, [])
    case NoLine => Ended
    case Line(text, end) =>
      var line := CString(text);
      if Begins(line, [Ch(';')]) || line == [] then ReadBatch(s, end, sum, ps)
      else if Begins(line, [Ch('F'), Ch('C')]) then
        if |ps| == PROPLIMIT then BadBatch
        else if Parse(line).None? then BadBatch
        else ReadBatch(s, end, sum + Frames.SumOf(line) + CR as int, ps + [Parse(line).value])
      else if Begins(line, [Ch('F'), Ch('>')]) then
        if Strtoul(line, 2, 16).0 == Frames.Checksum(sum) then Batch(ps, end) else BadBatch
      else OtherCommand
  }

  method GetBatch(inb: Wire) returns (r: BatchRead)
    requires inb.at <= |inb.bytes|
    modifies inb`at
    ensures r == ReadBatch(inb.bytes, old(inb.at), 0, [])
    ensures r.Batch? ==> inb.at == r.end
  {
    hide Parse, Strtoul, Frames.SumOf, ReadLine, CString;
    ghost var s := inb.bytes;
    var proposals, sum := [], 0;
    while true
      invariant old(inb.at) <= inb.at <= |s|
      invariant sum >= 0 && ReadBatch(s, old(inb.at), 0, []) == ReadBatch(s, inb.at, sum, proposals)
      decreases |s| - inb.at
    {
      var read := GetLine(inb);
      if read.NoLine? { return Ended; }
      var line := CString(read.text);
      if Begins(line, [Ch(';')]) || |line| == 0 {
        continue;
      } else if Begins(line, [Ch('F'), Ch('C')]) {
        var more := Frames.AddUp(line, sum);
        if |proposals| == PROPLIMIT { return BadBatch; }
        var prop := ParseProposal(line);
        if prop.None? { return BadBatch; }
        sum := more + CR as int;
        proposals := proposals + [prop.value];
      } else if Begins(line, [Ch('F'), Ch('>')]) {
        var sentcksum := Strtoul(line, 2, 16).0;
        if sentcksum != Frames.Checksum(sum) { return BadBatch; }
        return Batch(proposals, inb.at);
      } else {
        return OtherCommand;
      }
    }
  }

  /** Text that a line can carry: ASCII, without CR, LF, NUL and 0x1e. */
  predicate Plain(s: Text) {
    forall k :: 0 <= k < |s| ==> SP <= s[k] < 128
  }

  lemma {:induction false} PlainLineRead(s: Text, i: nat, t: Text, acc: Text)
    requires i + |t| < |s| && s[i..i + |t|] == t && s[i + |t|] == CR && Plain(t)
    ensures ReadLine(s, i, acc) == Line(acc + t, i + |t| + 1)
    decreases |t|
  {
    if t == [] {
      assert acc + t == acc;
    } else {
      assert s[i] == t[0];
      assert s[i + 1..i + 1 + |t[1..]|] == s[i..i + |t|][1..];
      PlainLineRead(s, i + 1, t[1..], acc + [t[0]]);
      assert acc + [t[0]] + t[1..] == acc + t;
    }
  }

  lemma {:induction false} PlainCString(s: Text)
    requires Plain(s)
    ensures CString(s) == s
  {
    if s != [] { PlainCString(s[1..]); }
  }

  lemma FormatPlain(p: Proposal)
    requires Proposable(p)
    ensures Plain(Format(p))
  {
    hide Frames.Decimal;
  }

  /** One line of a batch is read. */
  lemma ProposalRead(s: Text, i: nat, sum: nat, ps: seq<Proposal>, p: Proposal)
    requires Proposable(p) && |ps| < PROPLIMIT && i + |Format(p)| < |s|
    requires s[i..i + |Format(p)|] == Format(p) && s[i + |Format(p)|] == CR
    ensures ReadBatch(s, i, sum, ps)
      == ReadBatch(s, i + |Format(p)| + 1, sum + Frames.SumOf(Format(p) + [CR]), ps + [p.(csize := p.csize % UINT)])
  {
    hide Parse, Frames.SumOf, Frames.Decimal, ReadLine, CString, Proposable;
    var line := Format(p);
    FormatPlain(p);
    PlainLineRead(s, i, line, []);
    assert [] + line == line;
    PlainCString(line);
    ParseInverts(p);
    Frames.SumSnoc(line, CR);
    CodeFC(p);
    assert line[0] == Ch('F') && line[1] == p.code;
    assert line[..2] == [Ch('F'), Ch('C')];
  }

  lemma CodeFC(p: Proposal)
    requires Proposable(p)
    ensures p.code == Ch('C')
  {
  }

  lemma HexRead(c: byte)
    ensures Strtoul(PromptLine(c), 2, 16).0 == c
  {
    var s, d := PromptLine(c), [HexDigit(c / 16), HexDigit(c % 16)];
    assert s[3..5] == d;
    assert SpaceEnd(s, 3) == 3;
    DigitsScanned(s, 3, 16, d, 0);
    assert d[..1] == [d[0]] && d[..1][..0] == [];
    assert Fold(d, 16, 0) == Fold(d[..1], 16, 0) * 16 + Digit(d[1]);
    assert Fold(d[..1], 16, 0) == Fold([], 16, 0) * 16 + Digit(d[0]);
  }

  /** Only the byte that brings the sum to 0 modulo 256 is the right checksum. */
  lemma ChecksumOnly(sum: nat, c: byte)
    ensures c == Frames.Checksum(sum) <==> (sum + c) % 256 == 0
  {
  }

  /** The end of a batch is accepted exactly if its byte and the bytes of the lines add up to 0 modulo 256. */
  lemma PromptRead(s: Text, i: nat, sum: nat, ps: seq<Proposal>, c: byte)
    requires i + 5 < |s| && s[i..i + 5] == PromptLine(c) && s[i + 5] == CR
    ensures ReadBatch(s, i, sum, ps) == if (sum + c) % 256 == 0 then Batch(ps, i + 6) else BadBatch
  {
    hide Parse, Strtoul, ReadLine, CString, Frames.Checksum;
    var line := PromptLine(c);
    PlainLineRead(s, i, line, []);
    assert [] + line == line;
    PlainCString(line);
    HexRead(c);
    ChecksumOnly(sum, c);
    assert line[0] == Ch('F') && line[1] == Ch('>');
    assert line[..2] == [Ch('F'), Ch('>')];
  }

  /** What the receiver has of a list of proposals: compressed sizes are kept in 32 bits. */
  function Narrowed(ps: seq<Proposal>): (r: seq<Proposal>)
    ensures |r| == |ps| && forall k :: 0 <= k < |ps| ==> r[k] == ps[k].(csize := ps[k].csize % UINT)
  {
    seq(|ps|, k requires 0 <= k < |ps| => ps[k].(csize := ps[k].csize % UINT))
  }

  /** The last line of a front of the batch, where it is in the text. */
  lemma LastLine(ps: seq<Proposal>, k: nat, s: Text)
    requires k < |ps| && Lines(ps[..k + 1]) <= s
    ensures Lines(ps[..k]) <= s
    ensures var i, f := |Lines(ps[..k])|, Format(ps[k]);
      i + |f| < |s| && s[i..i + |f|] == f && s[i + |f|] == CR && |Lines(ps[..k + 1])| == i + |f| + 1
  {
    hide Format, Lines;
    LinesSnoc(ps, k);
    var a, f := Lines(ps[..k]), Format(ps[k]);
    var t := a + (f + [CR]);
    assert t <= s;
    assert s[|a|..|a| + |f|] == t[|a|..|a| + |f|] == f && s[|a| + |f|] == t[|a| + |f|] == CR;
  }

  lemma {:induction false} LinesRead(ps: seq<Proposal>, k: nat, s: Text)
    requires k <= |ps| <= PROPLIMIT && (forall j :: 0 <= j < |ps| ==> Proposable(ps[j])) && Lines(ps[..k]) <= s
    ensures ReadBatch(s, 0, 0, []) == ReadBatch(s, |Lines(ps[..k])|, Frames.SumOf(Lines(ps[..k])), Narrowed(ps[..k]))
  {
    hide ReadBatch, Format, Frames.SumOf, Proposable, Lines;
    if k == 0 {
      SumNothing();
      assert ps[..0] == [] && Narrowed([]) == [];
    } else {
      LinesSnoc(ps, k - 1);
      LastLine(ps, k - 1, s);
      LinesRead(ps, k - 1, s);
      ProposalRead(s, |Lines(ps[..k - 1])|, Frames.SumOf(Lines(ps[..k - 1])), Narrowed(ps[..k - 1]), ps[k - 1]);
      assert Narrowed(ps[..k]) == Narrowed(ps[..k - 1]) + [ps[k - 1].(csize := ps[k - 1].csize % UINT)];
    }
  }

  /** A batch with any checksum is read whole if its byte and those of the lines add up to 0 modulo 256, and refused if
      they do not. */
  lemma BatchChecked(ps: seq<Proposal>, c: byte, rest: Text)
    requires |ps| <= PROPLIMIT && forall j :: 0 <= j < |ps| ==> Proposable(ps[j])
    ensures var r := ReadBatch(Lines(ps) + PromptLine(c) + [CR] + rest, 0, 0, []);
      if (Frames.SumOf(Lines(ps)) + c) % 256 == 0 then r == Batch(Narrowed(ps), |Lines(ps)| + 6) else r == BadBatch
  {
    hide ReadBatch, Lines, Frames.SumOf, Proposable;
    assert ps[..|ps|] == ps;
    var s, n := Lines(ps) + PromptLine(c) + [CR] + rest, |Lines(ps)|;
    assert Lines(ps) <= s;
    LinesRead(ps, |ps|, s);
    assert s[n..n + 5] == PromptLine(c) && s[n + 5] == CR;
    PromptRead(s, n, Frames.SumOf(Lines(ps)), Narrowed(ps), c);
  }

  /** Other lines: an empty one and a comment are passed over, a proposal that is none is refused, and anything else is left
      to the other commands. */
  lemma OtherLines(s: Text, i: nat, sum: nat, ps: seq<Proposal>, line: Text)
    requires i + |line| < |s| && s[i..i + |line|] == line && s[i + |line|] == CR && Plain(line)
    ensures line == [] || line[0] == 59 ==> ReadBatch(s, i, sum, ps) == ReadBatch(s, i + |line| + 1, sum, ps)
    ensures [70, 67] <= line && Parse(line) == None ==> ReadBatch(s, i, sum, ps) == BadBatch
    ensures line != [] && line[0] != 59 && !([70, 67] <= line) && !([70, 62] <= line) ==> ReadBatch(s, i, sum, ps) == OtherCommand
  {
    hide Parse, Strtoul, Frames.SumOf, ReadLine, CString, ReadBatch;
    PlainStep(s, i, sum, ps, line);
    assert [59] <= line <==> line != [] && line[0] == 59;
    assert [70, 67] <= line ==> line[0] == 70;
  }

  lemma PlainStep(s: Text, i: nat, sum: nat, ps: seq<Proposal>, line: Text)
    requires i + |line| < |s| && s[i..i + |line|] == line && s[i + |line|] == CR && Plain(line)
    ensures [59] <= line || line == [] ==> ReadBatch(s, i, sum, ps) == ReadBatch(s, i + |line| + 1, sum, ps)
    ensures !([59] <= line) && [70, 67] <= line && Parse(line) == None ==> ReadBatch(s, i, sum, ps) == BadBatch
    ensures line != [] && !([59] <= line) && !([70, 67] <= line) && !([70, 62] <= line) ==> ReadBatch(s, i, sum, ps) == OtherCommand
  {
    hide Parse, Strtoul, Frames.SumOf, ReadLine, CString;
    PlainLineRead(s, i, line, []);
    assert [] + line == line;
    PlainCString(line);
  }

  /** A sixth proposal is refused, whatever follows. */
  lemma SixthRefused(ps: seq<Proposal>, rest: Text)
    requires |ps| == 6 && forall j :: 0 <= j < |ps| ==> Proposable(ps[j])
    ensures ReadBatch(Lines(ps) + rest, 0, 0, []) == BadBatch
  {
    hide ReadBatch, Lines, Frames.SumOf, Proposable, Format;
    var s, five := Lines(ps) + rest, ps[..5];
    assert ps[..6] == ps;
    LastLine(ps, 5, s);
    assert five[..5] == five;
    LinesRead(five, 5, s);
    TooMany(s, |Lines(five)|, Frames.SumOf(Lines(five)), Narrowed(five), ps[5]);
  }

  lemma TooMany(s: Text, i: nat, sum: nat, ps: seq<Proposal>, p: Proposal)
    requires Proposable(p) && |ps| == PROPLIMIT && i + |Format(p)| < |s|
    requires s[i..i + |Format(p)|] == Format(p) && s[i + |Format(p)|] == CR
    ensures ReadBatch(s, i, sum, ps) == BadBatch
  {
    hide Parse, Frames.SumOf, Frames.Decimal, ReadLine, CString, Proposable;
    var line := Format(p);
    FormatPlain(p);
    PlainLineRead(s, i, line, []);
    assert [] + line == line;
    PlainCString(line);
    CodeFC(p);
    assert line[0] == Ch('F') && line[1] == p.code;
    assert line[..2] == [Ch('F'), Ch('C')];
  }

  /** The receiver of a batch finds its checksum right and recovers every proposal, and leaves what follows unread. */
  lemma BatchRoundTrip(ps: seq<Proposal>, rest: Text)
    requires |ps| <= PROPLIMIT && forall j :: 0 <= j < |ps| ==> Proposable(ps[j])
    ensures ReadBatch(BatchText(ps) + rest, 0, 0, []) == Batch(Narrowed(ps), |BatchText(ps)|)
    ensures Narrowed(ps) == ps <==> forall j :: 0 <= j < |ps| ==> ps[j].csize < UINT
  {
    hide ReadBatch, Lines, Frames.SumOf, Proposable;
    var c := Frames.Checksum(Frames.SumOf(Lines(ps)));
    BatchChecked(ps, c, rest);
    ChecksumOnly(Frames.SumOf(Lines(ps)), c);
    assert forall j :: 0 <= j < |ps| ==> (Narrowed(ps)[j] == ps[j] <==> ps[j].csize < UINT);
  }

  /** A batch of one small message as it stands on the wire: "FC EM B 1 6 0", CR, "F> 5F", CR. */
  lemma BatchExample()
    ensures BatchText([Proposal(67, 69, [66], 1, 6)])
      == [70, 67, 32, 69, 77, 32, 66, 32, 49, 32, 54, 32, 48, 13, 70, 62, 32, 53, 70, 13]
  {
    hide Frames.SumOf;
    var p := Proposal(67, 69, [66], 1, 6);
    assert Frames.Decimal(1) == [49] && Frames.Decimal(6) == [54];
    var line: Text := [70, 67, 32, 69, 77, 32, 66, 32, 49, 32, 54, 32, 48, 13];
    assert Format(p) + [CR] == line;
    assert Lines([p]) == line by {
      assert [p][..0] == [];
      SumNothing();
      assert [] + Format(p) + [CR] == line;
    }
    LineSum();
    assert PromptLine(0x5f) == [70, 62, 32, 53, 70];
  }

  lemma LineSum()
    ensures Frames.SumOf([70, 67, 32, 69, 77, 32, 66, 32, 49, 32, 54, 32, 48, 13]) == 673
  {
    FourSum(70, 67, 32, 69);
    FourSum(77, 32, 66, 32);
    FourSum(49, 32, 54, 32);
    Frames.SumConcat([70, 67, 32, 69], [77, 32, 66, 32]);
    Frames.SumConcat([70, 67, 32, 69] + [77, 32, 66, 32], [49, 32, 54, 32]);
    var t: Text := [70, 67, 32, 69] + [77, 32, 66, 32] + [49, 32, 54, 32];
    Frames.SumSnoc(t, 48);
    Frames.SumSnoc(t + [48], 13);
    assert t + [48] + [13] == [70, 67, 32, 69, 77, 32, 66, 32, 49, 32, 54, 32, 48, 13];
  }

  lemma FourSum(a: byte, b: byte, c: byte, d: byte)
    ensures Frames.SumOf([a, b, c, d]) == a + b + c + d
  {
    SumNothing();
    Frames.SumSnoc([], a);
    Frames.SumSnoc([a], b);
    Frames.SumSnoc([a, b], c);
    Frames.SumSnoc([a, b, c], d);
    assert [] + [a] == [a] && [a] + [b] == [a, b] && [a, b] + [c] == [a, b, c] && [a, b, c] + [d] == [a, b, c, d];
  }
}
