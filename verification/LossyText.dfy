/**
  A text that the codec does not carry: the code word of its last byte loses a set bit in the
  register.  Behind a front of 24 bytes in turn come rows of literals and of runs with the same 24
  bytes in turn.  Each run starts one place further in them, so what lies where a literal meets a
  run comes again only after more than a window; the runs are copied, 60 bytes at a time.
 */
module LossyText {
  import opened Bytes
  import opened Forest
  import opened Lzss
  import opened Stream
  import opened HuffTree
  import opened Huffman
  import opened Depths

  const FRONT := 204
  const ROW := 184
  const ROWS := 4448

  /** The places of a row that hold literals. */
  predicate LitOffset(o: nat) { o < 2 || 122 <= o < 124 }

  /** The literals up to number 96 are the first eight bytes in turn; then each comes as often as it is to count. */
  const BOUNDS: seq<int> := [96, 412, 729, 1375, 2351, 3986, 6610, 10882, 17792]

  function LitByte(n: nat): (c: byte)
    ensures c < 8
  {
    if n < 96 then n % 8
    else if n < BOUNDS[1] then 0
    else if n < BOUNDS[2] then 1
    else if n < BOUNDS[3] then 2
    else if n < BOUNDS[4] then 3
    else if n < BOUNDS[5] then 4
    else if n < BOUNDS[6] then 5
    else if n < BOUNDS[7] then 6
    else 7
  }

  /** A byte of a run: `n` places into the 24 bytes. */
  function RunByte(n: nat): (c: byte)
    ensures 100 <= c < 124
  {
    100 + n % 24
  }

  /** Which run follows a literal, or has the byte, at place `o` of row `j`. */
  function RunOf(j: nat, o: nat): nat { 2 * j + (if o < 122 then 0 else 1) }

  /** A row: two literals, 120 bytes of a run, two literals, 60 bytes of a run. */
  function RowByte(j: nat, o: nat): byte
    requires o < ROW
  {
    if LitOffset(o) then LitByte(4 * j + (if o < 2 then o else o - 120))
    else RunByte(RunOf(j, o) + (if o < 122 then o - 2 else o - 124))
  }

  function TextByte(i: nat): byte {
    if i < FRONT then RunByte(i) else RowByte((i - FRONT) / ROW, (i - FRONT) % ROW)
  }

  /** Place `o` of row `j` in the history. */
  function Place(j: nat, o: nat): nat { N - F + FRONT + ROW * j + o }

  /** The history `v` goes on with the first `n` bytes of that text. */
  ghost predicate Has(v: seq<byte>, n: nat) {
    Blanks() <= v && N - F + n <= |v| && forall i :: N - F <= i < N - F + n ==> v[i] == TextByte(i - (N - F))
  }

  lemma RowAt(v: seq<byte>, n: nat, j: nat, o: nat)
    requires Has(v, n) && o < ROW && FRONT + ROW * j + o < n
    ensures v[Place(j, o)] == RowByte(j, o)
  {
    var i := ROW * j + o;
    assert i / ROW == j && i % ROW == o;
    assert v[Place(j, o)] == TextByte(FRONT + i);
  }

  lemma FrontAt(v: seq<byte>, n: nat, i: nat)
    requires Has(v, n) && i < FRONT && i < n
    ensures v[N - F + i] == RunByte(i)
  {
  }

  // ----- literals are new -----

  lemma NoLitBefore(v: seq<byte>, n: nat, p: nat)
    requires Has(v, n) && p < N - F + n && p < N - F + FRONT
    ensures v[p] >= 8
  {
    assert p < N - F ==> v[p] == Blanks()[p];
    assert p >= N - F ==> v[p] == TextByte(p - (N - F));
  }

  /** A byte below eight is a literal of some row. */
  lemma LitPlace(v: seq<byte>, n: nat, p: nat) returns (j: nat, o: nat)
    requires Has(v, n) && p < N - F + n && v[p] < 8
    ensures o < ROW && LitOffset(o) && p == Place(j, o)
  {
    if p < N - F + FRONT { NoLitBefore(v, n, p); }
    var i := p - (N - F);
    assert v[p] == TextByte(i);
    j, o := (i - FRONT) / ROW, (i - FRONT) % ROW;
  }

  /** Two runs that start at the same place of the 24 bytes are more than a window apart. */
  lemma RunsApart(j: nat, o: nat, j': nat, o': nat)
    requires o < ROW && o' < ROW && LitOffset(o) && LitOffset(o') && Place(j', o') < Place(j, o)
    requires RunByte(RunOf(j, o)) == RunByte(RunOf(j', o')) && ((o == 0 || o == 122) <==> (o' == 0 || o' == 122))
    ensures Place(j, o) - Place(j', o') > N - F
  {
    hide RunByte;
    var a, b := RunOf(j, o), RunOf(j', o');
    assert j' <= j && b <= a;
    if a != b { SameRunByte(b, a); }
  }

  lemma SameRunByte(b: nat, a: nat)
    requires b < a && RunByte(a) == RunByte(b)
    ensures a - b >= 24
  {
    assert (a - b) % 24 == 0;
  }

  /** The byte where the run begins tells the run. */
  lemma RunBegins(v: seq<byte>, n: nat, j: nat, o: nat)
    requires Has(v, n) && o < ROW && LitOffset(o) && FRONT + ROW * j + o + 2 < n
    ensures var p := Place(j, o);
      if o == 0 || o == 122 then v[p + 1] < 8 && v[p + 2] == RunByte(RunOf(j, o)) else v[p + 1] == RunByte(RunOf(j, o))
  {
    RowAt(v, n, j, o + 1);
    if o == 0 || o == 122 { RowAt(v, n, j, o + 2); }
  }

  /** No match of three bytes in the window begins at a literal. */
  lemma NewAtLiteral(v: seq<byte>, n: nat, j: nat, o: nat)
    requires Has(v, n) && o < ROW && LitOffset(o) && FRONT + ROW * j + o + 2 < n
    ensures Longest(v, Place(j, o), 0)
  {
    hide Has, LitOffset, RunByte, RunOf;
    var rv := Place(j, o);
    RowAtLit(v, n, j, o);
    RunBegins(v, n, j, o);
    forall p: nat, m: nat | N - 2 * F <= p < rv <= p + N - F && m <= F && Repeats(v, p, rv, m) ensures m <= THRESHOLD {
      if m >= 3 {
        assert v[rv] == v[rv - (rv - p)] && v[rv + 1] == v[rv + 1 - (rv - p)] && v[rv + 2] == v[rv + 2 - (rv - p)];
        TripleNew(v, n, j, o, p);
      }
    }
  }

  lemma RowAtLit(v: seq<byte>, n: nat, j: nat, o: nat)
    requires Has(v, n) && o < ROW && LitOffset(o) && FRONT + ROW * j + o < n
    ensures Place(j, o) < |v| && v[Place(j, o)] < 8
  {
    RowAt(v, n, j, o);
  }

  lemma TripleNew(v: seq<byte>, n: nat, j: nat, o: nat, p: nat)
    requires Has(v, n) && o < ROW && LitOffset(o) && FRONT + ROW * j + o + 2 < n && p < Place(j, o)
    requires var rv := Place(j, o); rv + 2 < |v| && v[p] == v[rv] && v[p + 1] == v[rv + 1] && v[p + 2] == v[rv + 2]
    ensures Place(j, o) - p > N - F
  {
    hide Has, RunOf;
    RowAtLit(v, n, j, o);
    var j', o' := LitPlace(v, n, p);
    RunBegins(v, n, j, o);
    RunBegins(v, n, j', o');
    RunsApart(j, o, j', o');
  }

  // ----- runs are copied -----

  /** The front and the runs of a row, as far back as they are copied from. */
  lemma FrontRepeats(v: seq<byte>, n: nat, i: nat)
    requires Has(v, n) && 24 <= i && i + F <= FRONT <= n
    ensures Repeats(v, N - F + i - 24, N - F + i, F)
  {
    forall k | N - F + i <= k < N - F + i + F ensures v[k] == v[k - 24] {
      FrontAt(v, n, k - (N - F));
      FrontAt(v, n, k - (N - F) - 24);
    }
  }

  lemma FirstRepeats(v: seq<byte>, n: nat, j: nat)
    requires Has(v, n) && FRONT + ROW * (j + 1) <= n
    ensures Repeats(v, Place(j, 2) - 182, Place(j, 2), F)
  {
    hide Has;
    var rv := Place(j, 2);
    HasLength(v, n);
    forall k | rv <= k < rv + F ensures v[k] == v[k - 182] {
      var t := k - rv;
      RowAt(v, n, j, 2 + t);
      if j == 0 {
        FrontAt(v, n, 24 + t);
        assert k - 182 == N - F + (24 + t);
      } else {
        RowAt(v, n, j - 1, 4 + t);
        assert k - 182 == Place(j - 1, 4 + t);
      }
    }
  }

  lemma HasLength(v: seq<byte>, n: nat)
    requires Has(v, n)
    ensures N - F + n <= |v|
  {
  }

  /** Within a row: what lies `d` places back in the run before it, or in the same one, is the same. */
  lemma RowRepeats(v: seq<byte>, n: nat, j: nat, o: nat, d: nat)
    requires Has(v, n) && FRONT + ROW * (j + 1) <= n
    requires (o == 62 && d == 24) || (o == 124 && d == 121)
    ensures Repeats(v, Place(j, o) - d, Place(j, o), F)
  {
    hide Has;
    var rv := Place(j, o);
    HasLength(v, n);
    forall k | rv <= k < rv + F ensures v[k] == v[k - d] {
      var t := k - rv;
      RowAt(v, n, j, o + t);
      RowAt(v, n, j, o + t - d);
      assert k - d == Place(j, o + t - d);
    }
  }

  // ----- the parse -----

  /** The tokens are a greedy parse of the history `v` up to `rv`. */
  ghost predicate Parsed(v: seq<byte>, ts: seq<Token>, rv: nat) {
    N - F <= rv <= |v| && Sound(ts) && Expand(ts) == v[..rv] && Greedy(v, ts)
  }

  lemma NotBlind(v: seq<byte>, n: nat, rv: nat)
    requires Has(v, n) && n > 0
    ensures !Blind(v, rv)
  {
    FrontAt(v, n, 0);
    assert v[N - F] == 100;
  }

  lemma PutLit(v: seq<byte>, ts: seq<Token>, rv: nat)
    requires Parsed(v, ts, rv) && rv < |v| && !Blind(v, rv) && Longest(v, rv, 0)
    ensures Parsed(v, ts + [Lit(v[rv])], rv + 1)
  {
    hide Sound, Expand, Greedy, Blind, Longest;
    GreedySnoc(v, ts, Lit(v[rv]));
  }

  lemma PutCopy(v: seq<byte>, ts: seq<Token>, rv: nat, d: nat)
    requires Parsed(v, ts, rv) && !Blind(v, rv) && 0 < d < N - F && Repeats(v, rv - d, rv, F)
    ensures Parsed(v, ts + [Copy(F, d - 1)], rv + F)
  {
    hide Sound, Expand, Greedy, Blind, Repeats, CopyOn;
    RepeatsLength(v, rv - d, rv, F);
    CopyReproduces(v, rv, F, d - 1);
    GreedySnoc(v, ts, Copy(F, d - 1));
  }

  lemma RepeatsLength(v: seq<byte>, p: nat, rv: nat, n: nat)
    requires p < rv && Repeats(v, p, rv, n)
    ensures rv + n <= |v|
  {
  }

  /** The 24 bytes of the front, each new. */
  function FrontLits(n: nat): seq<Token> {
    if n == 0 then [] else FrontLits(n - 1) + [Lit(RunByte(n - 1))]
  }

  function FrontTokens(): seq<Token> {
    FrontLits(24) + [Copy(F, 23)] + [Copy(F, 23)] + [Copy(F, 23)]
  }

  function LitAt(n: nat): Token { Lit(LitByte(n)) }

  function RowTokens(ts: seq<Token>, j: nat): seq<Token> {
    ts + [LitAt(4 * j)] + [LitAt(4 * j + 1)] + [Copy(F, 181)] + [Copy(F, 23)]
      + [LitAt(4 * j + 2)] + [LitAt(4 * j + 3)] + [Copy(F, 120)]
  }

  /** The tokens of the front and the first `j` rows. */
  function Rows(j: nat): seq<Token> {
    if j == 0 then FrontTokens() else RowTokens(Rows(j - 1), j - 1)
  }

  lemma FrontOther(v: seq<byte>, n: nat, i: nat, p: nat)
    requires Has(v, n) && i < 24 <= n && p < N - F + i
    ensures v[N - F + i] != v[p]
  {
    FrontAt(v, n, i);
    assert p < N - F ==> v[p] == Blanks()[p];
    if p >= N - F { FrontAt(v, n, p - (N - F)); }
  }

  lemma FrontNew(v: seq<byte>, n: nat, i: nat)
    requires Has(v, n) && i < 24 <= n
    ensures Longest(v, N - F + i, 0)
  {
    hide Has;
    HasLength(v, n);
    var rv := N - F + i;
    forall p: nat, m: nat | N - 2 * F <= p < rv <= p + N - F && m <= F && Repeats(v, p, rv, m) ensures m <= THRESHOLD {
      FrontOther(v, n, i, p);
    }
  }

  lemma {:induction false} FrontLitsParsed(v: seq<byte>, n: nat, i: nat)
    requires Has(v, n) && i <= 24 <= n
    ensures Parsed(v, FrontLits(i), N - F + i)
  {
    hide Has, Longest, Sound, Expand, Greedy, Blind;
    HasLength(v, n);
    if i == 0 {
      StartParsed(v, n);
    } else {
      FrontLitsParsed(v, n, i - 1);
      FrontNew(v, n, i - 1);
      NotBlind(v, n, N - F + i - 1);
      FrontAt(v, n, i - 1);
      PutLit(v, FrontLits(i - 1), N - F + i - 1);
    }
  }

  lemma StartParsed(v: seq<byte>, n: nat)
    requires Has(v, n)
    ensures Parsed(v, [], N - F)
  {
    GreedyNone(v);
  }

  lemma FrontParsed(v: seq<byte>, n: nat)
    requires Has(v, n) && FRONT <= n
    ensures Parsed(v, FrontTokens(), N - F + FRONT)
  {
    hide Has, Parsed, Repeats, Blind, FrontLits;
    FrontLitsParsed(v, n, 24);
    var ts, i := FrontLits(24), 24;
    while i < FRONT
      invariant 24 <= i <= FRONT && (i - 24) % F == 0 && Parsed(v, ts, N - F + i)
      invariant i == 24 ==> ts == FrontLits(24)
      invariant i == 84 ==> ts == FrontLits(24) + [Copy(F, 23)]
      invariant i == 144 ==> ts == FrontLits(24) + [Copy(F, 23)] + [Copy(F, 23)]
      invariant i == 204 ==> ts == FrontTokens()
    {
      FrontRepeats(v, n, i);
      NotBlind(v, n, N - F + i);
      PutCopy(v, ts, N - F + i, 24);
      ts, i := ts + [Copy(F, 23)], i + F;
    }
  }

  /** Two literals of a row. */
  lemma LitsParsed(v: seq<byte>, n: nat, j: nat, o: nat, ts: seq<Token>)
    requires Has(v, n) && FRONT + ROW * (j + 1) <= n && (o == 0 || o == 122) && Parsed(v, ts, Place(j, o))
    ensures var k := 4 * j + (if o == 0 then 0 else 2);
      Parsed(v, ts + [LitAt(k)] + [LitAt(k + 1)], Place(j, o + 2))
  {
    hide Has, Parsed, Longest, Blind, LitByte;
    HasLength(v, n);
    RowAt(v, n, j, o);
    RowAt(v, n, j, o + 1);
    NewAtLiteral(v, n, j, o);
    NotBlind(v, n, Place(j, o));
    PutLit(v, ts, Place(j, o));
    var us := ts + [Lit(v[Place(j, o)])];
    NewAtLiteral(v, n, j, o + 1);
    NotBlind(v, n, Place(j, o + 1));
    PutLit(v, us, Place(j, o + 1));
  }

  lemma RowParsed(v: seq<byte>, n: nat, j: nat, ts: seq<Token>)
    requires Has(v, n) && FRONT + ROW * (j + 1) <= n && Parsed(v, ts, Place(j, 0))
    ensures Parsed(v, RowTokens(ts, j), Place(j + 1, 0))
  {
    hide Has, Parsed, Blind, Repeats, LitAt;
    LitsParsed(v, n, j, 0, ts);
    var t1 := ts + [LitAt(4 * j)] + [LitAt(4 * j + 1)];
    FirstRepeats(v, n, j);
    NotBlind(v, n, Place(j, 2));
    PutCopy(v, t1, Place(j, 2), 182);
    var t2 := t1 + [Copy(F, 181)];
    RowRepeats(v, n, j, 62, 24);
    NotBlind(v, n, Place(j, 62));
    PutCopy(v, t2, Place(j, 62), 24);
    var t3 := t2 + [Copy(F, 23)];
    LitsParsed(v, n, j, 122, t3);
    var t4 := t3 + [LitAt(4 * j + 2)] + [LitAt(4 * j + 3)];
    RowRepeats(v, n, j, 124, 121);
    NotBlind(v, n, Place(j, 124));
    PutCopy(v, t4, Place(j, 124), 121);
  }

  lemma {:induction false} RowsParsed(v: seq<byte>, n: nat, j: nat)
    requires Has(v, n) && FRONT + ROW * j <= n
    ensures Parsed(v, Rows(j), Place(j, 0))
  {
    hide Has, Parsed, RowTokens, FrontTokens;
    if j == 0 {
      FrontParsed(v, n);
    } else {
      RowsParsed(v, n, j - 1);
      RowParsed(v, n, j - 1, Rows(j - 1));
    }
  }

  // ----- the counts -----

  lemma TimesNone(s: int)
    ensures Times([], s) == 0
  {
  }

  lemma TimesSnoc(ts: seq<Token>, t: Token, s: int)
    ensures Times(ts + [t], s) == Times(ts, s) + (if Symbol(t) == s then 1 else 0)
  {
    assert (ts + [t])[..|ts|] == ts;
  }

  /** How often `s` is among the first `n` literals of the rows. */
  function LitTimes(n: nat, s: int): nat {
    if n == 0 then 0 else LitTimes(n - 1, s) + (if LitByte(n - 1) == s then 1 else 0)
  }

  lemma {:induction false} FrontLitTimes(n: nat, s: int)
    requires n <= 24
    ensures |FrontLits(n)| == n && Times(FrontLits(n), s) == if 100 <= s < 100 + n then 1 else 0
  {
    hide Times;
    if n == 0 {
      TimesNone(s);
    } else {
      FrontLitTimes(n - 1, s);
      TimesSnoc(FrontLits(n - 1), Lit(RunByte(n - 1)), s);
    }
  }

  lemma FrontTimes(s: int)
    ensures |FrontTokens()| == 27
    ensures Times(FrontTokens(), s) == if s == Heavy(8) then 3 else if 100 <= s < 124 then 1 else 0
  {
    hide Times, FrontLits;
    FrontLitTimes(24, s);
    var c, ts := Copy(F, 23), FrontLits(24);
    TimesSnoc(ts, c, s);
    TimesSnoc(ts + [c], c, s);
    TimesSnoc(ts + [c] + [c], c, s);
  }

  lemma RowTimes(ts: seq<Token>, j: nat, s: int)
    ensures |RowTokens(ts, j)| == |ts| + 7
    ensures Times(RowTokens(ts, j), s) == Times(ts, s) + (if s == Heavy(8) then 3 else LitTimes(4 * j + 4, s) - LitTimes(4 * j, s))
  {
    hide Times, LitByte;
    var a, b, c, d := LitAt(4 * j), LitAt(4 * j + 1), LitAt(4 * j + 2), LitAt(4 * j + 3);
    TimesSnoc(ts, a, s);
    TimesSnoc(ts + [a], b, s);
    TimesSnoc(ts + [a] + [b], Copy(F, 181), s);
    TimesSnoc(ts + [a] + [b] + [Copy(F, 181)], Copy(F, 23), s);
    var us := ts + [a] + [b] + [Copy(F, 181)] + [Copy(F, 23)];
    TimesSnoc(us, c, s);
    TimesSnoc(us + [c], d, s);
    TimesSnoc(us + [c] + [d], Copy(F, 120), s);
    LitTimesFour(4 * j, s);
  }

  lemma LitTimesFour(n: nat, s: int)
    ensures LitTimes(n + 4, s) == LitTimes(n, s) + (if LitByte(n) == s then 1 else 0) + (if LitByte(n + 1) == s then 1 else 0)
      + (if LitByte(n + 2) == s then 1 else 0) + (if LitByte(n + 3) == s then 1 else 0)
  {
    hide LitByte;
    assert LitTimes(n + 2, s) == LitTimes(n + 1, s) + (if LitByte(n + 1) == s then 1 else 0);
  }

  lemma {:induction false} RowsTimes(j: nat, s: int)
    ensures |Rows(j)| == 27 + 7 * j
    ensures Times(Rows(j), s) == if s == Heavy(8) then 3 + 3 * j else LitTimes(4 * j, s) + (if 100 <= s < 124 then 1 else 0)
  {
    hide Times, RowTokens, FrontTokens;
    if j == 0 {
      FrontTimes(s);
      assert LitTimes(0, s) == 0;
    } else {
      RowsTimes(j - 1, s);
      RowTimes(Rows(j - 1), j - 1, s);
    }
  }

  /** How often each of the eight literals has come. */
  lemma {:induction false} LitTimesIs(n: nat, s: int)
    requires n <= BOUNDS[8]
    ensures LitTimes(n, s) ==
      if s < 0 || s >= 8 then 0
      else if n <= 96 then n / 8 + (if n % 8 > s then 1 else 0)
      else 12 + (if n <= BOUNDS[s] then 0 else if n <= BOUNDS[s + 1] then n - BOUNDS[s] else BOUNDS[s + 1] - BOUNDS[s])
  {
    if n > 0 { LitTimesIs(n - 1, s); }
  }

  lemma RowsSkewed(j: nat, ts: seq<Token>, t: Tree)
    requires j == ROWS && ts == Rows(j) && Sound(ts) && t == After(ts)
    ensures Skewed(t)
  {
    hide Times, Sound, LeafOf, Rows, After, LitTimes;
    assert Shape(t);
    forall s | 0 <= s < N_CHAR ensures t.freq[LeafOf(t, s)] == CountOf(s) {
      RowsTimes(j, s);
      LitTimesIs(4 * j, s);
      Counted(ts, s);
    }
    RowsTimes(j, 0);
    Counted(ts, 0);
  }

  // ----- the words before the last are short -----

  lemma ShortSnoc(ts: seq<Token>, t: Token)
    requires Sound(ts) && Short(ts) && Sound(ts + [t]) && |ts| <= MAX_FREQ - N_CHAR && IsSymbol(Symbol(t)) && Times(ts, Symbol(t)) >= 12
    ensures Short(ts + [t])
  {
    hide Times, Sound, LeafOf, Code;
    Counted(ts, Symbol(t));
    HeavyShort(After(ts), Symbol(t));
    assert (ts + [t])[..|ts|] == ts;
  }

  /** The longest copy, and each of the eight literals, has been coded twelve times. */
  ghost predicate Frequent(ts: seq<Token>) {
    forall s :: 0 <= s < 8 || s == Heavy(8) ==> Times(ts, s) >= 12
  }

  lemma FrequentSnoc(ts: seq<Token>, t: Token)
    requires Sound(ts + [t]) && Short(ts) && Frequent(ts) && |ts| <= MAX_FREQ - N_CHAR
    requires 0 <= Symbol(t) < 8 || Symbol(t) == Heavy(8)
    ensures Short(ts + [t]) && Frequent(ts + [t])
  {
    hide Times, Short;
    forall s | 0 <= s < 8 || s == Heavy(8) ensures Times(ts + [t], s) >= 12 { TimesSnoc(ts, t, s); }
    ShortSnoc(ts, t);
  }

  lemma SoundInit(ts: seq<Token>, t: Token)
    requires Sound(ts + [t])
    ensures Sound(ts)
  {
    assert (ts + [t])[..|ts|] == ts;
  }

  lemma RowSound(ts: seq<Token>, j: nat)
    requires Sound(RowTokens(ts, j))
    ensures Sound(ts) && Sound(ts + [LitAt(4 * j)]) && Sound(ts + [LitAt(4 * j)] + [LitAt(4 * j + 1)])
    ensures var us := ts + [LitAt(4 * j)] + [LitAt(4 * j + 1)] + [Copy(F, 181)];
      && Sound(us) && Sound(us + [Copy(F, 23)]) && Sound(us + [Copy(F, 23)] + [LitAt(4 * j + 2)])
      && Sound(us + [Copy(F, 23)] + [LitAt(4 * j + 2)] + [LitAt(4 * j + 3)])
  {
    hide Sound, LitAt;
    var us := ts + [LitAt(4 * j)] + [LitAt(4 * j + 1)] + [Copy(F, 181)] + [Copy(F, 23)];
    SoundInit(us + [LitAt(4 * j + 2)] + [LitAt(4 * j + 3)], Copy(F, 120));
    SoundInit(us + [LitAt(4 * j + 2)], LitAt(4 * j + 3));
    SoundInit(us, LitAt(4 * j + 2));
    SoundInit(ts + [LitAt(4 * j)] + [LitAt(4 * j + 1)] + [Copy(F, 181)], Copy(F, 23));
    SoundInit(ts + [LitAt(4 * j)] + [LitAt(4 * j + 1)], Copy(F, 181));
    SoundInit(ts + [LitAt(4 * j)], LitAt(4 * j + 1));
    SoundInit(ts, LitAt(4 * j));
  }

  lemma RowShort(ts: seq<Token>, j: nat)
    requires Sound(RowTokens(ts, j)) && Sound(ts) && Short(ts) && Frequent(ts) && |ts| + 7 <= MAX_FREQ - N_CHAR
    ensures Short(RowTokens(ts, j)) && Frequent(RowTokens(ts, j))
  {
    hide Sound, Short, Frequent, LitByte;
    RowSound(ts, j);
    FrequentSnoc(ts, LitAt(4 * j));
    var t1 := ts + [LitAt(4 * j)];
    FrequentSnoc(t1, LitAt(4 * j + 1));
    var t2 := t1 + [LitAt(4 * j + 1)];
    FrequentSnoc(t2, Copy(F, 181));
    FrequentSnoc(t2 + [Copy(F, 181)], Copy(F, 23));
    var t4 := t2 + [Copy(F, 181)] + [Copy(F, 23)];
    FrequentSnoc(t4, LitAt(4 * j + 2));
    var t5 := t4 + [LitAt(4 * j + 2)];
    FrequentSnoc(t5, LitAt(4 * j + 3));
    FrequentSnoc(t5 + [LitAt(4 * j + 3)], Copy(F, 120));
  }

  lemma FrequentRows(j: nat)
    requires 24 <= j <= ROWS
    ensures Frequent(Rows(j))
  {
    hide Times, Rows, LitTimes;
    forall s | 0 <= s < 8 || s == Heavy(8) ensures Times(Rows(j), s) >= 12 {
      RowsTimes(j, s);
      LitTimesIs(4 * j, s);
    }
  }

  /** No code word of the front and the rows has more than 16 bits. */
  lemma {:induction false} RowsShort(j: nat)
    requires Sound(Rows(j)) && j <= ROWS
    ensures Short(Rows(j))
  {
    hide Sound, Short, Times, Frequent, RowTokens, FrontTokens;
    RowsTimes(j, 0);
    if j <= 40 {
      FewShort(Rows(j));
    } else {
      RowSound(Rows(j - 1), j - 1);
      RowsShort(j - 1);
      FrequentRows(j - 1);
      RowsTimes(j - 1, 0);
      RowShort(Rows(j - 1), j - 1);
    }
  }

  // ----- the text -----

  function Text(n: nat): (x: seq<byte>)
    ensures |x| == n && forall i :: 0 <= i < n ==> x[i] == TextByte(i)
  {
    seq(n, i requires 0 <= i < n => TextByte(i))
  }

  lemma TextHas(n: nat, c: byte)
    ensures Has(Blanks() + (Text(n) + [c]), n)
  {
    hide TextByte;
  }

  /** A text whose greedy parse ends with a literal that loses a bit in the register. */
  lemma LossyParse() returns (x: seq<byte>, ts: seq<Token>)
    ensures |x| == FRONT + ROW * ROWS + 1 && Parsed(Blanks() + x, ts, N - F + |x|) && LastLoses(ts)
  {
    hide Has, Parsed, Rows, Short, After, Skewed, Sound, Blind, Longest, Whole, Code, Text;
    var n, j := FRONT + ROW * ROWS, ROWS;
    var us := Rows(j);
    TextHas(n, 0);
    RowsParsed(Blanks() + (Text(n) + [0]), n, j);
    ParsedSound(Blanks() + (Text(n) + [0]), us, Place(j, 0));
    RowsSkewed(j, us, After(us));
    var c := LongWord(After(us));
    x := Text(n) + [c];
    var v := Blanks() + x;
    TextHas(n, c);
    RowsParsed(v, n, j);
    NotBlind(v, n, N - F + n);
    LastByteNew(v, N - F + n);
    PutLit(v, us, N - F + n);
    ts := us + [Lit(c)];
    RowsShort(j);
    assert ts[..|ts| - 1] == us;
  }

  lemma ParsedSound(v: seq<byte>, ts: seq<Token>, rv: nat)
    requires Parsed(v, ts, rv)
    ensures Sound(ts)
  {
  }

  /** One byte is too little for a match. */
  lemma LastByteNew(v: seq<byte>, rv: nat)
    requires rv + 1 == |v|
    ensures Longest(v, rv, 0)
  {
  }
}
