/**
  The compressed bit stream: what a token list looks like in bits, what the decoder makes of any
  bits, and that it makes of the bits of a token list what the tokens stand for.
 */
module Stream {
  import opened Bytes
  import opened Bits
  import opened BitIo
  import opened HuffTree
  import opened Huffman
  import opened Forest
  import opened Lzss
  import opened Sliding
  import opened Positions

  // ----- coding -----

  function Symbol(t: Token): int {
    match t
    case Lit(c) => c
    case Copy(len, _) => 255 - THRESHOLD + len
  }

  /** The symbols above the bytes stand for the lengths from 3 to 60, in order. */
  lemma SymbolOfCopy(t: Token)
    requires Codable(t) && t.Copy?
    ensures 3 <= t.len <= 60 && Symbol(t) == 253 + t.len && 256 <= Symbol(t) < 314
  {
  }

  /** The Huffman tree after the tokens. */
  ghost function After(ts: seq<Token>): (t: Tree)
    requires Sound(ts)
    ensures Inv(t)
  {
    if ts == [] then InitialTree() else Update(After(ts[..|ts| - 1]), Symbol(ts[|ts| - 1]))
  }

  /** The token's length and position have codes. */
  predicate Codable(t: Token) {
    match t
    case Lit(_) => true
    case Copy(len, pos) => THRESHOLD < len <= F && pos < N
  }

  ghost function TokenBits(t: Tree, token: Token): seq<bool>
    requires Inv(t) && Codable(token)
  {
    match token
    case Lit(_) => Code(t, Symbol(token))
    case Copy(_, pos) => Code(t, Symbol(token)) + PositionBits(pos)
  }

  /** The bits of a token list. */
  ghost function Coded(ts: seq<Token>): seq<bool>
    requires Sound(ts)
  {
    if ts == [] then [] else Coded(ts[..|ts| - 1]) + TokenBits(After(ts[..|ts| - 1]), ts[|ts| - 1])
  }

  // ----- what the encoder sends -----

  ghost function SentToken(t: Tree, token: Token): seq<bool>
    requires Inv(t) && Codable(token)
  {
    match token
    case Lit(_) => Cut(Code(t, Symbol(token)))
    case Copy(_, pos) => Cut(Code(t, Symbol(token))) + PositionBits(pos)
  }

  /** The bits as they leave the encoder's register, which holds 16 bits of a code word. */
  ghost function Sent(ts: seq<Token>): (r: seq<bool>)
    requires Sound(ts)
    ensures |r| == |Coded(ts)|
  {
    if ts == [] then [] else Sent(ts[..|ts| - 1]) + SentToken(After(ts[..|ts| - 1]), ts[|ts| - 1])
  }

  /** How many bits wait after a token when `p` waited before it. */
  ghost function PendingToken(p: nat, t: Tree, token: Token): nat
    requires Inv(t) && Codable(token)
  {
    match token
    case Lit(_) => Waits(p, |Code(t, Symbol(token))|)
    case Copy(_, pos) => Waits(Waits(Waits(p, |Code(t, Symbol(token))|), PLen(pos / 64)), 6)
  }

  /** How many bits wait in the accumulator after the tokens. */
  ghost function Pending(ts: seq<Token>): nat
    requires Sound(ts)
  {
    if ts == [] then 0 else PendingToken(Pending(ts[..|ts| - 1]), After(ts[..|ts| - 1]), ts[|ts| - 1])
  }

  /** No more than 16 bits wait before a code word, nor between it and a position. */
  ghost predicate RoomFor(p: nat, t: Tree, token: Token)
    requires Inv(t) && Codable(token)
  {
    p <= 16 && (token.Copy? ==> Waits(p, |Code(t, Symbol(token))|) <= 16)
  }

  /** Never do more than 16 bits wait when something is written, so every shift of the encoder is defined. */
  ghost predicate Roomy(ts: seq<Token>)
    requires Sound(ts)
  {
    ts == [] || (Roomy(ts[..|ts| - 1]) && RoomFor(Pending(ts[..|ts| - 1]), After(ts[..|ts| - 1]), ts[|ts| - 1]))
  }

  /** A word that loses nothing in 16 bits: all its bits from the 17th on are zeros. */
  ghost predicate Whole(word: seq<bool>) {
    forall i :: 16 <= i < |word| ==> !word[i]
  }

  /** No code word loses a set bit in the register. */
  ghost predicate Intact(ts: seq<Token>)
    requires Sound(ts)
  {
    ts == [] || (Intact(ts[..|ts| - 1]) && Whole(Code(After(ts[..|ts| - 1]), Symbol(ts[|ts| - 1]))))
  }

  /** At the end no set bit waits behind the first eight, which are all that is flushed. */
  ghost predicate NoneLeft(ts: seq<Token>)
    requires Sound(ts)
  {
    forall i: nat :: |Sent(ts)| - Pending(ts) + 8 <= i < |Sent(ts)| ==> !Sent(ts)[i]
  }

  /** Every bit of every code word reaches the output. */
  ghost predicate Fits(ts: seq<Token>)
    requires Sound(ts)
  {
    Roomy(ts) && Intact(ts) && NoneLeft(ts)
  }

  /** The bits of the output: what has been sent, as far as it was flushed, and zeros up to a whole byte. */
  ghost predicate Sends(bits: seq<bool>, ts: seq<Token>)
    requires Sound(ts)
  {
    Roomy(ts) ==> Flushed(bits, Sent(ts), Pending(ts))
  }

  lemma Snoc(ts: seq<Token>, t: Token)
    requires Sound(ts) && TokenOk(Expand(ts), t)
    ensures Sound(ts + [t])
    ensures After(ts + [t]) == Update(After(ts), Symbol(t))
    ensures Coded(ts + [t]) == Coded(ts) + TokenBits(After(ts), t)
    ensures Sent(ts + [t]) == Sent(ts) + SentToken(After(ts), t)
    ensures Pending(ts + [t]) == PendingToken(Pending(ts), After(ts), t)
    ensures Roomy(ts + [t]) <==> Roomy(ts) && RoomFor(Pending(ts), After(ts), t)
    ensures Intact(ts + [t]) <==> Intact(ts) && Whole(Code(After(ts), Symbol(t)))
  {
    hide TokenBits, SentToken, PendingToken, RoomFor, Update, Code, Whole;
    ExpandSnoc(ts, t);
    assert (ts + [t])[..|ts|] == ts;
  }

  // ----- when every bit arrives -----

  /** No code word is longer than 16 bits. */
  ghost predicate Short(ts: seq<Token>)
    requires Sound(ts)
  {
    ts == [] || (Short(ts[..|ts| - 1]) && |Code(After(ts[..|ts| - 1]), Symbol(ts[|ts| - 1]))| <= 16)
  }

  lemma {:induction false} ShortWaits(ts: seq<Token>)
    requires Sound(ts) && Short(ts)
    ensures Roomy(ts) && Intact(ts) && Pending(ts) < 8
  {
    hide Code, Update, Expand;
    if ts != [] { ShortWaits(ts[..|ts| - 1]); }
  }

  /** While no code word has more than 16 bits every bit arrives. */
  lemma ShortFits(ts: seq<Token>)
    requires Sound(ts) && Short(ts)
    ensures Fits(ts)
  {
    hide Sent, Pending, Roomy, Intact;
    ShortWaits(ts);
  }

  /** Then there are at most two bytes of code for each byte of text. */
  lemma {:induction false} ShortSize(ts: seq<Token>)
    requires Sound(ts) && Short(ts)
    ensures |Coded(ts)| <= 16 * (|Expand(ts)| - (N - F))
  {
    hide Code, Update, Expand, Coded, After, Sound, PLen;
    NoTokens();
    if ts != [] {
      var us, t := ts[..|ts| - 1], ts[|ts| - 1];
      LastToken(ts);
      ShortSize(us);
      if t.Copy? { PrefixLength(t.pos / 64); }
    }
  }

  /** Up to 3867 symbols every code word has at most 16 bits. */
  lemma {:induction false} FewShort(ts: seq<Token>)
    requires Sound(ts) && |ts| <= 3867
    ensures Short(ts) && After(ts).freq[R] == N_CHAR + |ts|
  {
    hide Update, Code;
    if ts != [] {
      FewShort(ts[..|ts| - 1]);
      CodeFits(After(ts[..|ts| - 1]), Symbol(ts[|ts| - 1]));
    }
  }

  lemma FewFit(ts: seq<Token>)
    requires Sound(ts) && |ts| <= 3867
    ensures Fits(ts)
  {
    FewShort(ts);
    ShortFits(ts);
  }

  lemma CutWhole(word: seq<bool>)
    requires Whole(word)
    ensures Cut(word) == word
  {
  }

  lemma {:induction false} IntactSent(ts: seq<Token>)
    requires Sound(ts) && Intact(ts)
    ensures Sent(ts) == Coded(ts)
  {
    hide Code, Cut, Whole, PositionBits, Expand, Update;
    if ts != [] {
      IntactSent(ts[..|ts| - 1]);
      CutWhole(Code(After(ts[..|ts| - 1]), Symbol(ts[|ts| - 1])));
    }
  }

  /** What is not flushed belongs to the code word of the last literal. */
  lemma {:induction false} LeftOver(ts: seq<Token>)
    requires Sound(ts) && Roomy(ts)
    ensures Pending(ts) <= |Sent(ts)|
    ensures ts != [] ==> |Sent(ts[..|ts| - 1])| <= |Kept(Sent(ts), Pending(ts))| && (ts[|ts| - 1].Copy? ==> Pending(ts) <= 8)
  {
    hide Code, Update, Expand, Sent, After, SentToken, PendingToken, RoomFor;
    if ts != [] {
      var us, t := ts[..|ts| - 1], ts[|ts| - 1];
      LeftOver(us);
      LastToken(ts);
      LeftOverToken(After(us), t, Pending(us), |Sent(us)|);
    }
  }

  lemma LeftOverToken(tree: Tree, t: Token, p: nat, n: nat)
    requires Inv(tree) && Codable(t) && p <= n && RoomFor(p, tree, t)
    ensures var w := PendingToken(p, tree, t);
      w <= n + |SentToken(tree, t)| && (w > 8 ==> t.Lit? && w - 8 <= |SentToken(tree, t)|)
  {
    hide Code, PLen;
    CodeFits(tree, Symbol(t));
    if t.Copy? { PrefixLength(t.pos / 64); }
  }

  lemma PrefixLength(i: int)
    requires 0 <= i < 64
    ensures 3 <= PLen(i) <= 8
  {
  }

  // ----- decoding -----

  /** The decoder between two symbols: its tree, how many bits it has read, its window, and what it has written. */
  datatype Dec = Dec(tree: Tree, cur: nat, text: seq<byte>, r: int, out: seq<byte>)

  ghost predicate DecOk(d: Dec) {
    match d case Dec(tree, _, text, r, _) => Inv(tree) && |text| == TEXT_SIZE && IsPos(r)
  }

  /** Write one byte, to the output and to the window. */
  function Emit(d: Dec, c: byte): Dec
    requires |d.text| == TEXT_SIZE && IsPos(d.r)
  {
    d.(text := d.text[d.r := c], r := Next(d.r), out := d.out + [c])
  }

  /** Copy `n` bytes from window position `i` on. */
  function CopyBytes(d: Dec, i: int, n: nat): (e: Dec)
    requires |d.text| == TEXT_SIZE && IsPos(d.r)
    ensures |e.text| == TEXT_SIZE && IsPos(e.r) && e.tree == d.tree && e.cur == d.cur && |e.out| == |d.out| + n
  {
    if n == 0 then d
    else
      var e := CopyBytes(d, i, n - 1);
      Emit(e, e.text[(i + n - 1) % N])
  }

  /** Decode one symbol and do what it says. */
  ghost function Step(d: Dec, bits: seq<bool>): (e: Dec)
    requires DecOk(d)
    ensures DecOk(e) && |d.out| < |e.out| <= |d.out| + F
  {
    var (c, cur) := DecodeSymbol(d.tree, bits, d.cur);
    var d1 := d.(tree := Update(d.tree, c), cur := cur);
    if c < 256 then Emit(d1, c)
    else
      var (p, cur') := DecodePosition(bits, cur);
      CopyBytes(d1.(cur := cur'), (d1.r - p - 1) % N, c - 255 + THRESHOLD)
  }

  /** Decode until `size` bytes are there. */
  ghost function Run(d: Dec, bits: seq<bool>, size: nat): (e: Dec)
    requires DecOk(d)
    ensures DecOk(e)
    decreases size - |d.out|
  {
    if |d.out| < size then Run(Step(d, bits), bits, size) else d
  }

  /** Whatever the bits are, decoding stops, with no more than 59 bytes too many. */
  lemma {:induction false} RunLength(d: Dec, bits: seq<bool>, size: nat)
    requires DecOk(d) && |d.out| < size + F
    ensures size <= |Run(d, bits, size).out| < size + F
    decreases size - |d.out|
  {
    if |d.out| < size { RunLength(Step(d, bits), bits, size); }
  }

  /** The decoder's window holds the end of the history. */
  ghost predicate Ring(text: seq<byte>, r: int, h: seq<byte>) {
    && |text| == TEXT_SIZE && r == |h| % N
    && forall v :: |h| - N <= v < |h| && 0 <= v ==> text[v % N] == h[v]
  }

  lemma EmitRing(d: Dec, h: seq<byte>, c: byte)
    requires Ring(d.text, d.r, h)
    ensures var e := Emit(d, c); Ring(e.text, e.r, h + [c])
  {
    var e := Emit(d, c);
    forall v | |h| + 1 - N <= v < |h| + 1 && 0 <= v ensures e.text[v % N] == (h + [c])[v] {
      if v < |h| { ModUnequal(v, |h|); }
    }
  }

  lemma CopySource(h: nat, pos: nat, n: nat)
    requires pos < h && pos < N && 0 < n
    ensures ((h % N - pos - 1) % N + n - 1) % N == (h + (n - 1) - pos - 1) % N
  {
  }

  /** Copying in the window does to the history what the token says. */
  lemma {:induction false} CopyRing(d: Dec, h: seq<byte>, pos: nat, n: nat)
    requires |d.text| == TEXT_SIZE && d.r == |h| % N && Ring(d.text, d.r, h) && pos < |h| && pos < N
    ensures var e := CopyBytes(d, (d.r - pos - 1) % N, n);
      Ring(e.text, e.r, CopyOn(h, n, pos)) && d.out + CopyOn(h, n, pos)[|h|..] == e.out
  {
    hide Ring, Emit;
    if n > 0 {
      CopyRing(d, h, pos, n - 1);
      var e, g := CopyBytes(d, (d.r - pos - 1) % N, n - 1), CopyOn(h, n - 1, pos);
      CopySource(|h|, pos, n);
      assert CopyOn(h, n, pos) == g + [g[|g| - pos - 1]];
      CopyOne(d, e, h, g, |g| - pos - 1);
    }
  }

  lemma CopyOne(d: Dec, e: Dec, h: seq<byte>, g: seq<byte>, v: nat)
    requires Ring(e.text, e.r, g) && |g| - N <= v < |g|
    requires |h| <= |g| && d.out + g[|h|..] == e.out
    ensures var e' := Emit(e, e.text[v % N]);
      Ring(e'.text, e'.r, g + [g[v]]) && d.out + (g + [g[v]])[|h|..] == e'.out
  {
    assert e.text[v % N] == g[v];
    EmitRing(e, g, g[v]);
    assert (g + [g[v]])[|h|..] == g[|h|..] + [g[v]];
  }

  /** A literal is decoded to its byte. */
  lemma StepLit(d: Dec, bits: seq<bool>, h: seq<byte>, c: byte)
    requires DecOk(d) && Ring(d.text, d.r, h) && ReadsAt(bits, d.cur, Code(d.tree, c))
    ensures var e := Step(d, bits);
      && e.tree == Update(d.tree, c) && e.cur == d.cur + |Code(d.tree, c)|
      && Ring(e.text, e.r, h + [c]) && e.out == d.out + [c]
  {
    hide Update, Code;
    DecodeInverts(d.tree, c, bits, d.cur);
    EmitRing(d.(tree := Update(d.tree, c), cur := d.cur + |Code(d.tree, c)|), h, c);
  }

  /** A copy token is decoded to its length and position. */
  lemma StepReadsCopy(d: Dec, bits: seq<bool>, len: nat, pos: nat)
    requires DecOk(d) && Codable(Copy(len, pos)) && ReadsAt(bits, d.cur, TokenBits(d.tree, Copy(len, pos)))
    ensures Step(d, bits)
      == CopyBytes(d.(tree := Update(d.tree, Symbol(Copy(len, pos))), cur := d.cur + |TokenBits(d.tree, Copy(len, pos))|),
                   (d.r - pos - 1) % N, len)
  {
    hide Update, Code, PositionBits, ReadsAt, CopyBytes, Step, DecodeSymbol, DecodePosition, DecOk, TokenBits;
    DecFacts(d);
    var c := 255 - THRESHOLD + len;
    var w, z := Code(d.tree, c), PositionBits(pos);
    CopyTokenBits(d.tree, len, pos);
    ReadsBoth(bits, d.cur, w, z);
    DecodeInverts(d.tree, c, bits, d.cur);
    PositionInverts(pos, bits, d.cur + |w|);
    StepCopies(d, bits, c, d.cur + |w|, pos, d.cur + |w| + |z|);
  }

  /** A copy token is decoded to what it copies. */
  lemma StepCopy(d: Dec, bits: seq<bool>, h: seq<byte>, len: nat, pos: nat)
    requires DecOk(d) && Ring(d.text, d.r, h) && THRESHOLD < len <= F && pos < |h| && pos < N
    requires ReadsAt(bits, d.cur, TokenBits(d.tree, Copy(len, pos)))
    ensures var e := Step(d, bits);
      && e.tree == Update(d.tree, Symbol(Copy(len, pos))) && e.cur == d.cur + |TokenBits(d.tree, Copy(len, pos))|
      && Ring(e.text, e.r, CopyOn(h, len, pos)) && e.out == d.out + CopyOn(h, len, pos)[|h|..]
  {
    hide Update, Ring, CopyOn, ReadsAt, CopyBytes, Step, TokenBits;
    RingAt(d.text, d.r, h);
    StepReadsCopy(d, bits, len, pos);
    CopyRing(d.(tree := Update(d.tree, Symbol(Copy(len, pos))), cur := d.cur + |TokenBits(d.tree, Copy(len, pos))|), h, pos, len);
  }

  lemma CopyTokenBits(t: Tree, len: nat, pos: nat)
    requires Inv(t) && Codable(Copy(len, pos))
    ensures TokenBits(t, Copy(len, pos)) == Code(t, 255 - THRESHOLD + len) + PositionBits(pos)
  {
  }

  lemma DecFacts(d: Dec)
    requires DecOk(d)
    ensures Inv(d.tree) && |d.text| == TEXT_SIZE && IsPos(d.r)
  {
  }

  lemma UpdatedDec(d: Dec, c: int, cur: nat)
    requires DecOk(d) && IsSymbol(c)
    ensures DecOk(d.(tree := Update(d.tree, c), cur := cur))
  {
    hide Update;
  }

  lemma StepLiteral(d: Dec, bits: seq<bool>, c: int, cur: nat)
    requires DecOk(d) && 0 <= c < 256 && DecodeSymbol(d.tree, bits, d.cur) == (c, cur)
    ensures Step(d, bits) == Emit(d.(tree := Update(d.tree, c), cur := cur), c)
  {
    hide Update, DecodeSymbol;
  }

  lemma StepCopies(d: Dec, bits: seq<bool>, c: int, cur: nat, p: int, cur': nat)
    requires DecOk(d) && IsSymbol(c) && c >= 256
    requires DecodeSymbol(d.tree, bits, d.cur) == (c, cur) && DecodePosition(bits, cur) == (p, cur')
    ensures Step(d, bits) == CopyBytes(d.(tree := Update(d.tree, c), cur := cur'), (d.r - p - 1) % N, c - 255 + THRESHOLD)
  {
    hide Update, CopyBytes, DecodeSymbol, DecodePosition;
  }

  lemma RingAt(text: seq<byte>, r: int, h: seq<byte>)
    requires Ring(text, r, h)
    ensures |text| == TEXT_SIZE && r == |h| % N
  {
  }

  lemma ReadsBoth(bits: seq<bool>, cur: nat, x: seq<bool>, y: seq<bool>)
    ensures ReadsAt(bits, cur, x + y) <==> ReadsAt(bits, cur, x) && ReadsAt(bits, cur + |x|, y)
  {
    if ReadsAt(bits, cur, x + y) {
      forall i | 0 <= i < |x| ensures BitAt(bits, cur + i) == x[i] { assert (x + y)[i] == x[i]; }
      forall i | 0 <= i < |y| ensures BitAt(bits, cur + |x| + i) == y[i] {
        assert BitAt(bits, cur + (|x| + i)) == (x + y)[|x| + i];
      }
    } else if ReadsAt(bits, cur, x) && ReadsAt(bits, cur + |x|, y) {
      forall i | 0 <= i < |x + y| ensures BitAt(bits, cur + i) == (x + y)[i] {
        if i >= |x| { assert BitAt(bits, cur + |x| + (i - |x|)) == y[i - |x|]; }
      }
    }
  }

  /** One token is decoded to what it stands for. */
  lemma StepToken(d: Dec, bits: seq<bool>, h: seq<byte>, t: Token)
    requires DecOk(d) && TokenOk(h, t) && Codable(t) && Ring(d.text, d.r, h)
    requires ReadsAt(bits, d.cur, TokenBits(d.tree, t))
    ensures var e := Step(d, bits);
      && e.tree == Update(d.tree, Symbol(t)) && e.cur == d.cur + |TokenBits(d.tree, t)|
      && Ring(e.text, e.r, Extend(h, t)) && e.out == d.out + Extend(h, t)[|h|..]
  {
    hide Step, DecOk, Ring, Update, Code, PositionBits, CopyOn, ReadsAt;
    match t
    case Lit(c) => StepLit(d, bits, h, c);
    case Copy(len, pos) => StepCopy(d, bits, h, len, pos);
  }

  /** The last token of a list, behind the others. */
  lemma LastToken(ts: seq<Token>)
    requires Sound(ts) && ts != []
    ensures var us, t := ts[..|ts| - 1], ts[|ts| - 1];
      && Sound(us) && TokenOk(Expand(us), t) && Codable(t) && Expand(ts) == Extend(Expand(us), t)
      && After(ts) == Update(After(us), Symbol(t)) && Coded(ts) == Coded(us) + TokenBits(After(us), t)
      && Sent(ts) == Sent(us) + SentToken(After(us), t)
      && (Roomy(ts) ==> Roomy(us)) && (Intact(ts) <==> Intact(us) && Whole(Code(After(us), Symbol(t))))
      && |Expand(us)| < |Expand(ts)|
  {
    hide TokenBits, SentToken, PendingToken, RoomFor, Update, Code, Whole, Extend;
  }

  lemma NoTokens()
    ensures Sound([]) && After([]) == InitialTree() && Coded([]) == [] && Sent([]) == [] && Expand([]) == Blanks()
    ensures Pending([]) == 0 && Roomy([]) && Intact([]) && Fits([])
  {
  }

  /** The decoder before it decodes anything. */
  ghost predicate Begins(d0: Dec) {
    DecOk(d0) && d0.tree == InitialTree() && d0.cur == 0 && d0.out == [] && Ring(d0.text, d0.r, Blanks())
  }

  /** The decoder after `k` symbols. */
  ghost function At(d0: Dec, bits: seq<bool>, k: nat): (d: Dec)
    requires DecOk(d0)
    ensures DecOk(d)
  {
    if k == 0 then d0 else Step(At(d0, bits, k - 1), bits)
  }

  /** The decoder `d` has the encoder's tree after `ts`, has read their bits and written their text. */
  ghost predicate InStep(d: Dec, ts: seq<Token>)
    requires Sound(ts)
  {
    DecOk(d) && d.tree == After(ts) && d.cur == |Coded(ts)| && Ring(d.text, d.r, Expand(ts)) && d.out == Expand(ts)[N - F..]
  }

  /** Where the bits of the tokens stand the decoder keeps in step with the encoder. */
  lemma {:induction false} Lockstep(ts: seq<Token>, d0: Dec, bits: seq<bool>, size: nat)
    requires Sound(ts) && Begins(d0) && ReadsAt(bits, 0, Coded(ts)) && |Expand(ts)| - (N - F) <= size
    ensures InStep(At(d0, bits, |ts|), ts) && Run(d0, bits, size) == Run(At(d0, bits, |ts|), bits, size)
  {
    hide DecOk, TokenOk, Extend, Step, TokenBits, SentToken, Ring, Symbol, Sound, Expand, After, Coded, Sent, Run, Update, InStep, ReadsAt,
      Codable, Roomy, Intact, Whole, Code;
    if ts == [] {
      InStepStart(d0);
    } else {
      var us, t := ts[..|ts| - 1], ts[|ts| - 1];
      LastToken(ts);
      ReadsBoth(bits, 0, Coded(us), TokenBits(After(us), t));
      Lockstep(us, d0, bits, size);
      StepTo(At(d0, bits, |us|), ts, bits, size);
    }
  }

  lemma InStepStart(d0: Dec)
    requires Begins(d0)
    ensures Sound([]) && InStep(d0, [])
  {
    hide DecOk, Ring;
    NoTokens();
  }

  /** The decoder stays in step over one more token. */
  lemma StepTo(c: Dec, ts: seq<Token>, bits: seq<bool>, size: nat)
    requires Sound(ts) && ts != [] && Sound(ts[..|ts| - 1]) && InStep(c, ts[..|ts| - 1])
    requires Codable(ts[|ts| - 1]) && ReadsAt(bits, |Coded(ts[..|ts| - 1])|, TokenBits(After(ts[..|ts| - 1]), ts[|ts| - 1]))
    requires |Expand(ts)| - (N - F) <= size
    ensures InStep(Step(c, bits), ts) && Run(c, bits, size) == Run(Step(c, bits), bits, size)
  {
    hide TokenOk, Extend, Step, TokenBits, SentToken, Ring, Symbol, Sound, Expand, After, Coded, Sent, Update, ReadsAt, Roomy, Intact,
      Whole, Code, DecOk;
    var us, t := ts[..|ts| - 1], ts[|ts| - 1];
    LastToken(ts);
    var h := Expand(us);
    StepToken(c, bits, h, t);
    StepOk(c, bits);
    assert h[N - F..] + Extend(h, t)[|h|..] == Extend(h, t)[N - F..];
  }

  lemma StepOk(c: Dec, bits: seq<bool>)
    requires DecOk(c)
    ensures DecOk(Step(c, bits))
  {
    hide Step;
  }

  /** Decoding the bits of a token list gives what the tokens stand for, and reads just these bits. */
  lemma DecodesTokens(ts: seq<Token>, d0: Dec, bits: seq<bool>)
    requires Sound(ts) && ReadsAt(bits, 0, Coded(ts)) && Begins(d0)
    ensures var d := Run(d0, bits, |Expand(ts)| - (N - F)); d.out == Expand(ts)[N - F..] && d.cur == |Coded(ts)|
  {
    hide DecOk, Ring, Sound, Expand, After, Coded, ReadsAt, Begins, Run, At;
    BeginsOk(d0);
    Lockstep(ts, d0, bits, |Expand(ts)| - (N - F));
    RunDone(At(d0, bits, |ts|), bits, |Expand(ts)| - (N - F));
  }

  lemma BeginsOk(d0: Dec)
    requires Begins(d0)
    ensures DecOk(d0)
  {
  }

  lemma RunDone(d: Dec, bits: seq<bool>, size: nat)
    requires DecOk(d) && |d.out| == size
    ensures Run(d, bits, size) == d
  {
  }

  // ----- when a symbol is lost -----

  /** Symbol `k` is decoded at its place. */
  ghost predicate DecodedAt(ts: seq<Token>, d0: Dec, bits: seq<bool>, k: nat)
    requires DecOk(d0) && k < |ts|
  {
    DecodeSymbol(At(d0, bits, k).tree, bits, At(d0, bits, k).cur).0 == Symbol(ts[k])
  }

  /** Every symbol is decoded at its place. */
  ghost predicate AllDecoded(ts: seq<Token>, d0: Dec, bits: seq<bool>)
    requires DecOk(d0)
  {
    forall k :: 0 <= k < |ts| ==> DecodedAt(ts, d0, bits, k)
  }

  /** The bits that are sent stand in the output up to those that are not flushed, and zeros after them. */
  lemma SentStands(bits: seq<bool>, ts: seq<Token>, i: nat)
    requires Sound(ts) && Roomy(ts) && Sends(bits, ts) && i < |Sent(ts)|
    ensures BitAt(bits, i) == (Sent(ts)[i] && i < |Kept(Sent(ts), Pending(ts))|)
  {
    hide Sent, Pending, Roomy;
    var kept := Kept(Sent(ts), Pending(ts));
    assert i < |kept| ==> bits[..|kept|][i] == kept[i];
  }

  /** Bits that do read as the code words make the decoder find every symbol. */
  lemma {:induction false} ReadsDecoded(ts: seq<Token>, d0: Dec, bits: seq<bool>)
    requires Sound(ts) && Begins(d0) && ReadsAt(bits, 0, Coded(ts))
    ensures DecOk(d0) && AllDecoded(ts, d0, bits)
  {
    hide Sound, Expand, Coded, After, Begins, DecOk, ReadsAt, TokenBits, At, DecodeSymbol, Update, Code, Symbol, DecodedAt;
    BeginsOk(d0);
    if ts != [] {
      var us, t := ts[..|ts| - 1], ts[|ts| - 1];
      LastToken(ts);
      ReadsBoth(bits, 0, Coded(us), TokenBits(After(us), t));
      ReadsDecoded(us, d0, bits);
      WordRead(bits, |Coded(us)|, After(us), t);
      LastDecoded(us, t, d0, bits);
      assert us + [t] == ts;
      forall k | 0 <= k < |ts| ensures DecodedAt(ts, d0, bits, k) {
        if k < |us| { SamePlace(us, t, d0, bits, k); }
      }
    }
  }

  lemma WordRead(bits: seq<bool>, cur: nat, tree: Tree, t: Token)
    requires Inv(tree) && Codable(t) && ReadsAt(bits, cur, TokenBits(tree, t))
    ensures ReadsAt(bits, cur, Code(tree, Symbol(t)))
  {
    hide ReadsAt, Code, PositionBits;
    if t.Copy? { ReadsBoth(bits, cur, Code(tree, Symbol(t)), PositionBits(t.pos)); }
  }

  lemma SamePlace(us: seq<Token>, t: Token, d0: Dec, bits: seq<bool>, k: nat)
    requires DecOk(d0) && k < |us|
    ensures DecodedAt(us, d0, bits, k) <==> DecodedAt(us + [t], d0, bits, k)
  {
    hide At, DecodeSymbol, Symbol;
  }

  /** In step so far, the decoder finds the next symbol exactly when its code word stands there. */
  lemma LastDecoded(us: seq<Token>, t: Token, d0: Dec, bits: seq<bool>)
    requires Sound(us) && Codable(t) && Begins(d0) && DecOk(d0) && ReadsAt(bits, 0, Coded(us))
    ensures DecodedAt(us + [t], d0, bits, |us|) <==> ReadsAt(bits, |Coded(us)|, Code(After(us), Symbol(t)))
  {
    hide Sound, Expand, Coded, After, Begins, DecOk, ReadsAt, At, DecodeSymbol, Update, Code, Run;
    Lockstep(us, d0, bits, |Expand(us)| - (N - F));
    DecodesOnlyOwnWord(After(us), Symbol(t), bits, |Coded(us)|);
  }

  /** If every symbol is decoded, the bits read as the code words, as far as the positions do. */
  lemma {:induction false} DecodedReads(ts: seq<Token>, d0: Dec, bits: seq<bool>, n: nat)
    requires Sound(ts) && Begins(d0) && DecOk(d0) && n <= |Sent(ts)|
    requires AllDecoded(ts, d0, bits)
    requires forall i :: 0 <= i < n ==> BitAt(bits, i) == Sent(ts)[i]
    requires ts != [] ==> |Sent(ts[..|ts| - 1])| <= n && (ts[|ts| - 1].Copy? ==> n == |Sent(ts)|)
    ensures ReadsAt(bits, 0, Coded(ts))
  {
    hide Sound, Expand, Coded, Sent, After, Begins, DecOk, ReadsAt, TokenBits, SentToken, At, DecodeSymbol, Update, Code, Symbol, DecodedAt;
    NoTokens();
    if ts == [] {
      ReadsNothing(bits);
    } else {
      var us, t := ts[..|ts| - 1], ts[|ts| - 1];
      LastToken(ts);
      assert us + [t] == ts;
      forall k | 0 <= k < |us| ensures DecodedAt(us, d0, bits, k) { SamePlace(us, t, d0, bits, k); }
      assert forall i :: 0 <= i < |Sent(us)| ==> Sent(ts)[i] == Sent(us)[i];
      if us != [] { LastToken(us); }
      DecodedReads(us, d0, bits, |Sent(us)|);
      LastDecoded(us, t, d0, bits);
      ReadsBoth(bits, 0, Coded(us), TokenBits(After(us), t));
      TokenReads(bits, After(us), t, |Coded(us)|, Sent(us), n);
    }
  }

  lemma ReadsNothing(bits: seq<bool>)
    ensures ReadsAt(bits, 0, [])
  {
  }

  lemma TokenReads(bits: seq<bool>, tree: Tree, t: Token, cur: nat, sent: seq<bool>, n: nat)
    requires Inv(tree) && Codable(t) && ReadsAt(bits, cur, Code(tree, Symbol(t))) && cur == |sent|
    requires t.Copy? ==> n == |sent| + |SentToken(tree, t)| && forall i :: 0 <= i < n ==> BitAt(bits, i) == (sent + SentToken(tree, t))[i]
    ensures ReadsAt(bits, cur, TokenBits(tree, t))
  {
    hide Code, PositionBits, BitAt;
    match t
    case Lit(_) =>
    case Copy(_, pos) =>
      var w, z := Code(tree, Symbol(t)), PositionBits(pos);
      forall i | 0 <= i < |z| ensures BitAt(bits, cur + |w| + i) == z[i] {
        assert (sent + SentToken(tree, t))[cur + |w| + i] == z[i];
      }
      ReadsBoth(bits, cur, w, z);
  }

  /** No bit of a code word is missing from what is sent only if none was lost in the register. */
  lemma {:induction false} SentIntact(ts: seq<Token>)
    requires Sound(ts) && forall i :: 0 <= i < |Sent(ts)| ==> Coded(ts)[i] ==> Sent(ts)[i]
    ensures Intact(ts)
  {
    hide Sound, Expand, Coded, Sent, After, Update, Code, TokenBits, SentToken, Intact;
    NoTokens();
    if ts != [] {
      var us, t := ts[..|ts| - 1], ts[|ts| - 1];
      LastToken(ts);
      forall i | 0 <= i < |Sent(us)| ensures Coded(us)[i] ==> Sent(us)[i] {
        assert Coded(us)[i] == Coded(ts)[i] && Sent(us)[i] == Sent(ts)[i];
      }
      SentIntact(us);
      var w := Code(After(us), Symbol(t));
      WordFirst(After(us), t);
      forall i | 16 <= i < |w| ensures !w[i] {
        assert w[i] == TokenBits(After(us), t)[i] == Coded(ts)[|Coded(us)| + i];
        assert Cut(w)[i] == SentToken(After(us), t)[i] == Sent(ts)[|Coded(us)| + i];
      }
    }
  }

  lemma WordFirst(tree: Tree, t: Token)
    requires Inv(tree) && Codable(t)
    ensures var w := Code(tree, Symbol(t));
      |w| <= |TokenBits(tree, t)| == |SentToken(tree, t)| && forall i :: 0 <= i < |w| ==> TokenBits(tree, t)[i] == w[i] && SentToken(tree, t)[i] == Cut(w)[i]
  {
    hide Code, PositionBits;
  }

  /** If no more than 16 bits ever wait, the decoder finds every symbol at its place exactly when every set bit arrives. */
  lemma EverySymbol(ts: seq<Token>, d0: Dec, bits: seq<bool>)
    requires Sound(ts) && Roomy(ts) && Sends(bits, ts) && Begins(d0)
    ensures DecOk(d0) && (AllDecoded(ts, d0, bits) <==> Fits(ts))
  {
    hide Sound, Expand, Coded, Sent, After, Begins, DecOk, ReadsAt, At, DecodedAt, Pending, Roomy, Intact, BitAt, Sends, NoneLeft;
    BeginsOk(d0);
    LeftOver(ts);
    forall i | 0 <= i < |Sent(ts)| ensures BitAt(bits, i) == (Sent(ts)[i] && i < |Kept(Sent(ts), Pending(ts))|) {
      SentStands(bits, ts, i);
    }
    if Fits(ts) {
      FitsReads(ts, bits);
      ReadsDecoded(ts, d0, bits);
    }
    if AllDecoded(ts, d0, bits) {
      DecodedReads(ts, d0, bits, |Kept(Sent(ts), Pending(ts))|);
      ReadsFits(ts, bits);
    }
  }

  /** When every set bit arrives, the output reads as the code words. */
  lemma FitsReads(ts: seq<Token>, bits: seq<bool>)
    requires Sound(ts) && Fits(ts) && Sends(bits, ts)
    ensures ReadsAt(bits, 0, Coded(ts))
  {
    hide Sent, Coded, Pending, Roomy, Intact, Sends, BitAt;
    LeftOver(ts);
    IntactSent(ts);
    forall i | 0 <= i < |Coded(ts)| ensures BitAt(bits, 0 + i) == Coded(ts)[i] { SentStands(bits, ts, i); }
  }

  lemma ReadsFits(ts: seq<Token>, bits: seq<bool>)
    requires Sound(ts) && Roomy(ts) && Sends(bits, ts) && ReadsAt(bits, 0, Coded(ts))
    ensures Fits(ts)
  {
    hide Sent, Coded, Pending, Roomy, Intact, Sends, BitAt;
    LeftOver(ts);
    forall i | 0 <= i < |Sent(ts)| ensures Coded(ts)[i] == (Sent(ts)[i] && i < |Kept(Sent(ts), Pending(ts))|) {
      SentStands(bits, ts, i);
      assert BitAt(bits, 0 + i) == Coded(ts)[i];
    }
    SentIntact(ts);
    IntactSent(ts);
  }

  // ----- and the text with it -----

  lemma {:induction false} RunGrows(d: Dec, bits: seq<bool>, size: nat)
    requires DecOk(d)
    ensures d.out <= Run(d, bits, size).out
    decreases size - |d.out|
  {
    hide Step;
    if |d.out| < size {
      StepGrows(d, bits);
      RunGrows(Step(d, bits), bits, size);
    }
  }

  lemma StepGrows(d: Dec, bits: seq<bool>)
    requires DecOk(d)
    ensures d.out <= Step(d, bits).out
  {
    hide Update, DecodeSymbol, Huffman.Walk, Value;
    var (c, cur) := DecodeSymbol(d.tree, bits, d.cur);
    if c >= 256 {
      var (p, cur') := DecodePosition(bits, cur);
      CopyGrows(d.(tree := Update(d.tree, c), cur := cur'), (d.r - p - 1) % N, c - 255 + THRESHOLD);
    }
  }

  lemma {:induction false} CopyGrows(d: Dec, i: int, n: nat)
    requires |d.text| == TEXT_SIZE && IsPos(d.r)
    ensures d.out <= CopyBytes(d, i, n).out
  {
    if n > 0 { CopyGrows(d, i, n - 1); }
  }

  /** A literal that is decoded to another literal leaves the text altered. */
  lemma LiteralAlters(ts: seq<Token>, k: nat, d0: Dec, bits: seq<bool>)
    requires Sound(ts) && k < |ts| && Sound(ts[..k]) && Begins(d0) && DecOk(d0) && ReadsAt(bits, 0, Coded(ts[..k]))
    requires ts[k].Lit? && !DecodedAt(ts, d0, bits, k)
    requires DecodeSymbol(At(d0, bits, k).tree, bits, At(d0, bits, k).cur).0 < 256
    ensures var y, i := Run(d0, bits, |Expand(ts)| - (N - F)).out, |Expand(ts[..k])| - (N - F);
      i < |y| && N - F + i < |Expand(ts)| && y[i] != Expand(ts)[N - F + i]
  {
    hide Sound, Expand, Coded, After, Begins, ReadsAt, At, DecodeSymbol, Update, Step, Run, DecOk;
    var us, size := ts[..k], |Expand(ts)| - (N - F);
    ExpandPrefix(ts, k);
    Lockstep(us, d0, bits, size);
    var d := At(d0, bits, k);
    var (c, cur) := DecodeSymbol(d.tree, bits, d.cur);
    StepLiteral(d, bits, c, cur);
    StepOk(d, bits);
    RunNext(d, bits, size);
    RunGrows(Step(d, bits), bits, size);
    PrefixByte(ts, k);
  }

  lemma RunNext(d: Dec, bits: seq<bool>, size: nat)
    requires DecOk(d) && |d.out| < size
    ensures Run(d, bits, size) == Run(Step(d, bits), bits, size)
  {
    hide Step;
  }

  /** Where a literal is in the text. */
  lemma PrefixByte(ts: seq<Token>, k: nat)
    requires Sound(ts) && k < |ts| && ts[k].Lit? && Sound(ts[..k])
    ensures |Expand(ts[..k])| < |Expand(ts)| && Expand(ts)[|Expand(ts[..k])|] == ts[k].c
  {
    hide Sound, Expand;
    SoundPrefix(ts, k);
    PrefixKept(ts, k + 1);
  }

  // ----- a last literal that loses a bit -----

  lemma RunStops(d: Dec, bits: seq<bool>, size: nat)
    requires DecOk(d) && |d.out| >= size
    ensures Run(d, bits, size) == d
  {
  }

  /** What one step reads and writes, by the symbol found. */
  lemma StepWrites(d: Dec, bits: seq<bool>)
    requires DecOk(d)
    ensures var (e, (c, cur)) := (Step(d, bits), DecodeSymbol(d.tree, bits, d.cur));
      && cur <= e.cur && d.out < e.out
      && (if c < 256 then e.out == d.out + [c] else |e.out| >= |d.out| + 3)
  {
    hide Update, DecodeSymbol, DecodePosition, CopyBytes, Step, DecOk;
    DecFacts(d);
    StepGrows(d, bits);
    var (c, cur) := DecodeSymbol(d.tree, bits, d.cur);
    if c < 256 {
      StepLiteral(d, bits, c, cur);
    } else {
      var (p, cur') := DecodePosition(bits, cur);
      StepCopies(d, bits, c, cur, p, cur');
    }
  }

  /** How much of the last word reaches the output: its first 16 bits do. */
  lemma LastKept(ts: seq<Token>)
    requires Sound(ts) && ts != [] && Sound(ts[..|ts| - 1]) && Short(ts[..|ts| - 1]) && ts[|ts| - 1].Lit?
    requires |Code(After(ts[..|ts| - 1]), Symbol(ts[|ts| - 1]))| > 16
    ensures Roomy(ts) && Sent(ts[..|ts| - 1]) == Coded(ts[..|ts| - 1])
    ensures Pending(ts) <= |Sent(ts)|
    ensures var n := |Coded(ts[..|ts| - 1])|; n + 16 < |Kept(Sent(ts), Pending(ts))| <= n + 21
  {
    hide Code, Sound, Expand, After, Sent, Coded, Short, Intact;
    var us, t := ts[..|ts| - 1], ts[|ts| - 1];
    LastToken(ts);
    ShortWaits(us);
    IntactSent(us);
    CodeFits(After(us), Symbol(t));
  }

  /** The last token is a literal whose code word loses a set bit in the register, and no word before it has more than 16. */
  ghost predicate LastLoses(ts: seq<Token>)
    requires Sound(ts)
  {
    ts != [] && var us, t := ts[..|ts| - 1], ts[|ts| - 1]; Short(us) && t.Lit? && !Whole(Code(After(us), Symbol(t)))
  }

  /** A last literal that loses a bit, the words before it being short, is found as another symbol with a long word: all
      that is there is read, and the text differs in its last byte or goes on behind it. */
  lemma LastLost(ts: seq<Token>, d0: Dec, bits: seq<bool>)
    requires Sound(ts) && LastLoses(ts) && Begins(d0) && DecOk(d0) && Sends(bits, ts)
    ensures var x, d := Expand(ts)[N - F..], Run(d0, bits, |Expand(ts)| - (N - F));
      && x != [] && x[..|x| - 1] < d.out && d.out != x && |bits| <= d.cur + 15
  {
    hide Code, Sound, Expand, After, Coded, Sent, Pending, Roomy, Short, Begins, DecOk, At, DecodeSymbol, Run, Step, Update, BitAt, Sends,
      Whole;
    LastToken(ts);
    var us, t := ts[..|ts| - 1], ts[|ts| - 1];
    var n, size := |Coded(us)|, |Expand(ts)| - (N - F);
    WholeShort(Code(After(us), Symbol(t)));
    LastKept(ts);
    SentKept(bits, ts);
    LastPlace(bits, us, After(us), t, n, Sent(ts), Kept(Sent(ts), Pending(ts)));
    Lockstep(us, d0, bits, size);
    var d := At(d0, bits, |us|);
    InStepFacts(d, us);
    LostWord(After(us), Symbol(t), bits, n);
    StepWrites(d, bits);
    StepOk(d, bits);
    RunNext(d, bits, size);
    RunStops(Step(d, bits), bits, size);
    assert Expand(ts)[N - F..] == d.out + [t.c];
  }

  lemma WholeShort(word: seq<bool>)
    ensures |word| <= 16 ==> Whole(word)
  {
  }

  lemma InStepFacts(d: Dec, us: seq<Token>)
    requires Sound(us) && InStep(d, us)
    ensures DecOk(d) && d.tree == After(us) && d.cur == |Coded(us)| && d.out == Expand(us)[N - F..]
  {
    hide Sound, Expand, After, Coded, DecOk;
  }

  /** How long the output is, and what stands in it. */
  lemma SentKept(bits: seq<bool>, ts: seq<Token>)
    requires Sound(ts) && Roomy(ts) && Sends(bits, ts)
    ensures Pending(ts) <= |Sent(ts)| && |bits| < |Kept(Sent(ts), Pending(ts))| + 8
    ensures forall i :: 0 <= i < |Sent(ts)| ==> BitAt(bits, i) == (Sent(ts)[i] && i < |Kept(Sent(ts), Pending(ts))|)
  {
    hide Sound, Sent, Pending, Roomy, BitAt;
    forall i | 0 <= i < |Sent(ts)| ensures BitAt(bits, i) == (Sent(ts)[i] && i < |Kept(Sent(ts), Pending(ts))|) {
      hide Sends;
      SentStands(bits, ts, i);
    }
  }

  /** What then stands at the place of the last word: its first 16 bits, and zeros. */
  lemma LastPlace(bits: seq<bool>, us: seq<Token>, tree: Tree, t: Token, n: nat, sent: seq<bool>, kept: seq<bool>)
    requires Sound(us) && Inv(tree) && t.Lit? && Sent(us) == Coded(us) && n == |Coded(us)|
    requires sent == Sent(us) + SentToken(tree, t) && n + 16 < |kept| && |Code(tree, Symbol(t))| > 16
    requires forall i :: 0 <= i < |sent| ==> BitAt(bits, i) == (sent[i] && i < |kept|)
    ensures ReadsAt(bits, 0, Coded(us))
    ensures var w := Code(tree, Symbol(t)); forall i :: 0 <= i < |w| ==> BitAt(bits, n + i) == (i < 16 && w[i])
  {
    hide Sound, Code, Coded, Sent, BitAt;
    var w := Code(tree, Symbol(t));
    forall i | 0 <= i < |w| ensures BitAt(bits, n + i) == (i < 16 && w[i]) { assert sent[n + i] == Cut(w)[i]; }
    forall i | 0 <= i < n ensures BitAt(bits, 0 + i) == Coded(us)[i] { assert sent[i] == Sent(us)[i]; }
  }

  lemma LostWord(tree: Tree, c: int, bits: seq<bool>, n: nat)
    requires Shape(tree) && IsSymbol(c) && !Whole(Code(tree, c))
    requires var w := Code(tree, c); forall i :: 0 <= i < |w| ==> BitAt(bits, n + i) == (i < 16 && w[i])
    ensures DecodeSymbol(tree, bits, n).0 != c && DecodeSymbol(tree, bits, n).1 > n + 16
  {
    hide Code, DecodeSymbol, BitAt;
    var w := Code(tree, c);
    var i :| 16 <= i < |w| && w[i];
    DecodesOnlyOwnWord(tree, c, bits, n);
    assert BitAt(bits, n + i) != w[i];
    FoundLong(tree, c, bits, n);
  }

  /** Lists of the same symbols have the same trees and code words. */
  lemma {:induction false} SameTrees(ts: seq<Token>, us: seq<Token>)
    requires Sound(ts) && Sound(us) && |ts| == |us| && forall k :: 0 <= k < |ts| ==> Alike(ts[k], us[k])
    ensures After(ts) == After(us) && (Short(ts) <==> Short(us))
  {
    hide Expand, Update, Code;
    if ts != [] { SameTrees(ts[..|ts| - 1], us[..|us| - 1]); }
  }

  lemma SameLoss(ts: seq<Token>, us: seq<Token>)
    requires Sound(ts) && Sound(us) && |ts| == |us| && forall k :: 0 <= k < |ts| ==> Alike(ts[k], us[k])
    ensures LastLoses(ts) <==> LastLoses(us)
  {
    hide Expand, Update, Code, After, Short, Whole;
    if ts != [] { SameTrees(ts[..|ts| - 1], us[..|us| - 1]); }
  }

  /** Such a list does not fit. */
  lemma LossUnfit(ts: seq<Token>)
    requires Sound(ts) && LastLoses(ts)
    ensures !Fits(ts)
  {
    hide Expand, Code, After, Short, Whole, Roomy;
  }
}
