/**
  LZSS tokens and what they stand for.  A history is everything the decoder's window has held:
  the blanks it starts with, then the text.  Index v of the history is at v % N in the window.
 */
module Lzss {
  import opened Bytes
  import opened Forest

  datatype Token = Lit(c: byte) | Copy(len: nat, pos: nat)

  function Blanks(): (b: seq<byte>)
    ensures |b| == N - F && forall i :: 0 <= i < |b| ==> b[i] == 32
  {
    seq(N - F, _ => 32)
  }

  /** Copy `n` bytes from `pos + 1` back; the copy may run into what it writes. */
  function CopyOn(h: seq<byte>, n: nat, pos: nat): (r: seq<byte>)
    requires pos < |h|
    ensures |r| == |h| + n && r[..|h|] == h
  {
    if n == 0 then h
    else
      var g := CopyOn(h, n - 1, pos);
      g + [g[|g| - pos - 1]]
  }

  predicate TokenOk(h: seq<byte>, t: Token) {
    match t
    case Lit(_) => true
    case Copy(len, pos) => THRESHOLD < len <= F && pos < |h| && pos < N
  }

  function Extend(h: seq<byte>, t: Token): (r: seq<byte>)
    requires TokenOk(h, t)
    ensures |h| < |r| <= |h| + F && r[..|h|] == h
  {
    match t
    case Lit(c) => h + [c]
    case Copy(len, pos) => CopyOn(h, len, pos)
  }

  /** Every token refers to what those before it have written. */
  predicate Sound(ts: seq<Token>)
    decreases |ts|, 0
  {
    ts == [] || (Sound(ts[..|ts| - 1]) && TokenOk(Expand(ts[..|ts| - 1]), ts[|ts| - 1]))
  }

  /** The history that the tokens write. */
  function Expand(ts: seq<Token>): (h: seq<byte>)
    requires Sound(ts)
    ensures |h| >= N - F + |ts| && h[..N - F] == Blanks()
    decreases |ts|, 1
  {
    if ts == [] then Blanks() else Extend(Expand(ts[..|ts| - 1]), ts[|ts| - 1])
  }

  lemma ExpandSnoc(ts: seq<Token>, t: Token)
    requires Sound(ts) && TokenOk(Expand(ts), t)
    ensures Sound(ts + [t]) && Expand(ts + [t]) == Extend(Expand(ts), t)
  {
    assert (ts + [t])[..|ts|] == ts;
  }

  lemma SoundPrefix(ts: seq<Token>, k: nat)
    requires Sound(ts) && k < |ts|
    ensures Sound(ts[..k]) && TokenOk(Expand(ts[..k]), ts[k])
    ensures Sound(ts[..k + 1]) && Expand(ts[..k + 1]) == Extend(Expand(ts[..k]), ts[k])
    decreases |ts|
  {
    if k < |ts| - 1 {
      SoundPrefix(ts[..|ts| - 1], k);
      assert ts[..|ts| - 1][..k] == ts[..k] && ts[..|ts| - 1][..k + 1] == ts[..k + 1];
    } else {
      assert ts[..k + 1] == ts;
    }
  }

  lemma {:induction false} ExpandPrefix(ts: seq<Token>, k: nat)
    requires Sound(ts) && k <= |ts|
    ensures Sound(ts[..k]) && |Expand(ts[..k])| + (|ts| - k) <= |Expand(ts)|
    decreases |ts| - k
  {
    if k == |ts| {
      assert ts[..k] == ts;
    } else {
      SoundPrefix(ts, k);
      ExpandPrefix(ts, k + 1);
    }
  }

  lemma {:induction false} PrefixKept(ts: seq<Token>, k: nat)
    requires Sound(ts) && k <= |ts|
    ensures Sound(ts[..k]) && Expand(ts[..k]) <= Expand(ts)
    decreases |ts| - k
  {
    hide Sound, Expand;
    if k == |ts| {
      assert ts[..k] == ts;
    } else {
      SoundPrefix(ts, k);
      PrefixKept(ts, k + 1);
    }
  }

  /** From `rv` on the text has `n` bytes that are those from `p` on. */
  ghost predicate Repeats(v: seq<byte>, p: nat, rv: nat, n: nat)
    requires p < rv
  {
    rv + n <= |v| && forall j :: rv <= j < rv + n ==> v[j] == v[j - (rv - p)]
  }

  /** If the text repeats what lies `pos + 1` before it, copying from there writes it. */
  lemma {:induction false} CopyReproduces(v: seq<byte>, rv: nat, n: nat, pos: nat)
    requires pos < rv && Repeats(v, rv - pos - 1, rv, n)
    ensures CopyOn(v[..rv], n, pos) == v[..rv + n]
  {
    if n > 0 {
      CopyReproduces(v, rv, n - 1, pos);
      assert v[..rv + n] == v[..rv + n - 1] + [v[rv + n - 1]];
    }
  }

  // ----- greedy parsing -----

  /** F blanks from `w` on. */
  predicate BlankRun(v: seq<byte>, w: nat) {
    w + F <= |v| && forall i :: w <= i < w + F ==> v[i] == 32
  }

  /** How many blanks there are from `i` on, up to place N. */
  function BlanksFrom(v: seq<byte>, i: nat): (n: nat)
    requires i <= N
    ensures i + n <= N && (n > 0 ==> i + n <= |v|)
    ensures forall j :: i <= j < i + n ==> v[j] == 32
    ensures i + n < N && i + n < |v| ==> v[i + n] != 32
    decreases N - i
  {
    if i < N && i < |v| && v[i] == 32 then 1 + BlanksFrom(v, i + 1) else 0
  }

  /** How many blanks, up to F, the text starts with. */
  function Lead(v: seq<byte>): (b: nat)
    ensures b <= F
  {
    BlanksFrom(v, N - F)
  }

  /** When the text starts with fewer than F blanks, as many places in front of it share the key of the oldest one and
      are kept in the index only as long as that; so it can be with all of them when nothing else follows. */
  predicate Lost(v: seq<byte>, q: int) {
    N - 2 * F < q < N - F && 0 < Lead(v) < F && (q <= N - 2 * F + Lead(v) || N - F + Lead(v) == |v|)
  }

  /** No start among the last N - F bytes before `rv`, and the F blanks before the text, agrees with what is at `rv` for
      more than `n` bytes, or 2. */
  ghost predicate Longest(v: seq<byte>, rv: nat, n: nat) {
    forall p: nat, m: nat ::
      N - 2 * F <= p < rv <= p + N - F && m <= F && Repeats(v, p, rv, m) ==> m <= n || m <= THRESHOLD
  }

  /** A byte other than blank is among the F bytes from `w` on. */
  ghost predicate Interrupted(v: seq<byte>, w: nat) {
    exists i :: w <= i < w + F && i < |v| && v[i] != 32
  }

  /** From the first place of a text that starts with a blank up to `rv`, no place has F blanks from it on. */
  ghost predicate Sparse(v: seq<byte>, rv: nat) {
    N <= |v| && v[N - F] == 32 && forall w: nat :: N - F <= w <= rv ==> Interrupted(v, w)
  }

  /** At `rv` the text has F blanks for the first time, the oldest place has left the index, and one of those that share
      its key is still in the window. */
  ghost predicate Blind(v: seq<byte>, rv: nat) {
    && 0 < Lead(v) < F && 2 * N - 3 * F < rv <= 2 * N - 3 * F + Lead(v)
    && BlankRun(v, rv) && forall w: nat :: N - F <= w < rv ==> !BlankRun(v, w)
  }

  function Length(t: Token): nat {
    match t
    case Lit(_) => 0
    case Copy(len, _) => len
  }

  /** The token copies from the window and is as long as any match allows, except at a blind place, where it is one byte
      shorter. */
  ghost predicate GreedyToken(v: seq<byte>, rv: nat, t: Token) {
    (t.Copy? ==> t.pos < N - F) && if Blind(v, rv) then Length(t) == F - 1 else Longest(v, rv, Length(t))
  }

  /** Each token stands for as much of the text as any match in the window could give. */
  ghost predicate Greedy(v: seq<byte>, ts: seq<Token>)
    requires Sound(ts)
  {
    forall k :: 0 <= k < |ts| ==> Sound(ts[..k]) && GreedyToken(v, |Expand(ts[..k])|, ts[k])
  }

  lemma GreedyNone(v: seq<byte>)
    ensures Sound([]) && Greedy(v, [])
  {
  }

  lemma GreedySnoc(v: seq<byte>, ts: seq<Token>, t: Token)
    requires Sound(ts) && TokenOk(Expand(ts), t) && Greedy(v, ts) && GreedyToken(v, |Expand(ts)|, t)
    ensures Sound(ts + [t]) && Greedy(v, ts + [t]) && Expand(ts + [t]) == Extend(Expand(ts), t)
  {
    hide GreedyToken, Expand, Sound, Extend, TokenOk;
    ExpandSnoc(ts, t);
    var us := ts + [t];
    assert us[..|ts|] == ts;
    forall k | 0 <= k < |us| ensures Sound(us[..k]) && GreedyToken(v, |Expand(us[..k])|, us[k]) {
      if k < |ts| { assert us[..k] == ts[..k]; }
    }
  }

  lemma {:induction false} CopyByte(h: seq<byte>, n: nat, pos: nat, j: nat)
    requires pos < |h| <= j < |h| + n
    ensures CopyOn(h, n, pos)[j] == CopyOn(h, n, pos)[j - pos - 1]
  {
    if j < |h| + n - 1 { CopyByte(h, n - 1, pos, j); }
  }

  // ----- the parse is determined -----

  /** The tokens have the same symbol: two literals of the same byte, or two copies of the same length. */
  predicate Alike(t: Token, u: Token) {
    match t
    case Lit(_) => t == u
    case Copy(len, _) => u.Copy? && u.len == len
  }

  /** What a token of the window writes is in the window, or in the F blanks before the text. */
  lemma CopyRepeats(v: seq<byte>, rv: nat, len: nat, pos: nat) returns (p: nat)
    requires Blanks() <= v && N - F <= rv && rv + len <= |v| && len <= F && pos < N - F
    requires CopyOn(v[..rv], len, pos) <= v
    ensures N - 2 * F <= p < rv <= p + N - F && Repeats(v, p, rv, len)
  {
    hide CopyOn;
    var h, g, q := v[..rv], CopyOn(v[..rv], len, pos), rv - pos - 1;
    assert forall i :: 0 <= i < N - F ==> v[i] == Blanks()[i];
    forall j | rv <= j < rv + len ensures v[j] == v[j - (rv - q)] {
      CopyByte(h, len, pos, j);
      assert v[j] == g[j] && v[j - (rv - q)] == g[j - (rv - q)];
    }
    p := if q < N - 2 * F then N - 2 * F else q;
    if q < N - 2 * F {
      forall j | rv <= j < rv + len ensures v[j] == v[j - (rv - p)] { assert v[j] == v[j - (rv - q)] == 32; }
    }
  }

  lemma NoLonger(v: seq<byte>, rv: nat, t: Token, u: Token)
    requires Blanks() <= v && N - F <= rv <= |v| && !Blind(v, rv)
    requires TokenOk(v[..rv], t) && Extend(v[..rv], t) <= v && GreedyToken(v, rv, t) && GreedyToken(v, rv, u)
    ensures Length(t) <= Length(u)
  {
    hide CopyOn, Blind, Repeats;
    if t.Copy? { var p := CopyRepeats(v, rv, t.len, t.pos); }
  }

  /** Two greedy tokens for the same place of a text are alike. */
  lemma SameToken(v: seq<byte>, rv: nat, t: Token, u: Token)
    requires Blanks() <= v && N - F <= rv <= |v|
    requires TokenOk(v[..rv], t) && Extend(v[..rv], t) <= v && GreedyToken(v, rv, t)
    requires TokenOk(v[..rv], u) && Extend(v[..rv], u) <= v && GreedyToken(v, rv, u)
    ensures Alike(t, u)
  {
    hide CopyOn, Blind, Longest;
    if !Blind(v, rv) {
      NoLonger(v, rv, t, u);
      NoLonger(v, rv, u, t);
    }
    assert t.Lit? ==> v[rv] == Extend(v[..rv], t)[rv];
    assert u.Lit? ==> v[rv] == Extend(v[..rv], u)[rv];
  }

  lemma {:induction false} SamePrefix(v: seq<byte>, ts: seq<Token>, us: seq<Token>, n: nat)
    requires Sound(ts) && Sound(us) && Expand(ts) == Expand(us) == v && Greedy(v, ts) && Greedy(v, us) && n <= |ts| && n <= |us|
    ensures Sound(ts[..n]) && Sound(us[..n]) && Expand(ts[..n]) == Expand(us[..n])
    ensures forall k :: 0 <= k < n ==> Alike(ts[k], us[k])
    decreases n
  {
    hide Sound, Expand, GreedyToken, Extend, TokenOk;
    PrefixKept(ts, n);
    PrefixKept(us, n);
    if n == 0 {
      assert ts[..0] == us[..0];
    } else {
      var k := n - 1;
      SamePrefix(v, ts, us, k);
      SoundPrefix(ts, k);
      SoundPrefix(us, k);
      var h := Expand(ts[..k]);
      PrefixKept(ts, k);
      assert v[..|h|] == h;
      SameToken(v, |h|, ts[k], us[k]);
      SameWritten(v, h, ts[k], us[k]);
    }
  }

  lemma SameWritten(v: seq<byte>, h: seq<byte>, t: Token, u: Token)
    requires TokenOk(h, t) && TokenOk(h, u) && Extend(h, t) <= v && Extend(h, u) <= v && Alike(t, u)
    ensures Extend(h, t) == Extend(h, u)
  {
    hide CopyOn;
    assert |Extend(h, t)| == |Extend(h, u)|;
  }

  /** The text determines its greedy parse, but for the places that are copied from. */
  lemma SameParse(v: seq<byte>, ts: seq<Token>, us: seq<Token>)
    requires Sound(ts) && Sound(us) && Expand(ts) == Expand(us) == v && Greedy(v, ts) && Greedy(v, us)
    ensures |ts| == |us| && forall k :: 0 <= k < |ts| ==> Alike(ts[k], us[k])
  {
    hide Sound, Expand, Greedy;
    var n := if |ts| < |us| then |ts| else |us|;
    SamePrefix(v, ts, us, n);
    ExpandPrefix(ts, n);
    ExpandPrefix(us, n);
    assert ts[..|ts|] == ts && us[..|us|] == us;
  }

  // ----- where a match is missed -----

  /** At a blind place a match of F bytes is in the window. */
  lemma BlindPlace(v: seq<byte>, rv: nat)
    requires Blanks() <= v && Blind(v, rv)
    ensures var p := N - 2 * F + Lead(v); N - 2 * F <= p < rv <= p + N - F && Repeats(v, p, rv, F)
  {
    assert forall i :: 0 <= i < N - F ==> v[i] == Blanks()[i];
  }

  /** A token of the encoder is as long as any match in the window exactly if its place is not blind. */
  lemma MissedExactly(v: seq<byte>, rv: nat, t: Token)
    requires Blanks() <= v && GreedyToken(v, rv, t)
    ensures Longest(v, rv, Length(t)) <==> !Blind(v, rv)
  {
    hide Blind;
    if Blind(v, rv) { BlindPlace(v, rv); }
  }

  /** So a parse makes use of the longest match everywhere exactly if none of its tokens starts at the blind place. */
  lemma ParseMisses(v: seq<byte>, ts: seq<Token>)
    requires Blanks() <= v && Sound(ts) && Greedy(v, ts)
    ensures (forall k :: 0 <= k < |ts| ==> Sound(ts[..k]) && Longest(v, |Expand(ts[..k])|, Length(ts[k])))
      <==> (forall k :: 0 <= k < |ts| ==> Sound(ts[..k]) && !Blind(v, |Expand(ts[..k])|))
  {
    hide Sound, Expand, Longest, Blind, GreedyToken;
    forall k | 0 <= k < |ts|
      ensures Sound(ts[..k]) && (Longest(v, |Expand(ts[..k])|, Length(ts[k])) <==> !Blind(v, |Expand(ts[..k])|))
    { MissedExactly(v, |Expand(ts[..k])|, ts[k]); }
  }

  /** There is at most one blind place in a text: the first later run of F blanks. */
  lemma OneBlindPlace(v: seq<byte>, a: nat, b: nat)
    requires Blind(v, a) && Blind(v, b)
    ensures a == b
  {
  }

  // ----- a text with such a place -----

  /** Fifty-nine blanks, other bytes until the oldest blank has left the index, and sixty blanks again. */
  function BlindText(): (x: seq<byte>)
    ensures |x| == 2020 && forall i :: 0 <= i < |x| ==> x[i] == if i < 59 || i >= 1960 then 32 else if i == 1959 then 89 else 65
  {
    seq(2020, i requires 0 <= i < 2020 => if i < 59 || i >= 1960 then 32 else if i == 1959 then 89 else 65)
  }

  const BLIND_PLACE := N - F + 1960

  lemma BlindTextBlind()
    ensures Blind(Blanks() + BlindText(), BLIND_PLACE)
  {
    var v := Blanks() + BlindText();
    assert forall i :: 0 <= i < 59 ==> v[N - F + i] == BlindText()[i];
    assert v[N - F + 59] == BlindText()[59] != 32;
    assert Lead(v) == 59;
    forall w: nat | N - F <= w < BLIND_PLACE ensures !BlankRun(v, w) {
      var i := if w < N - F + 59 then N - F + 59 else w;
      assert v[i] == BlindText()[i - (N - F)] != 32;
    }
  }

  /** A byte that is nowhere before it ends a token: only a literal can stand for it. */
  lemma {:induction false} NewByteEnds(ts: seq<Token>, j: nat) returns (k: nat)
    requires Sound(ts) && N - F <= j < |Expand(ts)| && forall i :: 0 <= i < j ==> Expand(ts)[i] != Expand(ts)[j]
    ensures k <= |ts| && Sound(ts[..k]) && |Expand(ts[..k])| == j + 1
  {
    var us, t := ts[..|ts| - 1], ts[|ts| - 1];
    if j < |Expand(us)| {
      k := NewByteEnds(us, j);
      assert us[..k] == ts[..k];
    } else {
      if t.Copy? { CopyByte(Expand(us), t.len, t.pos, j); }
      k := |ts|;
      assert ts[..k] == ts;
    }
  }

  /** However the encoder parses that text, a token starts at the blind place and misses a match in the window. */
  lemma MissesMatch(ts: seq<Token>) returns (k: nat)
    requires Sound(ts) && Expand(ts) == Blanks() + BlindText() && Greedy(Blanks() + BlindText(), ts)
    ensures k < |ts| && Sound(ts[..k]) && !Longest(Expand(ts), |Expand(ts[..k])|, Length(ts[k]))
  {
    hide Sound, Expand, Longest, Blind;
    var v := Blanks() + BlindText();
    BlindTextBlind();
    var j := BLIND_PLACE - 1;
    assert v[j] == BlindText()[1959] == 89;
    assert forall i :: 0 <= i < N - F ==> v[i] == 32;
    assert forall i :: N - F <= i < j ==> v[i] == BlindText()[i - (N - F)] != 89;
    k := NewByteEnds(ts, j);
    assert ts[..|ts|] == ts;
    MissedExactly(v, |Expand(ts[..k])|, ts[k]);
  }
}
