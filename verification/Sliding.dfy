/**
  The window as it slides over the text: what the text ring holds, which positions are in the
  index, and what a search of the index says about the text.
 */
module Sliding {
  import opened Bytes
  import opened Forest
  import opened ForestLinks
  import opened ForestOps
  import opened Window
  import opened Lzss

  // ----- the ring -----

  /** The ring, with its mirror, holds history `v` from N - F before `rv` to `len` behind it. */
  ghost predicate Holds(text: seq<byte>, v: seq<byte>, rv: nat, len: nat) {
    && |text| == TEXT_SIZE && N - F <= rv && rv + len <= |v| && len <= F
    && forall i :: rv - (N - F) <= i < rv + len ==> HoldsAt(text, v, i)
  }

  ghost predicate HoldsAt(text: seq<byte>, v: seq<byte>, i: nat)
    requires |text| == TEXT_SIZE && i < |v|
  {
    text[i % N] == v[i] && (i >= N && i % N < F - 1 ==> text[N + i % N] == v[i])
  }

  /** The ring after a byte has been put at `s`, and into the mirror when it is one of the first. */
  function Put(text: seq<byte>, s: int, c: byte): (r: seq<byte>)
    requires |text| == TEXT_SIZE && IsPos(s)
    ensures |r| == TEXT_SIZE
  {
    if s < F - 1 then text[s := c][s + N := c] else text[s := c]
  }

  lemma ModUnequal(i: nat, j: nat)
    requires i < j < i + N
    ensures i % N != j % N
  {
    assert j - i == N * (j / N - i / N) + (j % N - i % N);
  }

  lemma PutHolds(text: seq<byte>, v: seq<byte>, rv: nat, c: byte)
    requires Holds(text, v, rv, F) && rv + F < |v| && c == v[rv + F]
    ensures Holds(Put(text, (rv + F) % N, c), v, rv + 1, F)
  {
    var s, text' := (rv + F) % N, Put(text, (rv + F) % N, c);
    forall i | rv + 1 - (N - F) <= i < rv + 1 + F ensures HoldsAt(text', v, i) {
      if i < rv + F {
        ModUnequal(i, rv + F);
        assert HoldsAt(text, v, i);
      }
    }
  }

  lemma DropHolds(text: seq<byte>, v: seq<byte>, rv: nat, len: nat)
    requires Holds(text, v, rv, len) && len > 0
    ensures Holds(text, v, rv + 1, len - 1)
  {
  }

  /** The byte `i` places after history index `w` is where a key at `w` has it. */
  lemma KeyByte(text: seq<byte>, v: seq<byte>, rv: nat, len: nat, w: nat, i: nat)
    requires Holds(text, v, rv, len) && rv - (N - F) <= w && i < F && w + i < rv + len
    ensures Key(text, w % N)[i] == v[w + i]
  {
    assert HoldsAt(text, v, w + i);
    if w % N + i < N {
      assert (w + i) % N == w % N + i;
    } else {
      assert (w + i) % N == w % N + i - N;
    }
  }

  /** What the index reports as a match of `n` bytes is a repetition in the text. */
  lemma MatchRepeats(text: seq<byte>, v: seq<byte>, rv: nat, len: nat, p: nat, n: nat)
    requires Holds(text, v, rv, len) && rv - (N - F) <= p < rv
    requires n <= len && n <= Match(text, rv % N, p % N)
    ensures Repeats(v, p, rv, n)
  {
    forall j | rv <= j < rv + n ensures v[j] == v[j - (rv - p)] {
      KeyByte(text, v, rv, len, rv, j - rv);
      KeyByte(text, v, rv, len, p, j - rv);
    }
  }

  lemma RepeatsMatch(text: seq<byte>, v: seq<byte>, rv: nat, len: nat, p: nat, n: nat)
    requires Holds(text, v, rv, len) && rv - (N - F) <= p < rv
    requires n <= len && Repeats(v, p, rv, n)
    ensures n <= Match(text, rv % N, p % N)
  {
    forall i | 0 <= i < n ensures Key(text, rv % N)[i] == Key(text, p % N)[i] {
      KeyByte(text, v, rv, len, rv, i);
      KeyByte(text, v, rv, len, p, i);
      var j := rv + i;
      assert v[j] == v[j - (rv - p)];
    }
  }

  // ----- the positions in the index -----

  /** How far behind `r` position `x` is. */
  function Back(r: int, x: int): int { (r - x) % N }

  function Next(r: int): int { (r + 1) % N }

  lemma BackNext(r: int, x: int)
    requires IsPos(r) && IsPos(x)
    ensures Back(Next(r), x) == (if Back(r, x) == N - 1 then 0 else Back(r, x) + 1)
  {
  }

  /** All positions in the index are at most `k` behind `r`. */
  ghost predicate Live(ts: seq<BT>, r: int, k: int)
    requires |ts| == 256
  {
    forall c, x :: 0 <= c < 256 && x in Elements(ts[c]) ==> IsPos(x) && Back(r, x) <= k
  }

  /** Position `q` is in the index, or a position with the same key that is no further behind `r`. */
  ghost predicate Covered(text: seq<byte>, ts: seq<BT>, r: int, q: int)
    requires |text| == TEXT_SIZE && |ts| == 256 && IsPos(q)
  {
    exists x :: x in Elements(ts[text[q]]) && IsPos(x) && Key(text, x) == Key(text, q) && Back(r, x) <= Back(r, q)
  }

  /** Some position with the key of `q` is in the index. */
  ghost predicate Present(text: seq<byte>, ts: seq<BT>, q: int)
    requires |text| == TEXT_SIZE && |ts| == 256 && IsPos(q)
  {
    exists x :: x in Elements(ts[text[q]]) && IsPos(x) && Key(text, x) == Key(text, q)
  }

  ghost predicate Covers(text: seq<byte>, ts: seq<BT>, r: int, k: int)
    requires |text| == TEXT_SIZE && |ts| == 256
  {
    forall q :: IsPos(q) && Back(r, q) < k ==> Covered(text, ts, r, q)
  }

  /** The index over the ring: nothing older than `k`, and everything of the last `known` places covered. */
  ghost predicate Indexed(text: seq<byte>, a: Links, ts: seq<BT>, r: int, k: int, known: int) {
    match a case Links(_, _, _) =>
      ForestOk(text, a, ts) && IsPos(r) && 0 <= known <= k + 1 && Live(ts, r, k) && Covers(text, ts, r, known)
  }

  lemma FreshPosition(text: seq<byte>, a: Links, ts: seq<BT>, r: int, k: int, known: int)
    requires Indexed(text, a, ts, r, k, known) && k < N - 1
    ensures a.dad[Next(r)] == NIL
  {
    var r' := Next(r);
    BackNext(r, r');
    NodeTree(text, a, ts, r');
  }

  lemma InsertLive(text: seq<byte>, a: Links, ts: seq<BT>, r: int, k: int, known: int)
    requires Indexed(text, a, ts, r, k, known) && k < N - 1
    ensures var r' := Next(r); var c := text[r'];
      && (forall x :: x in Elements(ts[c]) ==> IsPos(x))
      && Live(ts[c := InsertT(text, ts[c], r')], r', k + 1)
  {
    hide InsertT, Bst, Rep;
    var r' := Next(r);
    var c := text[r'];
    assert TreeOk(text, a, ts[c], c);
    FreshPosition(text, a, ts, r, k, known);
    NodeTree(text, a, ts, r');
    InsertElements(text, ts[c], r', ROOT + c, true);
    forall x | IsPos(x) ensures Back(r, x) <= k ==> Back(r', x) <= k + 1 { BackNext(r, x); }
    assert Back(r', r') == 0;
  }

  /** What the trees gain and lose when the next place is put in. */
  lemma NextInserted(text: seq<byte>, a: Links, ts: seq<BT>, r: int, k: int, known: int)
    requires Indexed(text, a, ts, r, k, known) && k < N - 1
    ensures |text| == TEXT_SIZE && |ts| == 256 && IsPos(r)
    ensures var r' := Next(r); var c := text[r']; var t := ts[c];
      && (forall x :: x in Elements(t) ==> IsPos(x))
      && var t' := InsertT(text, t, r');
        r' in Elements(t') && forall y :: y in Elements(t) && y !in Elements(t') ==> IsPos(y) && Key(text, y) == Key(text, r')
  {
    hide InsertT, Bst, Rep, Descend, Live, Covers;
    var r' := Next(r);
    var c := text[r'];
    var t := ts[c];
    assert TreeOk(text, a, t, c);
    FreshPosition(text, a, ts, r, k, known);
    NodeTree(text, a, ts, r');
    InsertElements(text, t, r', ROOT + c, true);
    ReplaceInside(text, t, r', ROOT + c, true);
  }

  lemma InsertCovers(text: seq<byte>, a: Links, ts: seq<BT>, r: int, k: int, known: int, q: int)
    requires Indexed(text, a, ts, r, k, known) && k < N - 1
    requires IsPos(q) && Back(Next(r), q) <= known
    ensures var r' := Next(r); var c := text[r'];
      && (forall x :: x in Elements(ts[c]) ==> IsPos(x))
      && Covered(text, ts[c := InsertT(text, ts[c], r')], r', q)
  {
    hide InsertT, Elements, ForestOk, Live, Key;
    NextInserted(text, a, ts, r, k, known);
    var r' := Next(r);
    var c := text[r'];
    var ts' := ts[c := InsertT(text, ts[c], r')];
    BackNext(r, q);
    if Back(r', q) > 0 {
      assert Covered(text, ts, r, q);
      var x :| x in Elements(ts[text[q]]) && IsPos(x) && Key(text, x) == Key(text, q) && Back(r, x) <= Back(r, q);
      BackNext(r, x);
      NewerCovers(text, ts, ts', r', q, x);
    } else {
      SameBack(r', q, r');
    }
  }

  /** The node that covered `q` still does, or the newest place has replaced it and has its key. */
  lemma NewerCovers(text: seq<byte>, ts: seq<BT>, ts': seq<BT>, r: int, q: int, x: int)
    requires |text| == TEXT_SIZE && |ts| == |ts'| == 256 && IsPos(r) && IsPos(q) && IsPos(x)
    requires x in Elements(ts[text[q]]) && Key(text, x) == Key(text, q) && Back(r, x) <= Back(r, q)
    requires forall b :: 0 <= b < 256 && b != text[r] ==> ts'[b] == ts[b]
    requires r in Elements(ts'[text[r]])
    requires forall y :: y in Elements(ts[text[r]]) && y !in Elements(ts'[text[r]]) ==> IsPos(y) && Key(text, y) == Key(text, r)
    ensures Covered(text, ts', r, q)
  {
    hide Elements;
    if x !in Elements(ts'[text[q]]) {
      assert Key(text, r)[0] == Key(text, q)[0] && Back(r, r) == 0;
    }
  }

  lemma InsertIndexed(text: seq<byte>, a: Links, b: Links, ts: seq<BT>, r: int, k: int, known: int)
    requires Indexed(text, a, ts, r, k, known) && k < N - 1
    requires forall x :: x in Elements(ts[text[Next(r)]]) ==> IsPos(x)
    requires ForestOk(text, b, ts[text[Next(r)] := InsertT(text, ts[text[Next(r)]], Next(r))])
    ensures Indexed(text, b, ts[text[Next(r)] := InsertT(text, ts[text[Next(r)]], Next(r))], Next(r), k + 1, known + 1)
  {
    hide InsertT, Bst, Rep;
    InsertLive(text, a, ts, r, k, known);
    forall q | IsPos(q) && Back(Next(r), q) < known + 1
      ensures Covered(text, ts[text[Next(r)] := InsertT(text, ts[text[Next(r)]], Next(r))], Next(r), q)
    { InsertCovers(text, a, ts, r, k, known, q); }
  }

  /** What the trees lose when `s` is taken out. */
  lemma DeletedElements(text: seq<byte>, a: Links, ts: seq<BT>, r: int, s: int, k: int, known: int, ts': seq<BT>)
    requires Indexed(text, a, ts, r, k, known) && IsPos(s)
    requires ts' == if s in Elements(ts[text[s]]) then ts[text[s] := DeleteT(ts[text[s]], s)] else ts
    ensures |text| == TEXT_SIZE && |ts'| == |ts| == 256
    ensures forall c :: 0 <= c < 256 ==> Elements(ts'[c]) == Elements(ts[c]) - {s}
  {
    hide DeleteT, Bst, Rep;
    var b := text[s];
    assert TreeOk(text, a, ts[b], b);
    if s in Elements(ts[b]) { DeleteFacts(text, ts[b], s); }
    forall c | 0 <= c < 256 ensures Elements(ts'[c]) == Elements(ts[c]) - {s} {
      assert TreeOk(text, a, ts[c], c);
    }
  }

  lemma DeleteLive(ts: seq<BT>, ts': seq<BT>, r: int, s: int, k: int)
    requires |ts| == |ts'| == 256 && IsPos(r) && IsPos(s) && Back(r, s) == k && Live(ts, r, k)
    requires forall c :: 0 <= c < 256 ==> Elements(ts'[c]) == Elements(ts[c]) - {s}
    ensures Live(ts', r, k - 1)
  {
    hide Elements;
    forall c, x | 0 <= c < 256 && x in Elements(ts'[c]) ensures IsPos(x) && Back(r, x) <= k - 1 {
      assert x in Elements(ts[c]);
      if Back(r, x) == k { SameBack(r, x, s); }
    }
  }

  lemma StillCovered(text: seq<byte>, ts: seq<BT>, ts': seq<BT>, r: int, s: int, q: int)
    requires |text| == TEXT_SIZE && |ts| == |ts'| == 256 && IsPos(q) && Covered(text, ts, r, q) && Back(r, q) < Back(r, s)
    requires Elements(ts'[text[q]]) == Elements(ts[text[q]]) - {s}
    ensures Covered(text, ts', r, q)
  {
    hide Elements, Key, Back;
    var x :| x in Elements(ts[text[q]]) && IsPos(x) && Key(text, x) == Key(text, q) && Back(r, x) <= Back(r, q);
    assert x != s;
  }

  lemma DeleteCovers(text: seq<byte>, ts: seq<BT>, ts': seq<BT>, r: int, s: int, known: int)
    requires |text| == TEXT_SIZE && |ts| == |ts'| == 256 && Covers(text, ts, r, known) && known <= Back(r, s)
    requires forall c :: 0 <= c < 256 ==> Elements(ts'[c]) == Elements(ts[c]) - {s}
    ensures Covers(text, ts', r, known)
  {
    hide Elements, Key, Back, Covered;
    forall q | IsPos(q) && Back(r, q) < known ensures Covered(text, ts', r, q) {
      assert Covered(text, ts, r, q);
      StillCovered(text, ts, ts', r, s, q);
    }
  }

  lemma DeleteIndexed(text: seq<byte>, a: Links, b: Links, ts: seq<BT>, ts': seq<BT>, r: int, s: int, k: int, known: int)
    requires Indexed(text, a, ts, r, k, known) && k < N && IsPos(s) && Back(r, s) == k > 0
    requires ts' == if s in Elements(ts[text[s]]) then ts[text[s] := DeleteT(ts[text[s]], s)] else ts
    requires ForestOk(text, b, ts')
    ensures Indexed(text, b, ts', r, k - 1, if known > k then k else known)
  {
    hide DeleteT, ForestOk, Key, Elements, Live, Covered, Back;
    DeletedElements(text, a, ts, r, s, k, known, ts');
    DeleteLive(ts, ts', r, s, k);
    DeleteCovers(text, ts, ts', r, s, if known > k then k else known);
  }

  lemma SameBack(r: int, x: int, s: int)
    requires IsPos(r) && IsPos(x) && IsPos(s) && Back(r, x) == Back(r, s)
    ensures x == s
  {
  }

  // ----- what a search says -----

  /** A match of `n` bytes at distance `d`, longer than the threshold and the longest of the last `known` places. */
  ghost predicate Found(text: seq<byte>, r: int, n: int, d: int, known: int)
    requires |text| == TEXT_SIZE && IsPos(r)
  {
    && (n == 0 || (THRESHOLD < n <= F && 0 <= d < N - F && Match(text, r, (r - d - 1) % N) == n))
    && forall q :: IsPos(q) && 0 < Back(r, q) <= known ==> Match(text, r, q) <= n || Match(text, r, q) <= THRESHOLD
  }

  lemma {:induction false} BestBounds(text: seq<byte>, t: BT, r: int, len: int, pos: int)
    requires |text| == TEXT_SIZE && IsPos(r) && (len == 0 || THRESHOLD < len <= F) && forall x :: x in Elements(t) ==> IsPos(x)
    ensures var (n, d) := Search(text, t, r, len, pos); n == 0 || THRESHOLD < n <= F
    decreases t
  {
    if t.Node? {
      var (len1, pos1) := Better(Match(text, r, t.p), Distance(r, t.p), len, pos);
      if Match(text, r, t.p) < F { BestBounds(text, if Less(text, r, t.p) then t.l else t.r, r, len1, pos1); }
    }
  }

  lemma DistanceBack(r: int, x: int)
    requires IsPos(r) && IsPos(x) && x != r
    ensures (r - Distance(r, x) - 1) % N == x && Distance(r, x) == Back(r, x) - 1 >= 0
  {
  }

  /** The tree that will take the next position, and what is known of it. */
  lemma NextTree(text: seq<byte>, a: Links, ts: seq<BT>, r: int, k: int, known: int) returns (t: BT)
    requires Indexed(text, a, ts, r, k, known) && k < N - F
    ensures |text| == TEXT_SIZE && |ts| == 256 && IsPos(r)
    ensures t == ts[text[Next(r)]] && Bst(text, t) && Next(r) !in Elements(t)
    ensures forall x :: x in Elements(t) ==> IsPos(x) && Back(r, x) <= k
  {
    hide Bst, Rep;
    t := ts[text[Next(r)]];
    assert TreeOk(text, a, t, text[Next(r)]);
    FreshPosition(text, a, ts, r, k, known);
    NodeTree(text, a, ts, Next(r));
  }

  lemma SearchReaches(text: seq<byte>, t: BT, r: int, k: int, pos: int)
    requires |text| == TEXT_SIZE && IsPos(r) && k < N - F
    requires Next(r) !in Elements(t) && forall x :: x in Elements(t) ==> IsPos(x) && Back(r, x) <= k
    ensures var (n, d) := Search(text, t, Next(r), 0, pos);
      n == 0 || (THRESHOLD < n <= F && 0 <= d < N - F && Match(text, Next(r), (Next(r) - d - 1) % N) == n)
  {
    hide Search, Match;
    var r' := Next(r);
    SearchFinds(text, t, r', 0, pos);
    BestBounds(text, t, r', 0, pos);
    var (n, d) := Search(text, t, r', 0, pos);
    if n != 0 {
      var x :| x in Elements(t) && Match(text, r', x) == n && d == Distance(r', x);
      DistanceBack(r', x);
      BackNext(r, x);
    }
  }

  lemma SearchSuffices(text: seq<byte>, a: Links, ts: seq<BT>, r: int, k: int, known: int, pos: int, q: int)
    requires Indexed(text, a, ts, r, k, known) && k < N - F && IsPos(q) && Present(text, ts, q)
    ensures var r' := Next(r); var t := ts[text[r']];
      && (forall x :: x in Elements(t) ==> IsPos(x))
      && var (n, d) := Search(text, t, r', 0, pos); Match(text, r', q) <= n || Match(text, r', q) <= THRESHOLD
  {
    hide Bst, Rep, Search, BestOnPath;
    var r' := Next(r);
    var t := NextTree(text, a, ts, r, k, known);
    SearchFinds(text, t, r', 0, pos);
    var x :| x in Elements(ts[text[q]]) && IsPos(x) && Key(text, x) == Key(text, q);
    if text[q] == text[r'] { PathSuffices(text, t, r', x); } else { OtherByte(text, r', q); }
  }

  lemma OtherByte(text: seq<byte>, p: int, q: int)
    requires |text| == TEXT_SIZE && IsPos(p) && IsPos(q) && text[p] != text[q]
    ensures Match(text, p, q) == 0
  {
    assert Key(text, p)[0] != Key(text, q)[0];
  }

  /** A search over the index is as good as trying every place whose key is present. */
  lemma SearchFound(text: seq<byte>, a: Links, ts: seq<BT>, r: int, k: int, known: int, far: int, pos: int)
    requires Indexed(text, a, ts, r, k, known) && k < N - F
    requires forall q :: IsPos(q) && 0 < Back(Next(r), q) <= far ==> Present(text, ts, q)
    ensures var r' := Next(r); var t := ts[text[r']];
      && (forall x :: x in Elements(t) ==> IsPos(x))
      && var (n, d) := Search(text, t, r', 0, pos); Found(text, r', n, d, far)
  {
    hide Search, Bst, Match, Indexed, Present;
    var t := NextTree(text, a, ts, r, k, known);
    SearchReaches(text, t, r, k, pos);
    forall q | IsPos(q) && 0 < Back(Next(r), q) <= far
      ensures var (n, d) := Search(text, t, Next(r), 0, pos); Match(text, Next(r), q) <= n || Match(text, Next(r), q) <= THRESHOLD
    { SearchSuffices(text, a, ts, r, k, known, pos, q); }
  }

  /** What is covered is present, also seen from the next place. */
  lemma CoveredPresent(text: seq<byte>, ts: seq<BT>, r: int, known: int, q: int)
    requires |text| == TEXT_SIZE && |ts| == 256 && IsPos(r) && Covers(text, ts, r, known)
    requires IsPos(q) && 0 < Back(Next(r), q) <= known
    ensures Present(text, ts, q)
  {
    hide Elements, Key;
    BackNext(r, q);
    assert Covered(text, ts, r, q);
  }

  // ----- overwriting -----

  lemma PutKeepsKey(text: seq<byte>, s: int, c: byte, x: int)
    requires |text| == TEXT_SIZE && IsPos(s) && IsPos(x) && Back(s, x) >= F
    ensures Key(Put(text, s, c), x) == Key(text, x)
  {
    assert x > s || s >= x + F;
    assert x + F <= s + N;
  }

  lemma {:induction false} BstSameKeys(text: seq<byte>, text': seq<byte>, t: BT)
    requires |text| == |text'| == TEXT_SIZE && Bst(text, t)
    requires forall x :: x in Elements(t) && IsPos(x) ==> Key(text, x) == Key(text', x)
    ensures Bst(text', t)
    decreases t
  {
    if t.Node? {
      BstSameKeys(text, text', t.l);
      BstSameKeys(text, text', t.r);
    }
  }

  lemma PutTree(text: seq<byte>, a: Links, t: BT, k: int, s: int, c: byte)
    requires |text| == TEXT_SIZE && Sized(a) && 0 <= k < 256 && TreeOk(text, a, t, k) && IsPos(s)
    requires forall x :: x in Elements(t) && IsPos(x) ==> Back(s, x) >= F
    ensures TreeOk(Put(text, s, c), a, t, k)
  {
    hide Bst, Rep, Put, Elements;
    forall x | x in Elements(t) && IsPos(x)
      ensures Key(Put(text, s, c), x) == Key(text, x) && text[x] == Put(text, s, c)[x]
    {
      PutKeepsKey(text, s, c, x);
      assert Key(text, x)[0] == text[x] && Key(Put(text, s, c), x)[0] == Put(text, s, c)[x];
    }
    BstSameKeys(text, Put(text, s, c), t);
  }

  /** Overwriting the place just left by the index changes no key in it, nor of any place it covers. */
  lemma PutIndexed(text: seq<byte>, a: Links, ts: seq<BT>, r: int, k: int, known: int, s: int, c: byte)
    requires Indexed(text, a, ts, r, k, known) && k <= N - F - 1 && IsPos(s) && s == (r + F) % N
    ensures Indexed(Put(text, s, c), a, ts, r, k, known)
  {
    hide Bst, Rep, Put, Elements;
    var text' := Put(text, s, c);
    forall x | IsPos(x) && Back(r, x) <= k ensures Back(s, x) >= F && Key(text', x) == Key(text, x) && text'[x] == text[x] {
      SlotBehind(r, s, x);
      PutKeepsKey(text, s, c, x);
      assert Key(text, x)[0] == text[x] && Key(text', x)[0] == text'[x];
    }
    forall b | 0 <= b < 256 ensures TreeOk(text', a, ts[b], b) {
      assert TreeOk(text, a, ts[b], b);
      PutTree(text, a, ts[b], b, s, c);
    }
    forall p | IsPos(p) && a.dad[p] != NIL ensures p in Elements(ts[text'[p]]) {
      assert p in Elements(ts[text[p]]);
    }
    forall q | IsPos(q) && Back(r, q) < known ensures Covered(text', ts, r, q) {
      assert Covered(text, ts, r, q);
      var x :| x in Elements(ts[text[q]]) && IsPos(x) && Key(text, x) == Key(text, q) && Back(r, x) <= Back(r, q);
      assert x in Elements(ts[text'[q]]);
    }
  }

  lemma SlotBehind(r: int, s: int, x: int)
    requires IsPos(r) && IsPos(s) && IsPos(x) && s == (r + F) % N && Back(r, x) <= N - F - 1
    ensures Back(s, x) >= F
  {
  }

  // ----- the next token -----

  lemma BackIs(rv: nat, p: nat)
    requires p < rv <= p + N - F
    ensures Back(rv % N, p % N) == rv - p
    ensures (rv % N - (rv - p - 1) - 1) % N == p % N
  {
  }

  /** How many places back the index is known to cover the text. */
  function Reach(rv: nat): int { if rv - (N - F) < N - F then rv - (N - F) else N - F }
}
