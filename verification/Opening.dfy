/**
  The blanks in front of the text.  Their last F places are put into the index from the back, so
  that of several with the same key the oldest is kept, and that one leaves the window first.
 */
module Opening {
  import opened Bytes
  import opened Forest
  import opened ForestLinks
  import opened ForestOps
  import opened Window
  import opened Lzss
  import opened Sliding

  /** The ring as coding starts: blanks up to the first place of the text. */
  ghost predicate Primed(text: seq<byte>) {
    |text| == TEXT_SIZE && forall i :: 0 <= i < N - F ==> text[i] == 32
  }

  predicate BlankKey(text: seq<byte>, x: int)
    requires |text| == TEXT_SIZE && IsPos(x)
  {
    forall i :: 0 <= i < F ==> Key(text, x)[i] == 32
  }

  /** The first byte of the text is no blank, or all of its first key are blanks. */
  predicate CleanKey(text: seq<byte>)
    requires |text| == TEXT_SIZE
  {
    text[N - F] != 32 || BlankKey(text, N - F)
  }

  // ----- putting them in -----

  /** Place `q` is in the index, or an older one, from `lo` on, with the same key. */
  ghost predicate Older(text: seq<byte>, ts: seq<BT>, lo: int, q: int)
    requires |text| == TEXT_SIZE && |ts| == 256 && IsPos(q)
  {
    exists x :: x in Elements(ts[text[q]]) && IsPos(x) && lo <= x <= q && Key(text, x) == Key(text, q)
  }

  /** The places from `lo` up to `r` have been put in from the back, and no others. */
  ghost predicate Sown(text: seq<byte>, ts: seq<BT>, lo: int, r: int) {
    && |text| == TEXT_SIZE && |ts| == 256 && 0 <= lo <= r <= N
    && (forall c, x :: 0 <= c < 256 && x in Elements(ts[c]) ==> lo <= x < r)
    && (forall q :: lo <= q < r ==> Older(text, ts, lo, q))
  }

  lemma SowOne(text: seq<byte>, a: Links, ts: seq<BT>, p: int, r: int)
    requires ForestOk(text, a, ts) && 0 <= p < r && Sown(text, ts, p + 1, r)
    ensures |text| == TEXT_SIZE && (forall x :: x in Elements(ts[text[p]]) ==> IsPos(x)) && Forest.Sized(a) && a.dad[p] == NIL
    ensures Sown(text, ts[text[p] := InsertT(text, ts[text[p]], p)], p, r)
  {
    hide InsertT, Bst, Rep, Descend;
    var c := text[p];
    assert TreeOk(text, a, ts[c], c);
    NodeTree(text, a, ts, p);
    InsertElements(text, ts[c], p, ROOT + c, true);
    ReplaceInside(text, ts[c], p, ROOT + c, true);
    var ts' := ts[c := InsertT(text, ts[c], p)];
    forall q | p <= q < r ensures Older(text, ts', p, q) {
      if q == p {
        assert p in Elements(ts'[c]);
      } else {
        assert Older(text, ts, p + 1, q);
        var x :| x in Elements(ts[text[q]]) && IsPos(x) && p + 1 <= x <= q && Key(text, x) == Key(text, q);
        StaysOlder(text, ts, ts', p, q, x);
      }
    }
  }

  /** The node for `q` is still there, or `p` has replaced it and has its key. */
  lemma StaysOlder(text: seq<byte>, ts: seq<BT>, ts': seq<BT>, p: int, q: int, x: int)
    requires |text| == TEXT_SIZE && |ts| == |ts'| == 256 && IsPos(p) && IsPos(q) && p < x <= q
    requires x in Elements(ts[text[q]]) && Key(text, x) == Key(text, q)
    requires forall b :: 0 <= b < 256 && b != text[p] ==> ts'[b] == ts[b]
    requires p in Elements(ts'[text[p]])
    requires forall y :: y in Elements(ts[text[p]]) && y !in Elements(ts'[text[p]]) ==> IsPos(y) && Key(text, y) == Key(text, p)
    ensures Older(text, ts', p, q)
  {
    hide Elements;
    if x !in Elements(ts'[text[q]]) {
      assert Key(text, p)[0] == Key(text, q)[0];
    }
  }

  lemma SownIndexed(text: seq<byte>, a: Links, ts: seq<BT>)
    requires ForestOk(text, a, ts) && Sown(text, ts, N - 2 * F, N - F)
    ensures Indexed(text, a, ts, N - F - 1, N - F - 1, 0)
  {
    hide ForestOk;
  }

  lemma SownPresent(text: seq<byte>, ts: seq<BT>, q: int)
    requires Sown(text, ts, N - 2 * F, N - F) && IsPos(q) && 0 < Back(N - F, q) <= F
    ensures Present(text, ts, q)
  {
    hide Elements;
    assert Older(text, ts, N - 2 * F, q);
  }

  // ----- which of them are kept -----

  /** A tree holds no two positions of the same key. */
  lemma {:induction false} OneOfKey(text: seq<byte>, t: BT, x: int, y: int)
    requires |text| == TEXT_SIZE && Bst(text, t) && x in Elements(t) && y in Elements(t)
    requires IsPos(x) && IsPos(y) && Key(text, x) == Key(text, y)
    ensures x == y
    decreases t
  {
    var p := t.p;
    Trichotomy(Key(text, x), Key(text, p));
    Trichotomy(Key(text, x), Key(text, x));
    if x != p && y != p {
      if x in Elements(t.l) && y in Elements(t.l) { OneOfKey(text, t.l, x, y); }
      else if x in Elements(t.r) && y in Elements(t.r) { OneOfKey(text, t.r, x, y); }
    }
  }

  /** Keys that reach from blanks to the first other byte differ in where that byte is. */
  lemma KeysDiffer(text: seq<byte>, z: nat, p: int, q: int)
    requires |text| == TEXT_SIZE && z < TEXT_SIZE && (forall i :: 0 <= i < z ==> text[i] == 32) && text[z] != 32
    requires IsPos(p) && IsPos(q) && p < q <= z < q + F
    ensures Key(text, p) != Key(text, q)
  {
    assert Key(text, p)[z - q] == text[p + (z - q)] && Key(text, q)[z - q] == text[z];
  }

  lemma BlankKeys(text: seq<byte>, q: int)
    requires Primed(text) && BlankKey(text, N - F) && N - 2 * F <= q <= N - F
    ensures Key(text, q) == Key(text, N - F)
  {
    forall i | 0 <= i < F ensures Key(text, q)[i] == Key(text, N - F)[i] {
      if q + i >= N - F { assert Key(text, N - F)[q + i - (N - F)] == 32; }
    }
  }

  /** The oldest of the last blanks, and the next one if the text starts with a blank. */
  lemma OldestKeys(text: seq<byte>)
    requires Primed(text)
    ensures BlankKey(text, N - 2 * F) && (text[N - F] == 32 ==> BlankKey(text, N - 2 * F + 1))
  {
  }

  lemma SameBlanks(text: seq<byte>, p: int, q: int)
    requires |text| == TEXT_SIZE && IsPos(p) && IsPos(q) && BlankKey(text, p) && BlankKey(text, q)
    ensures Key(text, p) == Key(text, q) && text[p] == 32
  {
    assert text[p] == Key(text, p)[0];
  }

  /** The trees after the first place of the text has been put in too. */
  function WithFirst(text: seq<byte>, ts: seq<BT>): seq<BT>
    requires |text| == TEXT_SIZE && |ts| == 256 && forall x :: x in Elements(ts[text[N - F]]) ==> IsPos(x)
  {
    ts[text[N - F] := InsertT(text, ts[text[N - F]], N - F)]
  }

  /** What is in the index then: the first place, and what was there but for a node of its key. */
  lemma FirstElements(text: seq<byte>, a: Links, ts: seq<BT>)
    requires ForestOk(text, a, ts) && Sown(text, ts, N - 2 * F, N - F)
    ensures forall x :: x in Elements(ts[text[N - F]]) ==> IsPos(x)
    ensures var ts' := WithFirst(text, ts);
      && |ts'| == 256 && N - F in Elements(ts'[text[N - F]])
      && (forall c, x :: 0 <= c < 256 && x in Elements(ts'[c]) ==> x == N - F || x in Elements(ts[c]))
      && (forall c, x :: 0 <= c < 256 && x in Elements(ts[c]) ==> x in Elements(ts'[c]) || Key(text, x) == Key(text, N - F))
  {
    hide InsertT, Bst, Rep, Descend;
    var r := N - F;
    var c := text[r];
    assert TreeOk(text, a, ts[c], c);
    NodeTree(text, a, ts, r);
    InsertElements(text, ts[c], r, ROOT + c, true);
    ReplaceInside(text, ts[c], r, ROOT + c, true);
  }

  /** With a clean first key every one of the last F places is covered. */
  lemma CleanCovered(text: seq<byte>, a: Links, ts: seq<BT>, q: int)
    requires ForestOk(text, a, ts) && Sown(text, ts, N - 2 * F, N - F) && Primed(text) && CleanKey(text)
    requires N - 2 * F <= q < N - F
    ensures (forall x :: x in Elements(ts[text[N - F]]) ==> IsPos(x)) && Covered(text, WithFirst(text, ts), N - F, q)
  {
    hide InsertT, Elements, ForestOk, Key, BlankKey;
    var r := N - F;
    FirstElements(text, a, ts);
    var ts' := WithFirst(text, ts);
    assert Older(text, ts, N - 2 * F, q);
    var x :| x in Elements(ts[text[q]]) && IsPos(x) && N - 2 * F <= x <= q && Key(text, x) == Key(text, q);
    if text[r] != 32 {
      if x < q { KeysDiffer(text, N - F, x, q); }
      KeysDiffer(text, N - F, q, r);
    } else {
      BlankKeys(text, q);
      FirstOf(text, q, r);
    }
  }

  lemma FirstOf(text: seq<byte>, p: int, q: int)
    requires |text| == TEXT_SIZE && IsPos(p) && IsPos(q) && Key(text, p) == Key(text, q)
    ensures text[p] == text[q]
  {
    assert Key(text, p)[0] == text[p] && Key(text, q)[0] == text[q];
  }

  /** The only blank key in the index is the oldest place, unless the first key of the text is blank. */
  lemma OnlyOldest(text: seq<byte>, a: Links, ts: seq<BT>, c: int, x: int)
    requires ForestOk(text, a, ts) && Sown(text, ts, N - 2 * F, N - F) && Primed(text) && !BlankKey(text, N - F)
    requires forall x :: x in Elements(ts[text[N - F]]) ==> IsPos(x)
    requires 0 <= c < 256 && x in Elements(WithFirst(text, ts)[c]) && IsPos(x) && BlankKey(text, x)
    ensures x == N - 2 * F
  {
    hide InsertT, Elements, Rep, Key, BlankKey;
    var o := N - 2 * F;
    FirstElements(text, a, ts);
    OldestKeys(text);
    assert Older(text, ts, o, o);
    SameBlanks(text, x, o);
    SameBlanks(text, o, o);
    assert TreeOk(text, a, ts[c], c) && TreeOk(text, a, ts[32], 32);
    NodeTree(text, a, ts, x);
    OneOfKey(text, ts[32], x, o);
  }

  /** Right after the start every one of the last F places is covered exactly if the first key is clean. */
  lemma StartCovers(text: seq<byte>, a: Links, ts: seq<BT>)
    requires ForestOk(text, a, ts) && Sown(text, ts, N - 2 * F, N - F) && Primed(text)
    ensures forall x :: x in Elements(ts[text[N - F]]) ==> IsPos(x)
    ensures Covers(text, WithFirst(text, ts), N - F, F + 1) <==> CleanKey(text)
  {
    hide InsertT, Elements, ForestOk, Key, BlankKey, Covered;
    FirstElements(text, a, ts);
    if CleanKey(text) {
      var ts' := WithFirst(text, ts);
      forall q | IsPos(q) && Back(N - F, q) < F + 1 ensures Covered(text, ts', N - F, q) {
        if q == N - F { SelfCovered(text, ts', q); } else { CleanCovered(text, a, ts, q); }
      }
    } else {
      SecondOldest(text, a, ts);
      assert Back(N - F, N - 2 * F + 1) < F + 1;
    }
  }

  lemma SelfCovered(text: seq<byte>, ts: seq<BT>, q: int)
    requires |text| == TEXT_SIZE && |ts| == 256 && IsPos(q) && q in Elements(ts[text[q]])
    ensures Covered(text, ts, q, q)
  {
  }

  lemma SecondOldest(text: seq<byte>, a: Links, ts: seq<BT>)
    requires ForestOk(text, a, ts) && Sown(text, ts, N - 2 * F, N - F) && Primed(text) && !CleanKey(text)
    requires forall x :: x in Elements(ts[text[N - F]]) ==> IsPos(x)
    ensures !Covered(text, WithFirst(text, ts), N - F, N - 2 * F + 1)
  {
    hide InsertT, Elements, ForestOk, Key, BlankKey;
    var q, ts' := N - 2 * F + 1, WithFirst(text, ts);
    OldestKeys(text);
    if Covered(text, ts', N - F, q) {
      var x :| x in Elements(ts'[text[q]]) && IsPos(x) && Key(text, x) == Key(text, q) && Back(N - F, x) <= Back(N - F, q);
      BlankToo(text, q, x);
      OnlyOldest(text, a, ts, text[q], x);
    }
  }

  lemma BlankToo(text: seq<byte>, q: int, x: int)
    requires |text| == TEXT_SIZE && IsPos(x) && IsPos(q) && Key(text, x) == Key(text, q) && BlankKey(text, q)
    ensures BlankKey(text, x)
  {
  }

  /** The index over the ring as coding starts. */
  lemma FirstIndexed(text: seq<byte>, a: Links, b: Links, ts: seq<BT>)
    requires ForestOk(text, a, ts) && Sown(text, ts, N - 2 * F, N - F) && Primed(text)
    requires (forall x :: x in Elements(ts[text[N - F]]) ==> IsPos(x)) && ForestOk(text, b, WithFirst(text, ts))
    ensures Indexed(text, b, WithFirst(text, ts), N - F, N - F, if CleanKey(text) then F + 1 else 1)
  {
    hide InsertT, Elements, ForestOk, Key, BlankKey, Covered;
    FirstElements(text, a, ts);
    StartCovers(text, a, ts);
    var ts' := WithFirst(text, ts);
    SelfCovered(text, ts', N - F);
    forall q | IsPos(q) && Back(N - F, q) < 1 ensures Covered(text, ts', N - F, q) { SameBack(N - F, q, N - F); }
  }

  /** What the text says of the first key. */
  lemma StartClean(text: seq<byte>, v: seq<byte>, len: nat)
    requires Holds(text, v, N - F, len) && N - F + len <= |v| && (len < F ==> N - F + len == |v|)
    requires forall i :: 0 <= i < N - F ==> v[i] == 32
    ensures Primed(text) && forall i :: N - F <= i < N - F + len ==> text[i] == v[i]
    ensures Lead(v) == F ==> BlankKey(text, N - F)
    ensures N <= |v| && Interrupted(v, N - F) ==> !BlankKey(text, N - F)
  {
    forall i | 0 <= i < N - F ensures text[i] == 32 { assert HoldsAt(text, v, i); }
    var r := N - F;
    forall i | r <= i < r + len ensures text[i] == v[i] && Key(text, r)[i - r] == v[i] {
      assert HoldsAt(text, v, i);
      KeyByte(text, v, r, len, r, i - r);
    }
    if N <= |v| && Interrupted(v, N - F) {
      var i :| N - F <= i < N && v[i] != 32;
      assert Key(text, N - F)[i - (N - F)] == v[i];
    }
  }

  // ----- the blanks that stay covered -----

  /** Of the last F blanks from `lo` on, all that are not lost are covered. */
  ghost predicate Fronts(text: seq<byte>, ts: seq<BT>, v: seq<byte>, r: int, lo: int) {
    && |text| == TEXT_SIZE && |ts| == 256
    && forall q :: N - 2 * F <= q < N - F && lo <= q && !Lost(v, q) ==> Covered(text, ts, r, q)
  }

  /** A place whose node no other place replaces is covered at the start. */
  lemma OwnKeyCovered(text: seq<byte>, a: Links, ts: seq<BT>, q: int)
    requires ForestOk(text, a, ts) && Sown(text, ts, N - 2 * F, N - F) && N - 2 * F <= q < N - F
    requires forall p :: N - 2 * F <= p < q ==> Key(text, p) != Key(text, q)
    ensures (forall x :: x in Elements(ts[text[N - F]]) ==> IsPos(x)) && Covered(text, WithFirst(text, ts), N - F, q)
  {
    hide InsertT, Elements, ForestOk, Key;
    FirstElements(text, a, ts);
    assert Older(text, ts, N - 2 * F, q);
    var ts' := WithFirst(text, ts);
    if Key(text, q) == Key(text, N - F) { FirstOf(text, q, N - F); }
  }

  lemma FirstFront(text: seq<byte>, a: Links, ts: seq<BT>, v: seq<byte>, len: nat, q: int)
    requires ForestOk(text, a, ts) && Sown(text, ts, N - 2 * F, N - F) && Primed(text)
    requires 0 < len <= F && N - F + len <= |v| && (len < F ==> N - F + len == |v|)
    requires forall i :: N - F <= i < N - F + len ==> text[i] == v[i]
    requires Lead(v) == F ==> BlankKey(text, N - F)
    requires N - 2 * F <= q < N - F && !Lost(v, q)
    ensures (forall x :: x in Elements(ts[text[N - F]]) ==> IsPos(x)) && Covered(text, WithFirst(text, ts), N - F, q)
  {
    hide InsertT, Elements, ForestOk, Key, BlankKey, Covered;
    var b, r := Lead(v), N - F;
    if b == 0 || b == F {
      assert text[r] == v[r];
      CleanCovered(text, a, ts, q);
    } else {
      if q > N - 2 * F {
        assert forall i :: 0 <= i < r + b ==> text[i] == 32;
        assert text[r + b] == v[r + b] != 32;
        forall p | N - 2 * F <= p < q ensures Key(text, p) != Key(text, q) { KeysDiffer(text, r + b, p, q); }
      }
      OwnKeyCovered(text, a, ts, q);
    }
  }

  lemma FirstFronts(text: seq<byte>, a: Links, ts: seq<BT>, v: seq<byte>, len: nat)
    requires ForestOk(text, a, ts) && Sown(text, ts, N - 2 * F, N - F) && 0 < len
    requires Holds(text, v, N - F, len) && N - F + len <= |v| && (len < F ==> N - F + len == |v|)
    requires forall i :: 0 <= i < N - F ==> v[i] == 32
    requires forall x :: x in Elements(ts[text[N - F]]) ==> IsPos(x)
    ensures Fronts(text, WithFirst(text, ts), v, N - F, 0)
  {
    hide InsertT, Elements, ForestOk, BlankKey, Covered, Lost, Holds;
    LenBound(text, v, len);
    StartClean(text, v, len);
    var ts' := WithFirst(text, ts);
    forall q | N - 2 * F <= q < N - F && 0 <= q && !Lost(v, q) ensures Covered(text, ts', N - F, q) {
      FirstFront(text, a, ts, v, len, q);
    }
  }

  lemma LenBound(text: seq<byte>, v: seq<byte>, len: nat)
    requires Holds(text, v, N - F, len)
    ensures len <= F
  {
  }

  lemma DropFronts(text: seq<byte>, ts: seq<BT>, ts': seq<BT>, v: seq<byte>, rv: nat, s: int)
    requires Fronts(text, ts, v, rv % N, rv - (N - F)) && |ts'| == 256 && N - F <= rv && s == (rv + F) % N
    requires forall c :: 0 <= c < 256 ==> Elements(ts'[c]) == Elements(ts[c]) - {s}
    ensures Fronts(text, ts', v, rv % N, rv + 1 - (N - F))
  {
    hide Elements, Lost;
    forall q | N - 2 * F <= q < N - F && rv + 1 - (N - F) <= q && !Lost(v, q) ensures Covered(text, ts', rv % N, q) {
      FrontBack(rv, q);
      assert Back(rv % N, s) == N - F;
      StillCovered(text, ts, ts', rv % N, s, q);
    }
  }

  lemma FrontBack(rv: nat, q: int)
    requires N - 2 * F <= q < N - F <= rv <= q + N - F
    ensures Back(rv % N, q) == rv - q
  {
    BackIs(rv, q);
    assert q % N == q;
  }

  lemma PutFronts(text: seq<byte>, a: Links, ts: seq<BT>, v: seq<byte>, rv: nat, known: int, s: int, c: byte)
    requires Fronts(text, ts, v, rv % N, rv + 1 - (N - F)) && N - F <= rv && s == (rv + F) % N
    requires Indexed(text, a, ts, rv % N, N - F - 1, known)
    ensures Fronts(Put(text, s, c), ts, v, rv % N, rv + 1 - (N - F))
  {
    hide Elements, Lost, ForestOk, Covers, Put, Key;
    var text' := Put(text, s, c);
    forall q | N - 2 * F <= q < N - F && rv + 1 - (N - F) <= q && !Lost(v, q) ensures Covered(text', ts, rv % N, q) {
      FrontBack(rv, q);
      var x :| x in Elements(ts[text[q]]) && IsPos(x) && Key(text, x) == Key(text, q) && Back(rv % N, x) <= Back(rv % N, q);
      KeyStays(text, rv % N, s, c, q);
      KeyStays(text, rv % N, s, c, x);
    }
  }

  lemma KeyStays(text: seq<byte>, r: int, s: int, c: byte, x: int)
    requires |text| == TEXT_SIZE && IsPos(r) && IsPos(x) && s == (r + F) % N && Back(r, x) <= N - F - 1
    ensures Key(Put(text, s, c), x) == Key(text, x) && Put(text, s, c)[x] == text[x]
  {
    hide Put;
    SlotBehind(r, s, x);
    PutKeepsKey(text, s, c, x);
    assert Key(text, x)[0] == text[x] && Key(Put(text, s, c), x)[0] == Put(text, s, c)[x];
  }

  lemma InsertFronts(text: seq<byte>, a: Links, ts: seq<BT>, v: seq<byte>, rv: nat, known: int)
    requires Fronts(text, ts, v, rv % N, rv + 1 - (N - F)) && N - F <= rv
    requires Indexed(text, a, ts, rv % N, N - F - 1, known)
    ensures var r' := (rv + 1) % N;
      && (forall x :: x in Elements(ts[text[r']]) ==> IsPos(x))
      && Fronts(text, ts[text[r'] := InsertT(text, ts[text[r']], r')], v, r', rv + 1 - (N - F))
  {
    hide InsertT, Elements, Lost, ForestOk, Live, Covers, Key;
    var r := rv % N;
    NextInserted(text, a, ts, r, N - F - 1, known);
    var r' := (rv + 1) % N;
    assert Next(r) == r';
    var ts' := ts[text[r'] := InsertT(text, ts[text[r']], r')];
    forall q | N - 2 * F <= q < N - F && rv + 1 - (N - F) <= q && !Lost(v, q) ensures Covered(text, ts', r', q) {
      FrontBack(rv, q);
      var x :| x in Elements(ts[text[q]]) && IsPos(x) && Key(text, x) == Key(text, q) && Back(r, x) <= Back(r, q);
      BackNext(r, q);
      BackNext(r, x);
      NewerCovers(text, ts, ts', r', q, x);
    }
  }

  /** The match found is as long as any with the blanks that are not lost; at the start, with any of the last F blanks. */
  ghost predicate FrontsFound(text: seq<byte>, v: seq<byte>, rv: nat, n: int) {
    |text| == TEXT_SIZE && forall q :: N - 2 * F <= q < N - F && rv - (N - F) <= q && (rv == N - F || !Lost(v, q)) ==>
      Match(text, rv % N, q) <= n || Match(text, rv % N, q) <= THRESHOLD
  }

  lemma SearchFronts(text: seq<byte>, a: Links, ts: seq<BT>, v: seq<byte>, rv: nat, known: int, pos: int)
    requires Fronts(text, ts, v, rv % N, rv + 1 - (N - F)) && N - F <= rv
    requires Indexed(text, a, ts, rv % N, N - F - 1, known)
    ensures var r' := (rv + 1) % N; var t := ts[text[r']];
      && (forall x :: x in Elements(t) ==> IsPos(x))
      && FrontsFound(text, v, rv + 1, Search(text, t, r', 0, pos).0)
  {
    hide Search, Elements, Bst, Match, Indexed, Lost, Key;
    var r := rv % N;
    var t := NextTree(text, a, ts, r, N - F - 1, known);
    assert Next(r) == (rv + 1) % N;
    forall q | N - 2 * F <= q < N - F && rv + 1 - (N - F) <= q && !Lost(v, q)
      ensures Match(text, Next(r), q) <= Search(text, t, Next(r), 0, pos).0 || Match(text, Next(r), q) <= THRESHOLD
    {
      assert Covered(text, ts, r, q);
      assert Present(text, ts, q);
      SearchSuffices(text, a, ts, r, N - F - 1, known, pos, q);
    }
  }

  lemma FirstFrontsFound(text: seq<byte>, a: Links, ts: seq<BT>, v: seq<byte>, pos: int)
    requires ForestOk(text, a, ts) && Sown(text, ts, N - 2 * F, N - F)
    ensures var r := N - F; var t := ts[text[r]];
      && (forall x :: x in Elements(t) ==> IsPos(x))
      && FrontsFound(text, v, r, Search(text, t, r, 0, pos).0)
  {
    hide Search, Elements, Bst, Match, Indexed, Lost, Key, ForestOk, Sown;
    SownIndexed(text, a, ts);
    var t := NextTree(text, a, ts, N - F - 1, N - F - 1, 0);
    assert Next(N - F - 1) == N - F == (N - F) % N;
    SownSizes(text, ts);
    var r: nat, n := N - F, Search(text, t, N - F, 0, pos).0;
    forall q | N - 2 * F <= q < N - F && r - (N - F) <= q && (r == N - F || !Lost(v, q))
      ensures Match(text, r % N, q) <= n || Match(text, r % N, q) <= THRESHOLD
    {
      FrontBack(N - F, q);
      SownPresent(text, ts, q);
      SearchSuffices(text, a, ts, N - F - 1, N - F - 1, 0, pos, q);
    }
  }

  lemma SownSizes(text: seq<byte>, ts: seq<BT>)
    requires Sown(text, ts, N - 2 * F, N - F)
    ensures |text| == TEXT_SIZE && |ts| == 256
  {
  }

  // ----- a run of blanks later on -----

  /** While no later place up to `upto` has a blank key, the index holds no blank key but the oldest place, and none
      once that has left it. */
  ghost predicate Lonely(text: seq<byte>, ts: seq<BT>, v: seq<byte>, upto: nat, rv: nat) {
    && |text| == TEXT_SIZE && |ts| == 256
    && (Sparse(v, upto) ==>
         forall x :: x in Elements(ts[32]) && IsPos(x) && BlankKey(text, x) ==> rv <= 2 * N - 3 * F && x == N - 2 * F)
  }

  lemma FirstLonely(text: seq<byte>, a: Links, ts: seq<BT>, v: seq<byte>, len: nat)
    requires ForestOk(text, a, ts) && Sown(text, ts, N - 2 * F, N - F)
    requires Holds(text, v, N - F, len) && N - F + len <= |v| && (len < F ==> N - F + len == |v|)
    requires forall i :: 0 <= i < N - F ==> v[i] == 32
    requires forall x :: x in Elements(ts[text[N - F]]) ==> IsPos(x)
    ensures Lonely(text, WithFirst(text, ts), v, N - F, N - F)
  {
    hide InsertT, Elements, ForestOk, Key, BlankKey, Interrupted, Holds;
    StartClean(text, v, len);
    if Sparse(v, N - F) {
      assert Interrupted(v, N - F);
      forall x | x in Elements(WithFirst(text, ts)[32]) && IsPos(x) && BlankKey(text, x) ensures x == N - 2 * F {
        OnlyOldest(text, a, ts, 32, x);
      }
    }
  }

  lemma DropLonely(text: seq<byte>, ts: seq<BT>, ts': seq<BT>, v: seq<byte>, rv: nat, s: int)
    requires Lonely(text, ts, v, rv, rv) && |ts'| == 256 && Elements(ts'[32]) == Elements(ts[32]) - {s} && s == (rv + F) % N
    ensures Lonely(text, ts', v, rv, rv + 1)
  {
    hide Elements, BlankKey, Sparse;
    assert (2 * N - 2 * F) % N == N - 2 * F;
  }

  lemma PutLonely(text: seq<byte>, a: Links, ts: seq<BT>, v: seq<byte>, rv: nat, known: int, s: int, c: byte)
    requires Lonely(text, ts, v, rv, rv + 1) && Indexed(text, a, ts, rv % N, N - F - 1, known) && s == (rv + F) % N
    ensures Lonely(Put(text, s, c), ts, v, rv, rv + 1)
  {
    hide Elements, Sparse, ForestOk, Key, Put, Covers;
    forall x | x in Elements(ts[32]) && IsPos(x) ensures Key(Put(text, s, c), x) == Key(text, x) {
      SlotBehind(rv % N, s, x);
      PutKeepsKey(text, s, c, x);
    }
  }

  /** A place that is interrupted has no blank key. */
  lemma NotBlank(text: seq<byte>, v: seq<byte>, rv: nat, len: nat)
    requires Holds(text, v, rv, len) && (len < F ==> rv + len == |v|) && Interrupted(v, rv)
    ensures !BlankKey(text, rv % N)
  {
    var i :| rv <= i < rv + F && i < |v| && v[i] != 32;
    KeyByte(text, v, rv, len, rv, i - rv);
  }

  lemma InsertLonely(text: seq<byte>, a: Links, ts: seq<BT>, v: seq<byte>, rv: nat, known: int, len: nat)
    requires Lonely(text, ts, v, rv, rv + 1) && Indexed(text, a, ts, rv % N, N - F - 1, known)
    requires Holds(text, v, rv + 1, len) && (len < F ==> rv + 1 + len == |v|) && N - F <= rv
    ensures var r' := (rv + 1) % N;
      && (forall x :: x in Elements(ts[text[r']]) ==> IsPos(x))
      && Lonely(text, ts[text[r'] := InsertT(text, ts[text[r']], r')], v, rv + 1, rv + 1)
  {
    hide InsertT, Bst, Rep, Descend, Elements, BlankKey, Interrupted, Holds, Live, Covers;
    var r', c := (rv + 1) % N, text[(rv + 1) % N];
    assert TreeOk(text, a, ts[c], c);
    assert Next(rv % N) == r';
    FreshPosition(text, a, ts, rv % N, N - F - 1, known);
    NodeTree(text, a, ts, r');
    InsertElements(text, ts[c], r', ROOT + c, true);
    if Sparse(v, rv + 1) {
      assert Sparse(v, rv) && Interrupted(v, rv + 1);
      NotBlank(text, v, rv + 1, len);
    }
  }

  lemma BlindSparse(v: seq<byte>, rv: nat)
    requires Blind(v, rv)
    ensures rv > 2 * N - 3 * F && Sparse(v, rv - 1) && BlankRun(v, rv)
  {
    forall w: nat | N - F <= w <= rv - 1 ensures Interrupted(v, w) { assert !BlankRun(v, w); }
  }

  /** So a search for the first later run of blanks, once the oldest blank has left, finds fewer than F bytes. */
  lemma SearchBlind(text: seq<byte>, a: Links, ts: seq<BT>, v: seq<byte>, rv: nat, known: int, len: nat, pos: int)
    requires Lonely(text, ts, v, rv, rv + 1) && Indexed(text, a, ts, rv % N, N - F - 1, known)
    requires Holds(text, v, rv + 1, len) && (len < F ==> rv + 1 + len == |v|)
    ensures var r' := (rv + 1) % N; var t := ts[text[r']];
      && (forall x :: x in Elements(t) ==> IsPos(x))
      && (Blind(v, rv + 1) ==> Search(text, t, r', 0, pos).0 < F)
  {
    hide Bst, Rep, Elements, Interrupted, Live, Covers, Search, BestOnPath, Holds, Sparse, Blind, BlankRun;
    var r', c := (rv + 1) % N, text[(rv + 1) % N];
    assert TreeOk(text, a, ts[c], c);
    NodeTree(text, a, ts, r');
    SearchFinds(text, ts[c], r', 0, pos);
    BestBounds(text, ts[c], r', 0, pos);
    var n := Search(text, ts[c], r', 0, pos).0;
    if Blind(v, rv + 1) && n >= F {
      BlindSparse(v, rv + 1);
      RunKey(text, v, rv + 1, len);
      var x :| x in Elements(ts[c]) && Match(text, r', x) == n;
      Trichotomy(Key(text, r'), Key(text, x));
      BlankToo(text, r', x);
    }
  }

  lemma RunKey(text: seq<byte>, v: seq<byte>, rv: nat, len: nat)
    requires Holds(text, v, rv, len) && (len < F ==> rv + len == |v|) && BlankRun(v, rv)
    ensures BlankKey(text, rv % N) && text[rv % N] == 32
  {
    forall i | 0 <= i < F ensures Key(text, rv % N)[i] == 32 { KeyByte(text, v, rv, len, rv, i); }
    assert text[rv % N] == Key(text, rv % N)[0];
  }

  // ----- the next token -----

  /** What a text repeats from a lost place is a run of blanks, which another place that is present has too; but not so
      at a blind place, where it has one byte less. */
  lemma LostElsewhere(v: seq<byte>, p: nat, rv: nat, m: nat) returns (q: nat)
    requires Blanks() <= v && Lost(v, p) && N - F < rv <= p + N - F && m <= F && Repeats(v, p, rv, m) && !(m == F && Blind(v, rv))
    ensures N - 2 * F <= q < rv <= q + N - F && (q >= N - F || !Lost(v, q)) && Repeats(v, q, rv, m)
  {
    var b := Lead(v);
    assert forall i :: 0 <= i < N - F ==> v[i] == Blanks()[i];
    assert N - F + b != |v| ==> forall j :: rv <= j < rv + m ==> v[j] == 32 by {
      if N - F + b != |v| { forall j | rv <= j < rv + m ensures v[j] == 32 { assert v[j] == v[j - (rv - p)]; } }
    }
    if N - F + b == |v| {
      q := rv - 1;
    } else if m < F {
      q := N - 2 * F + b + 1;
    } else if rv <= 2 * N - 3 * F {
      q := N - 2 * F;
    } else {
      assert BlankRun(v, rv);
      var w: nat :| N - F <= w < rv && BlankRun(v, w);
      q := w;
    }
  }

  lemma FoundLongest(text: seq<byte>, v: seq<byte>, rv: nat, len: nat, n: nat, d: int)
    requires Blanks() <= v && Holds(text, v, rv, len) && len == (if |v| - rv < F then |v| - rv else F)
    requires Found(text, rv % N, n, d, Reach(rv)) && FrontsFound(text, v, rv, n) && (Blind(v, rv) ==> n < F)
    ensures var m := if n < len then n else len; if Blind(v, rv) then m == F - 1 else Longest(v, rv, m)
  {
    hide Match, Blind, Lost, Holds, Repeats, Lead;
    RvBound(text, v, rv, len);
    forall p: nat, m: nat | N - 2 * F <= p < rv <= p + N - F && m <= F && Repeats(v, p, rv, m) && !(m == F && Blind(v, rv))
      ensures m <= (if n < len then n else len) || m <= THRESHOLD
    {
      if p < N - F && rv > N - F && Lost(v, p) {
        var q := LostElsewhere(v, p, rv, m);
        PlaceFound(text, v, rv, len, n, d, q, m);
      } else {
        PlaceFound(text, v, rv, len, n, d, p, m);
      }
    }
    if Blind(v, rv) { BlindRest(v, rv, len); }
  }

  lemma RvBound(text: seq<byte>, v: seq<byte>, rv: nat, len: nat)
    requires Holds(text, v, rv, len)
    ensures N - F <= rv
  {
  }

  /** What repeats from a place that is present has been found. */
  lemma PlaceFound(text: seq<byte>, v: seq<byte>, rv: nat, len: nat, n: nat, d: int, p: nat, m: nat)
    requires Holds(text, v, rv, len) && len == (if |v| - rv < F then |v| - rv else F)
    requires Found(text, rv % N, n, d, Reach(rv)) && FrontsFound(text, v, rv, n)
    requires N - 2 * F <= p < rv <= p + N - F && m <= F && Repeats(v, p, rv, m)
    requires p >= N - F || rv == N - F || !Lost(v, p)
    ensures m <= (if n < len then n else len) || m <= THRESHOLD
  {
    hide Match, Lost, Holds;
    RvBound(text, v, rv, len);
    RepeatsMatch(text, v, rv, len, p, m);
    BackIs(rv, p);
    if p < N - F { assert p % N == p; }
  }

  /** At a blind place the byte after the lost blanks ends the next match one byte earlier. */
  lemma BlindRest(v: seq<byte>, rv: nat, len: nat)
    requires Blanks() <= v && Blind(v, rv) && len == (if |v| - rv < F then |v| - rv else F)
    ensures len == F
    ensures var p := N - 2 * F + Lead(v) + 1; N - 2 * F <= p < rv <= p + N - F && Repeats(v, p, rv, F - 1)
  {
    assert forall i :: 0 <= i < N - F ==> v[i] == Blanks()[i];
  }

  /** The token the encoder chooses writes the next bytes of the text, as many as any match could. */
  lemma TokenWrites(text: seq<byte>, v: seq<byte>, rv: nat, len: nat, n: nat, d: int)
    requires Blanks() <= v && Holds(text, v, rv, len) && 0 < len == (if |v| - rv < F then |v| - rv else F)
    requires Found(text, rv % N, n, d, Reach(rv)) && FrontsFound(text, v, rv, n) && (Blind(v, rv) ==> n < F)
    ensures var m := if n < len then n else len;
      if m <= THRESHOLD then text[rv % N] == v[rv] && GreedyToken(v, rv, Lit(v[rv])) && Extend(v[..rv], Lit(v[rv])) == v[..rv + 1]
      else d >= 0 && TokenOk(v[..rv], Copy(m, d)) && GreedyToken(v, rv, Copy(m, d)) && Extend(v[..rv], Copy(m, d)) == v[..rv + m]
  {
    hide Match, Blind, FrontsFound;
    FoundLongest(text, v, rv, len, n, d);
    var m := if n < len then n else len;
    assert HoldsAt(text, v, rv);
    if m > THRESHOLD {
      var p := rv - d - 1;
      BackIs(rv, p);
      MatchRepeats(text, v, rv, len, p, m);
      CopyReproduces(v, rv, m, d);
    }
  }
}
