/**
  The adaptive Huffman tree of the LZHUF codec, on values.

  A node is a position 0..R of the tables `freq` and `son`.  `son[i]` is either the even
  position of the left child (the right child sits beside it) or T plus a symbol.  `prnt`
  is the inverse, for positions and, above T, for symbols.  `freq[T]` is a sentinel.
 */
module HuffTree {

  const N_CHAR := 314
  const T := 627
  const R := 626
  const MAX_FREQ := 0x8000
  const SENTINEL := 0xffff

  datatype Tree = Tree(freq: seq<int>, son: seq<int>, prnt: seq<int>)

  predicate Sized(t: Tree) {
    |t.freq| == T + 1 && |t.son| == T && |t.prnt| == T + N_CHAR
  }

  predicate IsSymbol(c: int) { 0 <= c < N_CHAR }

  ghost predicate Sorted(f: seq<int>) {
    forall i, j :: 0 <= i <= j < |f| ==> f[i] <= f[j]
  }

  ghost predicate Positive(f: seq<int>) {
    forall i :: 0 <= i < |f| ==> 1 <= f[i]
  }

  /** A leaf names a symbol that points back; an internal node has an even left child below it,
      both children point back, and its count is their sum,
      or one less than that at the lagging node `c`. */
  ghost predicate NodeOk(t: Tree, i: int, c: int)
    requires Sized(t) && 0 <= i < T
  {
    var s := t.son[i];
    if s >= T then s < T + N_CHAR && t.prnt[s] == i
    else
      && 0 <= s && s % 2 == 0 && s + 1 < i
      && t.prnt[s] == i && t.prnt[s + 1] == i
      && t.freq[s] + t.freq[s + 1] == t.freq[i] + (if i == c then 1 else 0)
  }

  /** Every position but the root, and every symbol, is the child its parent says it is. */
  ghost predicate LinkOk(t: Tree, k: int)
    requires Sized(t) && 0 <= k < T + N_CHAR
  {
    && 0 <= t.prnt[k] < T
    && t.son[t.prnt[k]] == (if k < T then k - k % 2 else k)
  }

  /** The invariant with one node `c` whose count lags behind its children by one. */
  ghost predicate InvAt(t: Tree, c: int) {
    && Sized(t)
    && Sorted(t.freq)
    && Positive(t.freq)
    && t.freq[T] == SENTINEL
    && (forall i :: 0 <= i < T ==> NodeOk(t, i, c))
    && (forall k :: 0 <= k < T + N_CHAR && k != R ==> LinkOk(t, k))
    && t.prnt[R] == 0
  }

  ghost predicate Shape(t: Tree) { InvAt(t, -1) }

  lemma ParentAbove(t: Tree, c: int, k: int)
    requires InvAt(t, c) && 0 <= k < R
    ensures k < t.prnt[k] <= R
  {
    assert LinkOk(t, k);
    assert NodeOk(t, t.prnt[k], c);
  }

  // ----- update -----

  /** First position from `m` on whose count is at least `k`. */
  function Scan(f: seq<int>, m: int, k: int): (r: int)
    requires 0 <= m < |f| && k <= f[|f| - 1]
    ensures m <= r < |f| && k <= f[r]
    ensures forall i :: m <= i < r ==> f[i] < k
    decreases |f| - m
  {
    if f[m] < k then Scan(f, m + 1, k) else m
  }

  /** Children of position `i` get `p` as their parent. */
  function Reparent(prnt: seq<int>, s: int, p: int): (r: seq<int>)
    requires |prnt| == T + N_CHAR && 0 <= s < T + N_CHAR
    ensures |r| == |prnt|
  {
    var q := prnt[s := p];
    if s < T then q[s + 1 := p] else q
  }

  predicate Bumpable(t: Tree, c: int) {
    && Sized(t) && 0 <= c < T && t.freq[c] < t.freq[T]
    && forall i :: 0 <= i < T ==> 0 <= t.son[i] < T + N_CHAR
  }

  /** Where node `c` ends up when its count grows by one: the last position with a smaller count. */
  function Target(t: Tree, c: int): (l: int)
    requires Bumpable(t, c)
    ensures c <= l < T
  {
    Scan(t.freq, c + 1, t.freq[c] + 1) - 1
  }

  /** One round of the climb: count node `c` once more and exchange it with its target. */
  function Bump(t: Tree, c: int): (r: Tree)
    requires Bumpable(t, c)
    ensures Sized(r)
  {
    var k := t.freq[c] + 1;
    var l := Target(t, c);
    if l == c then t.(freq := t.freq[c := k])
    else
      var i := t.son[c];
      var j := t.son[l];
      Tree(t.freq[c := t.freq[l]][l := k],
           t.son[l := i][c := j],
           Reparent(Reparent(t.prnt, i, l), j, c))
  }

  /** The exchanged node carries the old count of `c`, so it is neither an ancestor nor a descendant. */
  lemma TargetFacts(t: Tree, c: int)
    requires InvAt(t, c) && 0 <= c <= R && t.freq[R] < SENTINEL
    ensures Bumpable(t, c)
    ensures var l := Target(t, c);
      && (forall i :: c <= i <= l ==> t.freq[i] == t.freq[c])
      && (c < R ==> l < t.prnt[c] && l < t.prnt[l])
      && (c == R ==> l == R)
      && t.freq[c] + 1 <= t.freq[l + 1]
  {
    forall i | 0 <= i < T ensures 0 <= t.son[i] < T + N_CHAR {
      assert NodeOk(t, i, c);
    }
    var l := Target(t, c);
    if c < R {
      ParentAbove(t, c, c);
      var p := t.prnt[c];
      assert LinkOk(t, c) && NodeOk(t, p, c);
      if l < R { ParentAbove(t, c, l); }
    }
  }

  lemma BumpLinks(t: Tree, c: int)
    requires InvAt(t, c) && 0 <= c < R && t.freq[R] < SENTINEL
    requires Bumpable(t, c) && Target(t, c) != c
    ensures var t' := Bump(t, c); var l := Target(t, c);
      forall k :: 0 <= k < T + N_CHAR ==>
        t'.prnt[k] == (if t.prnt[k] == c && k != R then l else if t.prnt[k] == l && k != R then c else t.prnt[k])
  {
    TargetFacts(t, c);
    var l := Target(t, c);
    assert NodeOk(t, c, c) && NodeOk(t, l, c);
    forall k | 0 <= k < T + N_CHAR && k != R
      ensures t.prnt[k] == c ==> k == t.son[c] || (t.son[c] < T && k == t.son[c] + 1)
      ensures t.prnt[k] == l ==> k == t.son[l] || (t.son[l] < T && k == t.son[l] + 1)
    {
      assert LinkOk(t, k);
    }
  }

  lemma BumpSorted(t: Tree, c: int)
    requires InvAt(t, c) && 0 <= c <= R && t.freq[R] < SENTINEL
    ensures Bumpable(t, c)
    ensures var f := Bump(t, c).freq; Sorted(f) && Positive(f) && f[T] == SENTINEL
  {
    TargetFacts(t, c);
    var l := Target(t, c);
    assert Bump(t, c).freq == t.freq[l := t.freq[c] + 1];
  }

  lemma BumpNodeOk(t: Tree, c: int, i: int)
    requires InvAt(t, c) && 0 <= c < R && t.freq[R] < SENTINEL && 0 <= i < T
    ensures Bumpable(t, c)
    ensures NodeOk(Bump(t, c), i, t.prnt[Target(t, c)])
  {
    hide Sorted, Positive;
    TargetFacts(t, c);
    var l := Target(t, c);
    assert LinkOk(t, l);
    if l == c {
      assert NodeOk(t, i, c);
    } else {
      BumpedNode(t, c, i);
    }
  }

  /** The two nodes that change places take their children with them; the others keep theirs. */
  lemma BumpedNode(t: Tree, c: int, i: int)
    requires InvAt(t, c) && 0 <= c < R && t.freq[R] < SENTINEL && Bumpable(t, c) && 0 <= i < T && c < Target(t, c) < R
    requires var l := Target(t, c); l < t.prnt[c] && l < t.prnt[l] && LinkOk(t, l) && forall k :: c <= k <= l ==> t.freq[k] == t.freq[c]
    ensures NodeOk(Bump(t, c), i, t.prnt[Target(t, c)])
  {
    hide Sorted, Target;
    var l := Target(t, c);
    BumpLinks(t, c);
    assert Bump(t, c).freq == t.freq[l := t.freq[c] + 1];
    assert NodeOk(t, c, c) && NodeOk(t, l, c) && NodeOk(t, i, c);
  }

  lemma BumpLinkOk(t: Tree, c: int, k: int)
    requires InvAt(t, c) && 0 <= c < R && t.freq[R] < SENTINEL
    requires 0 <= k < T + N_CHAR && k != R
    ensures Bumpable(t, c) && LinkOk(Bump(t, c), k)
  {
    TargetFacts(t, c);
    if Target(t, c) != c { BumpLinks(t, c); }
    assert LinkOk(t, k);
  }

  /** One round keeps the invariant and hands the lag on to the parent. */
  lemma BumpKeeps(t: Tree, c: int)
    requires InvAt(t, c) && 0 <= c <= R && t.freq[R] < SENTINEL
    ensures Bumpable(t, c)
    ensures var t' := Bump(t, c); var l := Target(t, c);
      InvAt(t', if c == R then -1 else t'.prnt[l])
  {
    BumpSorted(t, c);
    TargetFacts(t, c);
    var t', l := Bump(t, c), Target(t, c);
    if c < R {
      forall i | 0 <= i < T ensures NodeOk(t', i, t.prnt[l]) { BumpNodeOk(t, c, i); }
      forall k | 0 <= k < T + N_CHAR && k != R ensures LinkOk(t', k) { BumpLinkOk(t, c, k); }
      if l != c { BumpLinks(t, c); }
    } else {
      assert NodeOk(t, R, c);
      forall i | 0 <= i < T ensures NodeOk(t', i, -1) { assert NodeOk(t, i, c); }
      forall k | 0 <= k < T + N_CHAR && k != R ensures LinkOk(t', k) { assert LinkOk(t, k); }
    }
  }

  /** The climb from node `c` to the root. */
  ghost function Climb(t: Tree, c: int): (r: Tree)
    requires InvAt(t, c) && 0 <= c <= R && t.freq[R] < SENTINEL
    ensures Shape(r)
    ensures r.freq[R] == t.freq[R] + 1
    decreases R - c
  {
    BumpKeeps(t, c);
    TargetFacts(t, c);
    var l := Target(t, c);
    var t' := Bump(t, c);
    if l == R then t'
    else
      ParentAbove(t', t'.prnt[l], l);
      Climb(t', t'.prnt[l])
  }

  // ----- what the counts mean -----

  /** How often symbol `s` has been counted. */
  function Weight(t: Tree, s: int): int
    requires Sized(t) && IsSymbol(s) && 0 <= t.prnt[s + T] < T
  {
    t.freq[t.prnt[s + T]]
  }

  /** A round at an internal node moves no symbol's count. */
  lemma BumpWeight(t: Tree, c: int, s: int)
    requires InvAt(t, c) && 0 <= c <= R && t.freq[R] < SENTINEL && IsSymbol(s)
    ensures Bumpable(t, c)
    ensures LinkOk(t, s + T) && LinkOk(Bump(t, c), s + T)
    ensures Weight(Bump(t, c), s) == Weight(t, s) + (if t.prnt[s + T] == c then 1 else 0)
  {
    assert LinkOk(t, s + T);
    BumpKeeps(t, c);
    TargetFacts(t, c);
    if c < R && Target(t, c) != c { BumpLinks(t, c); }
  }

  /** The climb from an internal node leaves every symbol's count alone. */
  lemma {:induction false} ClimbWeight(t: Tree, c: int, s: int)
    requires InvAt(t, c) && 0 <= c <= R && t.freq[R] < SENTINEL && IsSymbol(s)
    ensures LinkOk(t, s + T) && LinkOk(Climb(t, c), s + T)
    ensures Weight(Climb(t, c), s) == Weight(t, s) + (if t.prnt[s + T] == c then 1 else 0)
    decreases R - c
  {
    BumpKeeps(t, c);
    TargetFacts(t, c);
    BumpWeight(t, c, s);
    var t', l := Bump(t, c), Target(t, c);
    if l != R {
      ParentAbove(t', t'.prnt[l], l);
      var p := t'.prnt[l];
      assert LinkOk(t', l) && LinkOk(t', s + T);
      ClimbWeight(t', p, s);
    }
  }

  /** The counts of the leaves below position `n`, added up. */
  function LeafSum(f: seq<int>, son: seq<int>, n: nat): int
    requires n <= |f| && n <= |son|
  {
    if n == 0 then 0
    else LeafSum(f, son, n - 1) + (if son[n - 1] >= T then f[n - 1] else 0)
  }

  lemma {:induction false} LeafSumPoint(f: seq<int>, son: seq<int>, n: nat, k: nat, x: int, y: int)
    requires n <= |f| && n <= |son| && k < |f| && k < |son|
    ensures LeafSum(f[k := x], son[k := y], n) ==
      LeafSum(f, son, n)
      + (if k >= n then 0 else (if y >= T then x else 0) - (if son[k] >= T then f[k] else 0))
  {
    if n > 0 { LeafSumPoint(f, son, n - 1, k, x, y); }
  }

  lemma BumpLeafSum(t: Tree, c: int)
    requires InvAt(t, c) && 0 <= c <= R && t.freq[R] < SENTINEL
    ensures Bumpable(t, c)
    ensures var t' := Bump(t, c);
      LeafSum(t'.freq, t'.son, T) == LeafSum(t.freq, t.son, T) + (if t.son[c] >= T then 1 else 0)
  {
    TargetFacts(t, c);
    var l := Target(t, c);
    if l == c {
      LeafSumPoint(t.freq, t.son, T, c, t.freq[c] + 1, t.son[c]);
      assert t.son[c := t.son[c]] == t.son;
    } else {
      var f1, s1 := t.freq[c := t.freq[l]], t.son[c := t.son[l]];
      LeafSumPoint(t.freq, t.son, T, c, t.freq[l], t.son[l]);
      LeafSumPoint(f1, s1, T, l, t.freq[c] + 1, t.son[c]);
      assert Bump(t, c).son == s1[l := t.son[c]];
    }
  }

  /** The climb adds one to the leaves' total if it starts at a leaf. */
  lemma {:induction false} ClimbLeafSum(t: Tree, c: int)
    requires InvAt(t, c) && 0 <= c <= R && t.freq[R] < SENTINEL
    ensures var t' := Climb(t, c);
      LeafSum(t'.freq, t'.son, T) == LeafSum(t.freq, t.son, T) + (if t.son[c] >= T then 1 else 0)
    decreases R - c
  {
    BumpKeeps(t, c);
    BumpLeafSum(t, c);
    TargetFacts(t, c);
    var t', l := Bump(t, c), Target(t, c);
    if l != R {
      ParentAbove(t', t'.prnt[l], l);
      var p := t'.prnt[l];
      assert LinkOk(t', l);
      ClimbLeafSum(t', p);
    }
  }
}
