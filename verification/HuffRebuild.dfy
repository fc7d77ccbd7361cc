/**
  Rebuilding the Huffman tree when the root's count reaches MAX_FREQ: the leaves are collected
  in order with their counts halved, then pairs are joined and inserted by count.
 */
module HuffRebuild {
  import opened HuffTree

  // ----- collecting the leaves -----

  function LeafFreqs(f: seq<int>, son: seq<int>, n: nat): (r: seq<int>)
    requires n <= |f| && n <= |son|
    ensures |r| <= n
  {
    if n == 0 then []
    else LeafFreqs(f, son, n - 1) + (if son[n - 1] >= T then [(f[n - 1] + 1) / 2] else [])
  }

  function LeafSons(son: seq<int>, n: nat): (r: seq<int>)
    requires n <= |son|
    ensures |r| <= n
    ensures forall v :: v in r ==> v >= T && v in son[..n]
  {
    if n == 0 then []
    else LeafSons(son, n - 1) + (if son[n - 1] >= T then [son[n - 1]] else [])
  }

  ghost predicate Distinct(s: seq<int>) {
    forall a, b :: 0 <= a < b < |s| ==> s[a] != s[b]
  }

  ghost function Range(lo: int, n: nat): (r: set<int>)
    ensures |r| == n
    ensures forall v :: v in r <==> lo <= v < lo + n
  {
    if n == 0 then {} else Range(lo, n - 1) + {lo + n - 1}
  }

  lemma {:induction false} SeqToSet(s: seq<int>)
    requires Distinct(s)
    ensures |set v | v in s| == |s|
  {
    if |s| > 0 {
      var r := s[..|s| - 1];
      SeqToSet(r);
      assert (set v | v in s) == (set v | v in r) + {s[|s| - 1]};
    }
  }

  /** Distinct numbers that fill a range are as many as the range is long. */
  lemma DistinctSize(s: seq<int>, lo: int, n: nat)
    requires Distinct(s)
    requires forall v :: v in s <==> lo <= v < lo + n
    ensures |s| == n
  {
    SeqToSet(s);
    assert (set v | v in s) == Range(lo, n);
  }

  function Half(x: int): (h: int)
    ensures x <= 2 * h <= x + 1
  {
    (x + 1) / 2
  }

  /** Counts are halved, in the old order, and each symbol keeps its own. */
  ghost predicate CollectedOk(t: Tree, f: seq<int>, s: seq<int>, n: nat) {
    match t case Tree(freq, _, prnt) =>
      && Sized(t) && |f| == |s|
      && (forall m :: 0 <= m < |s| ==> T <= s[m] < T + N_CHAR && 0 <= prnt[s[m]] < n && prnt[s[m]] < T && f[m] == Half(freq[prnt[s[m]]]))
      && (forall a, b :: 0 <= a < b < |s| ==> prnt[s[a]] < prnt[s[b]])
      && (forall v :: T <= v < T + N_CHAR && LinkOk(t, v) && prnt[v] < n ==> v in s)
  }

  /** One more leaf is collected. */
  lemma CollectedLeaf(t: Tree, f: seq<int>, s: seq<int>, n: nat)
    requires Shape(t) && n < T && CollectedOk(t, f, s, n) && t.son[n] >= T
    ensures CollectedOk(t, f + [Half(t.freq[n])], s + [t.son[n]], n + 1)
  {
    assert NodeOk(t, n, -1);
    var s' := s + [t.son[n]];
    forall v | T <= v < T + N_CHAR && LinkOk(t, v) && t.prnt[v] < n + 1 ensures v in s' {
      if t.prnt[v] == n { assert s'[|s|] == v; }
    }
  }

  lemma NotCollected(t: Tree, f: seq<int>, s: seq<int>, n: nat)
    requires Shape(t) && n < T && CollectedOk(t, f, s, n) && t.son[n] < T
    ensures CollectedOk(t, f, s, n + 1)
  {
  }

  /** The collected pairs are those of the leaves. */
  lemma {:induction false} Collected(t: Tree, n: nat)
    requires Shape(t) && n <= T
    ensures CollectedOk(t, LeafFreqs(t.freq, t.son, n), LeafSons(t.son, n), n)
  {
    hide CollectedOk, Shape;
    assert Sized(t) by { ShapeSized(t); }
    if n == 0 {
      NoneCollected(t);
    } else {
      Collected(t, n - 1);
      var f, s := LeafFreqs(t.freq, t.son, n - 1), LeafSons(t.son, n - 1);
      assert f + [] == f && s + [] == s;
      if t.son[n - 1] >= T { CollectedLeaf(t, f, s, n - 1); } else { NotCollected(t, f, s, n - 1); }
    }
  }

  lemma ShapeSized(t: Tree)
    requires Shape(t)
    ensures Sized(t)
  {
  }

  lemma NoneCollected(t: Tree)
    requires Shape(t)
    ensures CollectedOk(t, [], [], 0)
  {
  }

  /** Exactly the N_CHAR leaves are collected, in order, each with half its count, rounded up. */
  lemma CollectedAll(t: Tree)
    requires Shape(t)
    ensures var f, s := LeafFreqs(t.freq, t.son, T), LeafSons(t.son, T);
      && |f| == |s| == N_CHAR
      && Distinct(s)
      && (forall v :: v in s <==> T <= v < T + N_CHAR)
      && Sorted(f) && Positive(f)
      && (forall m :: 0 <= m < N_CHAR ==> T <= s[m] < T + N_CHAR && LinkOk(t, s[m]) && f[m] == Half(Weight(t, s[m] - T)))
      && (forall m :: 0 <= m < N_CHAR ==> LinkOk(t, s[m]) && Weight(t, s[m] - T) <= 2 * f[m] <= Weight(t, s[m] - T) + 1)
      && (forall a, b :: 0 <= a < b < N_CHAR ==> t.prnt[s[a]] < t.prnt[s[b]])
  {
    hide LeafFreqs, LeafSons;
    Collected(t, T);
    var f, s := LeafFreqs(t.freq, t.son, T), LeafSons(t.son, T);
    forall v | T <= v < T + N_CHAR ensures v in s { assert LinkOk(t, v); }
    forall m | 0 <= m < |s| ensures LinkOk(t, s[m]) && f[m] == Half(Weight(t, s[m] - T)) {
      assert LinkOk(t, s[m]);
    }
    DistinctSize(s, T, N_CHAR);
  }

  // ----- joining pairs -----

  /** Scanning down from position `n`, the place just above the last count not greater than `x`. */
  function Place(f: seq<int>, n: nat, x: int): (k: nat)
    requires n <= |f|
    ensures k <= n
    ensures forall m :: k <= m < n ==> x < f[m]
    ensures k > 0 ==> f[k - 1] <= x
  {
    if n > 0 && x < f[n - 1] then Place(f, n - 1, x) else n
  }

  function Insert(s: seq<int>, k: nat, x: int): (r: seq<int>)
    requires k <= |s|
    ensures |r| == |s| + 1
    ensures forall m :: 0 <= m <= |s| ==> r[m] == (if m < k then s[m] else if m == k then x else s[m - 1])
  {
    seq(|s| + 1, m requires 0 <= m <= |s| => if m < k then s[m] else if m == k then x else s[m - 1])
  }

  function NextPair(j: int): int { 2 * (j - N_CHAR) }

  /** The tables while pairs are being joined: as many nodes as have been made so far. */
  datatype Rows = Rows(freq: seq<int>, son: seq<int>)

  predicate Sizes(b: Rows) { |b.freq| == |b.son| && N_CHAR <= |b.son| <= T }

  /** The state of the joining loop: `W` gives each symbol's count. */
  ghost predicate BuildInv(b: Rows, W: seq<int>) {
    match b case Rows(f, s) =>
      && |W| == N_CHAR && Sizes(b)
      && Sorted(f) && Positive(f)
      && Keys(s)
      && Built(f, s, W)
  }

  /** Every symbol and every even position below the next pair occurs once. */
  ghost predicate Keys(s: seq<int>) {
    && Distinct(s)
    && (forall v :: T <= v < T + N_CHAR ==> v in s)
    && (forall v :: 0 <= v < NextPair(|s|) && v % 2 == 0 ==> v in s)
  }

  ghost predicate Built(f: seq<int>, s: seq<int>, W: seq<int>)
    requires |W| == N_CHAR && |f| == |s|
  {
    forall m :: 0 <= m < |s| ==> BuiltOk(f, s, W, m)
  }

  ghost predicate BuiltOk(f: seq<int>, s: seq<int>, W: seq<int>, m: int)
    requires |W| == N_CHAR && |f| == |s| && 0 <= m < |s|
  {
    if s[m] >= T then s[m] < T + N_CHAR && f[m] == W[s[m] - T]
    else
      && 0 <= s[m] < NextPair(|s|) && s[m] % 2 == 0 && s[m] + 1 < m
      && f[m] == f[s[m]] + f[s[m] + 1]
  }

  lemma InsertMembers(s: seq<int>, k: nat, x: int)
    requires k <= |s|
    ensures forall v :: v in Insert(s, k, x) <==> v == x || v in s
  {
    var r := Insert(s, k, x);
    assert r[k] == x;
    forall v | v in s ensures v in r {
      var m :| 0 <= m < |s| && s[m] == v;
      assert r[if m < k then m else m + 1] == v;
    }
  }

  lemma InsertSorted(f: seq<int>, x: int)
    requires Sorted(f)
    ensures Sorted(Insert(f, Place(f, |f|, x), x))
  {
    var k := Place(f, |f|, x);
    forall a, b | 0 <= a <= b <= |f| ensures Insert(f, k, x)[a] <= Insert(f, k, x)[b] {
    }
  }

  function JoinSum(b: Rows): int
    requires Sizes(b) && |b.son| < T
  {
    var i := NextPair(|b.son|);
    b.freq[i] + b.freq[i + 1]
  }

  function JoinPlace(b: Rows): (k: nat)
    requires Sizes(b) && |b.son| < T
    ensures k <= |b.freq|
  {
    Place(b.freq, |b.freq|, JoinSum(b))
  }

  /** Join the next pair: its parent goes above every node whose count is not greater. */
  function Join(b: Rows): (r: Rows)
    requires Sizes(b) && |b.son| < T
    ensures Sizes(r) && |r.son| == |b.son| + 1
  {
    Rows(Insert(b.freq, JoinPlace(b), JoinSum(b)), Insert(b.son, JoinPlace(b), NextPair(|b.son|)))
  }

  /** The parent of the next pair goes above the pair. */
  lemma JoinAbove(b: Rows, W: seq<int>)
    requires BuildInv(b, W) && |b.son| < T
    ensures NextPair(|b.son|) + 2 <= JoinPlace(b)
    ensures NextPair(|b.son|) !in b.son
  {
    forall m | 0 <= m < |b.son| ensures b.son[m] != NextPair(|b.son|) { assert BuiltOk(b.freq, b.son, W, m); }
  }

  lemma JoinBuiltOk(f: seq<int>, s: seq<int>, W: seq<int>, k: nat, m: int)
    requires |W| == N_CHAR && |f| == |s| && N_CHAR <= |s| < T && 0 <= m <= |s|
    requires NextPair(|s|) + 2 <= k <= |s|
    requires m < k ==> BuiltOk(f, s, W, m)
    requires m > k ==> BuiltOk(f, s, W, m - 1)
    ensures var i := NextPair(|s|);
      BuiltOk(Insert(f, k, f[i] + f[i + 1]), Insert(s, k, i), W, m)
  {
  }

  lemma JoinBuilt(f: seq<int>, s: seq<int>, W: seq<int>, k: nat)
    requires |W| == N_CHAR && |f| == |s| && N_CHAR <= |s| < T
    requires Built(f, s, W)
    requires NextPair(|s|) + 2 <= k <= |s|
    ensures var i := NextPair(|s|); Built(Insert(f, k, f[i] + f[i + 1]), Insert(s, k, i), W)
  {
    var i := NextPair(|s|);
    var f', s' := Insert(f, k, f[i] + f[i + 1]), Insert(s, k, i);
    forall m | 0 <= m < |s'| ensures BuiltOk(f', s', W, m) {
      if m < k { assert BuiltOk(f, s, W, m); } else if m > k { assert BuiltOk(f, s, W, m - 1); }
      JoinBuiltOk(f, s, W, k, m);
    }
  }

  lemma JoinKeys(s: seq<int>, k: nat)
    requires N_CHAR <= |s| && Keys(s) && NextPair(|s|) !in s && k <= |s|
    ensures Keys(Insert(s, k, NextPair(|s|)))
  {
    InsertMembers(s, k, NextPair(|s|));
  }

  /** Joining the next pair keeps the loop's state. */
  lemma JoinKeeps(b: Rows, W: seq<int>)
    requires BuildInv(b, W) && |b.son| < T
    ensures BuildInv(Join(b), W)
  {
    JoinAbove(b, W);
    JoinBuilt(b.freq, b.son, W, JoinPlace(b));
    JoinKeys(b.son, JoinPlace(b));
    InsertSorted(b.freq, JoinSum(b));
  }

  /** The joining loop, up to the full table. */
  ghost function Build(b: Rows): (r: Rows)
    requires Sizes(b)
    ensures Sizes(r) && |r.son| == T
    decreases T - |b.son|
  {
    if |b.son| == T then b else Build(Join(b))
  }

  // ----- the totals -----

  function TailSum(f: seq<int>, n: nat): int
    requires n <= |f|
    decreases |f| - n
  {
    if n == |f| then 0 else f[n] + TailSum(f, n + 1)
  }

  lemma {:induction false} TailSumInsert(f: seq<int>, k: nat, x: int, n: nat)
    requires k <= |f| && n <= |f| + 1
    ensures TailSum(Insert(f, k, x), n) == (if n <= k then TailSum(f, n) + x else TailSum(f, n - 1))
    decreases |f| + 1 - n
  {
    if n <= |f| { TailSumInsert(f, k, x, n + 1); }
  }

  lemma {:induction false} LeafSumInsert(f: seq<int>, s: seq<int>, k: nat, x: int, i: int, n: nat)
    requires |f| == |s| && k <= |f| && n <= |f| + 1 && i < T
    ensures LeafSum(Insert(f, k, x), Insert(s, k, i), n) == LeafSum(f, s, if n <= k then n else n - 1)
  {
    if n > 0 { LeafSumInsert(f, s, k, x, i, n - 1); }
  }

  /** The total of the nodes that have no parent yet. */
  function Loose(b: Rows): int
    requires Sizes(b)
  {
    TailSum(b.freq, NextPair(|b.son|))
  }

  function Leaves(b: Rows): int
    requires Sizes(b)
  {
    LeafSum(b.freq, b.son, |b.son|)
  }

  lemma JoinTotals(b: Rows)
    requires Sizes(b) && |b.son| < T
    requires NextPair(|b.son|) + 2 <= JoinPlace(b)
    ensures Loose(Join(b)) == Loose(b) && Leaves(Join(b)) == Leaves(b)
  {
    var i := NextPair(|b.son|);
    TailSumInsert(b.freq, JoinPlace(b), JoinSum(b), i + 2);
    assert TailSum(b.freq, i) == b.freq[i] + (b.freq[i + 1] + TailSum(b.freq, i + 2));
    LeafSumInsert(b.freq, b.son, JoinPlace(b), JoinSum(b), i, |b.son| + 1);
  }

  /** The whole loop keeps its state, the total without a parent and the leaves' total. */
  lemma {:induction false} BuildKeeps(b: Rows, W: seq<int>)
    requires BuildInv(b, W)
    ensures BuildInv(Build(b), W)
    ensures Sizes(b) && Loose(Build(b)) == Loose(b) && Leaves(Build(b)) == Leaves(b)
    decreases T - |b.son|
  {
    if |b.son| < T {
      JoinAbove(b, W);
      JoinKeeps(b, W);
      JoinTotals(b);
      BuildKeeps(Join(b), W);
    }
  }

  lemma {:induction false} TailSumLast(f: seq<int>, x: int, n: nat)
    requires n <= |f|
    ensures TailSum(f + [x], n) == TailSum(f, n) + x
    decreases |f| - n
  {
    if n < |f| { TailSumLast(f, x, n + 1); }
    else { assert TailSum(f + [x], n + 1) == 0; }
  }

  lemma {:induction false} LeafSumPrefix(f: seq<int>, s: seq<int>, g: seq<int>, r: seq<int>, n: nat)
    requires n <= |f| && n <= |s|
    ensures LeafSum(f + g, s + r, n) == LeafSum(f, s, n)
  {
    if n > 0 { LeafSumPrefix(f, s, g, r, n - 1); }
  }

  /** The halved counts add up to about half of the old total. */
  lemma {:induction false} CollectedTotals(f: seq<int>, son: seq<int>, n: nat)
    requires n <= |f| && n <= |son|
    ensures var g, s := LeafFreqs(f, son, n), LeafSons(son, n);
      && |g| == |s|
      && TailSum(g, 0) == LeafSum(g, s, |s|)
      && LeafSum(f, son, n) <= 2 * TailSum(g, 0) <= LeafSum(f, son, n) + |s|
  {
    if n > 0 {
      CollectedTotals(f, son, n - 1);
      var g, s := LeafFreqs(f, son, n - 1), LeafSons(son, n - 1);
      if son[n - 1] >= T {
        TailSumLast(g, (f[n - 1] + 1) / 2, 0);
        LeafSumPrefix(g, s, [(f[n - 1] + 1) / 2], [son[n - 1]], |s|);
      } else {
        assert LeafFreqs(f, son, n) == g && LeafSons(son, n) == s;
      }
    }
  }

  // ----- connecting the parents -----

  /** The parent pointers after the first `n` nodes have been connected. */
  function Connect(s: seq<int>, prnt: seq<int>, n: nat): (r: seq<int>)
    requires n <= |s| && |prnt| == T + N_CHAR && forall m :: 0 <= m < |s| ==> 0 <= s[m] < T + N_CHAR
    ensures |r| == |prnt|
  {
    if n == 0 then prnt else Reparent(Connect(s, prnt, n - 1), s[n - 1], n - 1)
  }

  lemma {:induction false} Connected(s: seq<int>, prnt: seq<int>, n: nat, m: nat)
    requires m < n <= |s| && |prnt| == T + N_CHAR && Distinct(s)
    requires forall m :: 0 <= m < |s| ==> 0 <= s[m] < T + N_CHAR && (s[m] < T ==> s[m] % 2 == 0 && s[m] < R)
    ensures Connect(s, prnt, n)[s[m]] == m
    ensures s[m] < T ==> Connect(s, prnt, n)[s[m] + 1] == m
  {
    if m < n - 1 { Connected(s, prnt, n - 1, m); }
  }

  lemma {:induction false} RootUnconnected(s: seq<int>, prnt: seq<int>, n: nat)
    requires n <= |s| && |prnt| == T + N_CHAR
    requires forall m :: 0 <= m < |s| ==> 0 <= s[m] < T + N_CHAR && (s[m] < T ==> s[m] % 2 == 0 && s[m] < R)
    ensures Connect(s, prnt, n)[R] == prnt[R]
  {
    if n > 0 { RootUnconnected(s, prnt, n - 1); }
  }
}
