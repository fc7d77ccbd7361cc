/**
  How deep the Huffman tree gets: counts with which the code word of some literal has a set bit
  behind its sixteenth.  Nine symbols are coded so often that each lies above all lighter ones.
 */
module Depths {
  import opened HuffTree
  import opened HuffRebuild
  import opened Huffman
  import opened Forest
  import opened Lzss
  import opened Stream

  // ----- below a node -----

  /** Position `k` is `x` or below it. */
  ghost predicate Under(t: Tree, k: int, x: int)
    requires Shape(t) && 0 <= k <= R
    decreases R - k
  {
    k == x || (k < R && (ParentAbove(t, -1, k); Under(t, t.prnt[k], x)))
  }

  /** Where the leaf of a symbol is. */
  ghost function LeafOf(t: Tree, s: int): (k: int)
    requires Shape(t) && IsSymbol(s)
    ensures 0 <= k <= R && t.son[k] == s + T
  {
    assert LinkOk(t, s + T);
    t.prnt[s + T]
  }

  lemma {:induction false} UnderRoot(t: Tree, k: int)
    requires Shape(t) && 0 <= k <= R
    ensures Under(t, k, R)
    decreases R - k
  {
    if k < R {
      ParentAbove(t, -1, k);
      UnderRoot(t, t.prnt[k]);
    }
  }

  lemma PathOfRoot(t: Tree, x: int)
    requires Shape(t) && 0 <= x <= R && |Path(t, x)| > 0
    ensures x < R
  {
  }

  /** What is below a node is not after it, not heavier, and its path goes through it. */
  lemma {:induction false} UnderFacts(t: Tree, k: int, x: int)
    requires Shape(t) && 0 <= k <= R && 0 <= x <= R && Under(t, k, x)
    ensures k <= x && t.freq[k] <= t.freq[x] && Path(t, x) <= Path(t, k)
    decreases R - k
  {
    if k != x {
      ParentAbove(t, -1, k);
      UnderFacts(t, t.prnt[k], x);
    }
  }

  /** What is below a node, but not the node, is below one of its children. */
  lemma {:induction false} UnderChild(t: Tree, k: int, x: int)
    requires Shape(t) && 0 <= k <= R && 0 <= x <= R && Under(t, k, x) && k != x
    ensures 0 <= t.son[x] < T && (Under(t, k, t.son[x]) || Under(t, k, t.son[x] + 1))
    decreases R - k
  {
    ParentAbove(t, -1, k);
    assert LinkOk(t, k) && NodeOk(t, x, -1);
    if t.prnt[k] != x { UnderChild(t, t.prnt[k], x); }
  }

  /** The children of a node: side by side, below it, and together as heavy as it. */
  lemma Children(t: Tree, x: int)
    requires Shape(t) && 0 <= x <= R && t.son[x] < T
    ensures var a := t.son[x];
      && 0 <= a && a % 2 == 0 && a + 1 < x && t.prnt[a] == x && t.prnt[a + 1] == x
      && t.freq[a] <= t.freq[a + 1] && t.freq[a] + t.freq[a + 1] == t.freq[x]
      && Path(t, a) == Path(t, x) + [false] && Path(t, a + 1) == Path(t, x) + [true]
  {
    assert NodeOk(t, x, -1);
  }

  // ----- a skewed count -----

  const HEAVY := 9

  /** The counts of the nine heavy symbols; of the others 24 count two, and 281 count one. */
  const G: seq<int> := [329, 330, 659, 989, 1648, 2637, 4285, 6923, 13348]

  /** The sum of the light symbols and the first `k` heavy ones. */
  const S: seq<int> := [329, 658, 988, 1647, 2636, 4284, 6921, 11206, 18129, 31477]

  /** The heavy symbols: the first eight literals, and the longest copy. */
  function Heavy(k: int): (s: int)
    requires 0 <= k < HEAVY
    ensures IsSymbol(s)
  {
    if k < 8 then k else 255 - THRESHOLD + F
  }

  predicate Light(s: int) { 8 <= s < 255 - THRESHOLD + F }

  function CountOf(s: int): int
    requires IsSymbol(s)
  {
    if s < 8 then G[s] else if !Light(s) then G[8] else if 100 <= s < 124 then 2 else 1
  }

  /** The heaviest symbol lighter than heavy symbol `k`, or at least one of those that are lighter. */
  function Lighter(k: int): (s: int)
    requires 0 <= k < HEAVY
    ensures IsSymbol(s)
  {
    if k == 0 then 8 else Heavy(k - 1)
  }

  lemma Growth(k: int)
    requires 0 <= k < HEAVY
    ensures CountOf(Heavy(k)) == G[k] && CountOf(Lighter(k)) < G[k]
    ensures S[k + 1] == S[k] + G[k] && S[k] < 2 * G[k]
    ensures 2 * G[k] + CountOf(Lighter(k)) > S[k + 1]
  {
  }

  ghost predicate Skewed(t: Tree) {
    Shape(t) && t.freq[R] == S[HEAVY] && forall s :: 0 <= s < N_CHAR ==> t.freq[LeafOf(t, s)] == CountOf(s)
  }

  /** A leaf further down than the children of `x` is before both, and so no heavier than either. */
  lemma FurtherDown(t: Tree, x: int, p: int, c: int)
    requires Shape(t) && 0 <= x <= R && 0 <= p <= R && 0 <= t.son[x] < T && t.son[p] >= T
    requires (c == t.son[x] || c == t.son[x] + 1) && Under(t, p, c) && p != c
    ensures p < t.prnt[p] <= c && p < t.son[x] && t.freq[t.prnt[p]] <= t.freq[c]
    ensures t.freq[p] <= t.freq[t.son[x]] && t.freq[p] <= t.freq[t.son[x] + 1]
  {
    Children(t, x);
    UnderFacts(t, p, c);
    ParentAbove(t, -1, p);
    UnderFacts(t, t.prnt[p], c);
  }

  /** The leaf of the next lighter symbol is not between two siblings, so the sibling is no lighter than it. */
  lemma SiblingWeight(t: Tree, k: int, p: int)
    requires Skewed(t) && 0 <= k < HEAVY && p == LeafOf(t, Heavy(k)) < R
    ensures p < t.prnt[p] <= R && t.freq[t.prnt[p]] >= G[k] + CountOf(Lighter(k))
  {
    Growth(k);
    ParentAbove(t, -1, p);
    assert LinkOk(t, p);
    Children(t, t.prnt[p]);
    assert t.freq[LeafOf(t, Lighter(k))] == CountOf(Lighter(k)) && t.freq[p] == G[k];
  }

  /** Below a node of the weight of the light symbols and the first heavy ones, the heaviest of these is a child. */
  lemma HeaviestIsChild(t: Tree, x: int, k: int, c: int)
    requires Skewed(t) && 0 <= k < HEAVY && 0 <= x <= R && t.freq[x] == S[k + 1] && 0 <= t.son[x] < T
    requires (c == t.son[x] || c == t.son[x] + 1) && Under(t, LeafOf(t, Heavy(k)), c)
    ensures LeafOf(t, Heavy(k)) == c
  {
    hide Under;
    var p := LeafOf(t, Heavy(k));
    Growth(k);
    Children(t, x);
    assert t.freq[p] == CountOf(Heavy(k));
    if p != c {
      FurtherDown(t, x, p, c);
      SiblingWeight(t, k, p);
    }
  }

  /** A light symbol, or one of the first `k` heavy ones. */
  predicate Among(s: int, k: int) {
    Light(s) || exists j :: 0 <= j < k && j < HEAVY && s == Heavy(j)
  }

  /** Node `x` has below it the light symbols and the first `k` heavy ones, and weighs as much as these. */
  ghost predicate Holds(t: Tree, x: int, k: int)
    requires Shape(t) && 0 <= k <= HEAVY
  {
    && 0 <= x <= R && t.freq[x] == S[k]
    && forall s :: 0 <= s < N_CHAR && Among(s, k) ==> Under(t, LeafOf(t, s), x)
  }

  /** So one step down leaves the heaviest symbol aside, and nothing else. */
  lemma StepDown(t: Tree, x: int, k: int) returns (y: int)
    requires Skewed(t) && 0 <= k < HEAVY && Holds(t, x, k + 1)
    ensures Holds(t, y, k) && |Path(t, y)| == |Path(t, x)| + 1
  {
    hide Under, Path, Among;
    var p := LeafOf(t, Heavy(k));
    Growth(k);
    AmongNext(k);
    assert Under(t, p, x) && t.freq[p] == CountOf(Heavy(k));
    UnderChild(t, p, x);
    Children(t, x);
    var a := t.son[x];
    var c := if Under(t, p, a) then a else a + 1;
    HeaviestIsChild(t, x, k, c);
    y := if c == a then a + 1 else a;
    forall s | 0 <= s < N_CHAR && Among(s, k) ensures Under(t, LeafOf(t, s), y) {
      OtherChild(t, s, x, p, y);
    }
  }

  lemma AmongNext(k: int)
    requires 0 <= k < HEAVY
    ensures Among(Heavy(k), k + 1) && !Among(Heavy(k), k)
    ensures forall s :: Among(s, k) ==> Among(s, k + 1)
  {
    forall s | Among(s, k) ensures Among(s, k + 1) {
      if !Light(s) { var j :| 0 <= j < k && j < HEAVY && s == Heavy(j); }
    }
  }

  /** What is below `x` and neither `x` nor its child `p`, a leaf, is below the other child. */
  lemma OtherChild(t: Tree, s: int, x: int, p: int, y: int)
    requires Shape(t) && IsSymbol(s) && 0 <= x <= R && 0 <= t.son[x] < T && 0 <= y < R
    requires Under(t, LeafOf(t, s), x) && 0 <= p < R && t.son[p] >= T && t.son[p] != s + T
    requires {p, y} == {t.son[x], t.son[x] + 1}
    ensures Under(t, LeafOf(t, s), y)
  {
    hide Under;
    UnderChild(t, LeafOf(t, s), x);
    if Under(t, LeafOf(t, s), p) { UnderChild(t, LeafOf(t, s), p); }
  }

  lemma {:induction false} Descend(t: Tree, k: int) returns (x: int)
    requires Skewed(t) && 0 <= k <= HEAVY
    ensures Holds(t, x, k) && |Path(t, x)| == HEAVY - k
    decreases HEAVY - k
  {
    hide Under, Among;
    if k == HEAVY {
      x := R;
      forall s | 0 <= s < N_CHAR ensures Under(t, LeafOf(t, s), R) { UnderRoot(t, LeafOf(t, s)); }
    } else {
      var z := Descend(t, k + 1);
      x := StepDown(t, z, k);
    }
  }

  // ----- sixteen levels down -----

  /** How many of the light literals before `n` are below a node. */
  ghost function LitsUnder(t: Tree, x: int, n: nat): nat
    requires Shape(t) && n <= 256
  {
    if n <= 8 then 0 else LitsUnder(t, x, n - 1) + (if Under(t, LeafOf(t, n - 1), x) then 1 else 0)
  }

  lemma {:induction false} AllUnder(t: Tree, x: int, n: nat)
    requires Shape(t) && 8 <= n <= 256 && forall s :: 8 <= s < n ==> Under(t, LeafOf(t, s), x)
    ensures LitsUnder(t, x, n) == n - 8
  {
    hide Under, LeafOf;
    if n > 8 { AllUnder(t, x, n - 1); }
  }

  lemma {:induction false} SomeUnder(t: Tree, x: int, n: nat) returns (s: int)
    requires Shape(t) && n <= 256 && LitsUnder(t, x, n) >= 1
    ensures 8 <= s < n && Under(t, LeafOf(t, s), x)
  {
    hide Under, LeafOf;
    if Under(t, LeafOf(t, n - 1), x) { s := n - 1; } else { s := SomeUnder(t, x, n - 1); }
  }

  lemma {:induction false} TwoUnder(t: Tree, x: int, n: nat) returns (s: int, s': int)
    requires Shape(t) && n <= 256 && LitsUnder(t, x, n) >= 2
    ensures 8 <= s' < s < n && Under(t, LeafOf(t, s), x) && Under(t, LeafOf(t, s'), x)
  {
    hide Under, LeafOf;
    if Under(t, LeafOf(t, n - 1), x) {
      s := n - 1;
      s' := SomeUnder(t, x, n - 1);
    } else {
      s, s' := TwoUnder(t, x, n - 1);
    }
  }

  lemma {:induction false} ChildrenShare(t: Tree, x: int, n: nat)
    requires Shape(t) && 0 <= x <= R && 0 <= t.son[x] < T && n <= 256
    ensures LitsUnder(t, x, n) <= LitsUnder(t, t.son[x], n) + LitsUnder(t, t.son[x] + 1, n)
  {
    hide Under, LeafOf;
    if n > 8 {
      ChildrenShare(t, x, n - 1);
      if Under(t, LeafOf(t, n - 1), x) { UnderChild(t, LeafOf(t, n - 1), x); }
    }
  }

  /** A node with two literals below it is no leaf, and one of its children has at least half of them. */
  lemma SplitLits(t: Tree, x: int) returns (y: int)
    requires Shape(t) && 0 <= x <= R && LitsUnder(t, x, 256) >= 2
    ensures 0 <= y < R && |Path(t, y)| == |Path(t, x)| + 1 && 2 * LitsUnder(t, y, 256) >= LitsUnder(t, x, 256)
  {
    hide Under, Path, LitsUnder;
    var s, s' := TwoUnder(t, x, 256);
    if t.son[x] >= T {
      LeafAlone(t, x, s);
      LeafAlone(t, x, s');
    }
    assert NodeOk(t, x, -1);
    Children(t, x);
    ChildrenShare(t, x, 256);
    var a := t.son[x];
    y := if LitsUnder(t, a, 256) >= LitsUnder(t, a + 1, 256) then a else a + 1;
  }

  lemma LeafAlone(t: Tree, x: int, s: int)
    requires Shape(t) && 0 <= x <= R && t.son[x] >= T && IsSymbol(s) && Under(t, LeafOf(t, s), x)
    ensures t.son[x] == s + T
  {
    hide Under;
    if LeafOf(t, s) != x { UnderChild(t, LeafOf(t, s), x); }
  }

  function Halves(n: nat): int {
    if n == 0 then 248 else (Halves(n - 1) + 1) / 2
  }

  lemma HalvesTable()
    ensures forall n: nat :: n <= 7 ==> 2 <= Halves(n)
  {
    assert Halves(2) == 62 && Halves(4) == 16 && Halves(6) == 4 && Halves(7) == 2;
  }

  /** From there on one child has at least half of the light literals. */
  lemma {:induction false} DescendOn(t: Tree, n: nat) returns (x: int)
    requires Skewed(t) && n <= 7
    ensures 0 <= x <= R && Halves(n) <= LitsUnder(t, x, 256) && |Path(t, x)| == HEAVY + n
  {
    hide Under, Path, LitsUnder, LeafOf;
    HalvesTable();
    if n == 0 {
      x := Descend(t, 0);
      AllUnder(t, x, 256);
    } else {
      var z := DescendOn(t, n - 1);
      assert Halves(n - 1) >= 2;
      x := SplitLits(t, z);
    }
  }

  /** Then the code word of some light literal has a set bit behind its sixteenth. */
  lemma LongWord(t: Tree) returns (c: int)
    requires Skewed(t)
    ensures 8 <= c < 256 && !Whole(Code(t, c))
  {
    hide Under, Path, LitsUnder, LeafOf, Code;
    HalvesTable();
    var x := DescendOn(t, 7);
    assert Halves(7) >= 2;
    var s, s' := TwoUnder(t, x, 256);
    BothWhole(t, x, s, s');
    c := if Whole(Code(t, s)) then s' else s;
  }

  /** Of two code words with the same 16 bits in front one goes on with a set bit. */
  lemma BothWhole(t: Tree, x: int, s: int, s': int)
    requires Shape(t) && 0 <= x <= R && |Path(t, x)| == 16 && IsSymbol(s) && IsSymbol(s') && s != s'
    requires Under(t, LeafOf(t, s), x) && Under(t, LeafOf(t, s'), x)
    ensures !Whole(Code(t, s)) || !Whole(Code(t, s'))
  {
    hide Under, Path;
    UnderFacts(t, LeafOf(t, s), x);
    UnderFacts(t, LeafOf(t, s'), x);
    CodeIsPath(t, s);
    CodeIsPath(t, s');
    if Whole(Code(t, s)) && Whole(Code(t, s')) {
      if |Code(t, s)| <= |Code(t, s')| {
        ZeroTails(Path(t, x), Code(t, s), Code(t, s'));
        PrefixFree(t, s, s');
      } else {
        ZeroTails(Path(t, x), Code(t, s'), Code(t, s));
        PrefixFree(t, s', s);
      }
    }
  }

  lemma ZeroTails(p: seq<bool>, w: seq<bool>, w': seq<bool>)
    requires |p| == 16 && p <= w && p <= w' && Whole(w) && Whole(w') && |w| <= |w'|
    ensures w <= w'
  {
    forall i | 0 <= i < |w| ensures w[i] == w'[i] { if i < 16 { assert w[i] == p[i] == w'[i]; } }
  }

  lemma CodeIsPath(t: Tree, s: int)
    requires Shape(t) && IsSymbol(s)
    ensures Code(t, s) == Path(t, LeafOf(t, s))
  {
  }

  /** A symbol that counts at least 13 has a code word of at most 16 bits, whatever the others count. */
  lemma HeavyShort(t: Tree, s: int)
    requires Inv(t) && IsSymbol(s) && t.freq[LeafOf(t, s)] >= 13
    ensures |Code(t, s)| <= 16
  {
    hide LeafOf, Path, Shape, Fib, Code;
    var k := LeafOf(t, s);
    InvShape(t);
    CodeIsPath(t, s);
    if k < R {
      var p := AboveLeaf(t, k);
      FibonacciGrowth(t, p, k);
      HeavyBound(|Path(t, p)|, t.freq[p], t.freq[k], t.freq[R]);
    } else {
      RootPath(t);
    }
  }

  lemma InvShape(t: Tree)
    requires Inv(t)
    ensures Shape(t) && |t.freq| == T + 1 && t.freq[R] <= MAX_FREQ
  {
  }

  lemma RootPath(t: Tree)
    requires Shape(t)
    ensures Path(t, R) == []
  {
  }

  lemma AboveLeaf(t: Tree, k: int) returns (p: int)
    requires Shape(t) && 0 <= k < R
    ensures k < p <= R && t.prnt[k] == p && |Path(t, k)| == |Path(t, p)| + 1 && t.freq[p] > t.freq[k]
  {
    ParentAbove(t, -1, k);
    p := t.prnt[k];
    assert LinkOk(t, k);
    Children(t, p);
    assert NodeOk(t, t.son[p], -1) && NodeOk(t, t.son[p] + 1, -1);
  }

  lemma HeavyBound(n: nat, p: int, v: int, root: int)
    requires root >= Fib(n + 1) * p + Fib(n) * v && p > v >= 13 && root <= MAX_FREQ
    ensures n < 16
  {
    hide Fib;
    if n >= 16 {
      FibMonotone(17, n + 1);
      FibMonotone(16, n);
      FibSixteen();
      AtLeast(Fib(n + 1), 1597, p, 14);
      AtLeast(Fib(n), 987, v, 13);
    }
  }

  lemma AtLeast(a: nat, b: nat, p: nat, q: nat)
    requires a >= b && p >= q
    ensures a * p >= b * q
  {
    assert a * p >= a * q && a * q >= b * q;
  }

  lemma FibSixteen()
    ensures Fib(16) == 987 && Fib(17) == 1597
  {
    assert Fib(8) == 21 && Fib(9) == 34;
    assert Fib(12) == 144 && Fib(13) == 233;
  }

  // ----- how often symbols are coded -----

  /** How often the symbol `s` is coded. */
  function Times(ts: seq<Token>, s: int): nat {
    if ts == [] then 0 else Times(ts[..|ts| - 1], s) + (if Symbol(ts[|ts| - 1]) == s then 1 else 0)
  }

  /** Until the first rebuilding the tree counts how often each symbol has been coded. */
  lemma {:induction false} Counted(ts: seq<Token>, s: int)
    requires Sound(ts) && |ts| <= MAX_FREQ - N_CHAR && IsSymbol(s)
    ensures After(ts).freq[R] == N_CHAR + |ts| && After(ts).freq[LeafOf(After(ts), s)] == 1 + Times(ts, s)
  {
    hide Update, Expand, LeafOf;
    if ts == [] {
      StartCount(s);
    } else {
      var us, c := ts[..|ts| - 1], Symbol(ts[|ts| - 1]);
      Counted(us, s);
      UpdateCounts(After(us), c, s);
      WeightOfLeaf(After(us), s);
      WeightOfLeaf(After(ts), s);
    }
  }

  lemma StartCount(s: int)
    requires IsSymbol(s)
    ensures var t := InitialTree(); t.freq[R] == N_CHAR && t.freq[LeafOf(t, s)] == 1
  {
    hide LeafOf, Shape;
    StartInv();
    BuildKeeps(START_ROWS, Ones(N_CHAR));
    AssembledLink(Build(START_ROWS), Ones(N_CHAR), seq(T + N_CHAR, _ => 0), s + T);
    WeightOfLeaf(InitialTree(), s);
  }

  lemma WeightOfLeaf(t: Tree, s: int)
    requires Shape(t) && IsSymbol(s)
    ensures LinkOk(t, s + T) && Weight(t, s) == t.freq[LeafOf(t, s)]
  {
  }
}
