/**
  The adaptive Huffman coder of LZHUF: its invariant, its start state, one update, and the
  code words the tree stands for.
 */
module Huffman {
  import opened HuffTree
  import opened HuffRebuild

  /** The state between two symbols. */
  ghost predicate Inv(t: Tree) {
    && Shape(t)
    && t.freq[R] == LeafSum(t.freq, t.son, T)
    && t.freq[R] <= MAX_FREQ
  }

  // ----- from a full table of joined pairs to a tree -----

  predicate InRange(s: seq<int>) {
    forall m :: 0 <= m < |s| ==> 0 <= s[m] < T + N_CHAR
  }

  function Assemble(b: Rows, prnt: seq<int>): (t: Tree)
    requires Sizes(b) && |b.son| == T && InRange(b.son) && |prnt| == T + N_CHAR
    ensures Sized(t)
  {
    Tree(b.freq + [SENTINEL], b.son, Connect(b.son, prnt, T))
  }

  lemma BuiltRange(b: Rows, W: seq<int>)
    requires BuildInv(b, W) && |b.son| == T
    ensures InRange(b.son)
    ensures forall m :: 0 <= m < T && b.son[m] < T ==> b.son[m] % 2 == 0 && b.son[m] < R
  {
    forall m | 0 <= m < T
      ensures 0 <= b.son[m] < T + N_CHAR && (b.son[m] < T ==> b.son[m] % 2 == 0 && b.son[m] < R)
    {
      assert BuiltOk(b.freq, b.son, W, m);
    }
  }

  lemma AssembledNode(b: Rows, W: seq<int>, prnt: seq<int>, m: int)
    requires BuildInv(b, W) && |b.son| == T && |prnt| == T + N_CHAR && 0 <= m < T
    ensures InRange(b.son) && NodeOk(Assemble(b, prnt), m, -1)
  {
    BuiltRange(b, W);
    assert BuiltOk(b.freq, b.son, W, m);
    Connected(b.son, prnt, T, m);
  }

  lemma AssembledLink(b: Rows, W: seq<int>, prnt: seq<int>, k: int)
    requires BuildInv(b, W) && |b.son| == T && |prnt| == T + N_CHAR
    requires 0 <= k < T + N_CHAR && k != R
    ensures InRange(b.son) && LinkOk(Assemble(b, prnt), k)
    ensures k >= T ==> Weight(Assemble(b, prnt), k - T) == W[k - T]
  {
    BuiltRange(b, W);
    var v := if k < T then k - k % 2 else k;
    assert v in b.son;
    var m :| 0 <= m < T && b.son[m] == v;
    Connected(b.son, prnt, T, m);
    assert BuiltOk(b.freq, b.son, W, m);
  }

  /** A finished joining loop gives a tree with the counts `W` and their total at the root. */
  lemma Assembled(b: Rows, W: seq<int>, prnt: seq<int>)
    requires BuildInv(b, W) && |b.son| == T && |prnt| == T + N_CHAR
    requires prnt[R] == 0 && Loose(b) == Leaves(b) <= SENTINEL
    ensures InRange(b.son)
    ensures var t := Assemble(b, prnt); Shape(t) && t.freq[R] == Leaves(b) == LeafSum(t.freq, t.son, T)
  {
    BuiltRange(b, W);
    var t := Assemble(b, prnt);
    assert Loose(b) == b.freq[R] + TailSum(b.freq, T);
    LeafSumPrefix(b.freq, b.son, [SENTINEL], [], T);
    assert b.son + [] == b.son;
    RootUnconnected(b.son, prnt, T);
    forall i | 0 <= i < T ensures NodeOk(t, i, -1) { AssembledNode(b, W, prnt, i); }
    forall k | 0 <= k < T + N_CHAR && k != R ensures LinkOk(t, k) { AssembledLink(b, W, prnt, k); }
  }

  // ----- the start state -----

  function Symbols(n: nat): (s: seq<int>)
    ensures |s| == n && forall m :: 0 <= m < n ==> s[m] == T + m
  {
    seq(n, m requires 0 <= m < n => T + m)
  }

  function Ones(n: nat): (f: seq<int>)
    ensures |f| == n && forall m :: 0 <= m < n ==> f[m] == 1
  {
    seq(n, m requires 0 <= m < n => 1)
  }

  const START_ROWS := Rows(Ones(N_CHAR), Symbols(N_CHAR))

  lemma {:induction false} OnesTotals(f: seq<int>, s: seq<int>, n: nat)
    requires n <= |f| == |s| && (forall m :: 0 <= m < |f| ==> f[m] == 1 && s[m] >= T)
    ensures LeafSum(f, s, n) == n && TailSum(f, |f| - n) == n
  {
    if n > 0 { OnesTotals(f, s, n - 1); }
  }

  /** The table as StartHuff makes it: the last node made is the parent of the last pair. */
  ghost predicate Starting(b: Rows) {
    match b case Rows(f, s) =>
      BuildInv(b, Ones(N_CHAR)) &&
      var j := |s|;
      && (forall m :: N_CHAR <= m < j ==> s[m] == NextPair(m))
      && (forall m :: 0 <= m < N_CHAR ==> s[m] == T + m)
      && (if j == N_CHAR then f[j - 1] == 1
          else NextPair(j) < j && f[j - 1] == f[NextPair(j) - 2] + f[NextPair(j) - 1])
  }

  lemma StartInv()
    ensures BuildInv(START_ROWS, Ones(N_CHAR))
    ensures Starting(START_ROWS)
    ensures Loose(START_ROWS) == Leaves(START_ROWS) == N_CHAR
  {
    var f, s := Ones(N_CHAR), Symbols(N_CHAR);
    OnesTotals(f, s, N_CHAR);
    forall v | T <= v < T + N_CHAR ensures v in s { assert s[v - T] == v; }
    assert forall m :: 0 <= m < N_CHAR ==> BuiltOk(f, s, Ones(N_CHAR), m);
  }

  /** At the start each new parent goes to the end of the table. */
  lemma JoinAtEnd(b: Rows)
    requires Starting(b) && |b.son| < T
    ensures NextPair(|b.son|) + 1 < |b.son|
    ensures Join(b) == Rows(b.freq + [JoinSum(b)], b.son + [NextPair(|b.son|)])
    ensures Starting(Join(b))
  {
    JoinAbove(b, Ones(N_CHAR));
    JoinKeeps(b, Ones(N_CHAR));
    assert JoinPlace(b) == |b.son|;
  }

  lemma {:induction false} StartBuild(b: Rows)
    requires Starting(b)
    ensures Starting(Build(b))
    decreases T - |b.son|
  {
    if |b.son| < T {
      JoinAtEnd(b);
      StartBuild(Join(b));
    }
  }

  /** The tree every coding run starts from: each symbol counted once. */
  ghost function InitialTree(): (t: Tree)
    ensures Inv(t) && t.freq[R] == N_CHAR
  {
    StartInv();
    BuildKeeps(START_ROWS, Ones(N_CHAR));
    var b := Build(START_ROWS);
    var p := seq(T + N_CHAR, _ => 0);
    Assembled(b, Ones(N_CHAR), p);
    Assemble(b, p)
  }

  /** The parent pointers while the start tree is being joined. */
  function StartLinks(p: seq<int>, j: nat): (r: seq<int>)
    requires |p| == T + N_CHAR && N_CHAR <= j <= T
    ensures |r| == |p|
    ensures forall v :: R < v < |p| ==> r[v] == p[v]
    ensures forall m :: 0 <= m < NextPair(j) ==> r[m] == N_CHAR + m / 2
  {
    if j == N_CHAR then p
    else
      var i := NextPair(j - 1);
      StartLinks(p, j - 1)[i := j - 1][i + 1 := j - 1]
  }

  /** StartHuff's parent pointers are those of the start tree. */
  lemma InitialLinks(p0: seq<int>, p: seq<int>)
    requires |p0| == T + N_CHAR && (forall v :: T <= v < T + N_CHAR ==> p0[v] == v - T)
    requires p == StartLinks(p0, T)[R := 0]
    ensures p == InitialTree().prnt
  {
    hide StartLinks, InitialTree, LinkOk, Shape;
    var t := InitialTree();
    ShapeSized(t);
    forall k | 0 <= k < |p| ensures p[k] == t.prnt[k] {
      InitialLink(k);
    }
  }

  lemma InitialLink(k: int)
    requires 0 <= k < T + N_CHAR
    ensures InitialTree().prnt[k] == if k == R then 0 else if k < R then N_CHAR + k / 2 else k - T
  {
    hide Shape;
    StartInv();
    StartBuild(START_ROWS);
    var t := InitialTree();
    InitialLinkOk(k);
    InitialSon(t.prnt[k]);
  }

  lemma InitialLinkOk(k: int)
    requires 0 <= k < T + N_CHAR
    ensures k != R ==> LinkOk(InitialTree(), k)
    ensures InitialTree().prnt[R] == 0
  {
  }

  lemma InitialSon(m: int)
    requires 0 <= m < T
    ensures InitialTree().son[m] == if m < N_CHAR then T + m else NextPair(m)
  {
    hide Shape, LinkOk;
    StartInv();
    StartBuild(START_ROWS);
  }

  // ----- rebuilding -----

  ghost function Collect(t: Tree): (b: Rows)
    requires Shape(t)
    ensures Sizes(b) && |b.son| == N_CHAR
  {
    CollectedAll(t);
    Rows(LeafFreqs(t.freq, t.son, T), LeafSons(t.son, T))
  }

  ghost function Halved(t: Tree): (W: seq<int>)
    requires Shape(t)
    ensures |W| == N_CHAR
    ensures forall s :: 0 <= s < N_CHAR ==> LinkOk(t, s + T) && W[s] == Half(Weight(t, s))
  {
    assert forall k :: T <= k < T + N_CHAR ==> LinkOk(t, k);
    seq(N_CHAR, s requires 0 <= s < N_CHAR && LinkOk(t, s + T) => Half(Weight(t, s)))
  }

  lemma CollectedInv(t: Tree)
    requires Shape(t)
    ensures BuildInv(Collect(t), Halved(t))
    ensures var b := Collect(t); Loose(b) == Leaves(b) && LeafSum(t.freq, t.son, T) <= 2 * Loose(b) <= LeafSum(t.freq, t.son, T) + N_CHAR
  {
    CollectedAll(t);
    CollectedTotals(t.freq, t.son, T);
    var b, W := Collect(t), Halved(t);
    assert forall m :: 0 <= m < N_CHAR ==> BuiltOk(b.freq, b.son, W, m);
    assert Sorted(b.freq) && Positive(b.freq) && Distinct(b.son) && Keys(b.son);
  }

  /** The rebuilt tree: every symbol has half its count, rounded up. */
  ghost function Rebuild(t: Tree): (r: Tree)
    requires Inv(t)
    ensures Inv(r) && t.freq[R] <= 2 * r.freq[R] <= t.freq[R] + N_CHAR
    ensures forall s :: 0 <= s < N_CHAR ==>
      LinkOk(t, s + T) && LinkOk(r, s + T) && Weight(t, s) <= 2 * Weight(r, s) <= Weight(t, s) + 1
  {
    CollectedInv(t);
    var W := Halved(t);
    BuildKeeps(Collect(t), W);
    var b := Build(Collect(t));
    Assembled(b, W, t.prnt);
    assert forall s :: 0 <= s < N_CHAR ==> LinkOk(Assemble(b, t.prnt), s + T) && Weight(Assemble(b, t.prnt), s) == W[s] by {
      forall s | 0 <= s < N_CHAR
        ensures LinkOk(Assemble(b, t.prnt), s + T) && Weight(Assemble(b, t.prnt), s) == W[s]
      { AssembledLink(b, W, t.prnt, s + T); }
    }
    Assemble(b, t.prnt)
  }

  // ----- one update -----

  ghost function Ready(t: Tree): (r: Tree)
    requires Inv(t)
    ensures Inv(r) && r.freq[R] < MAX_FREQ
  {
    if t.freq[R] == MAX_FREQ then Rebuild(t) else t
  }

  /** The tree after symbol `c` has been coded. */
  ghost function Update(t: Tree, c: int): (r: Tree)
    requires Inv(t) && IsSymbol(c)
    ensures Inv(r) && r.freq[R] == Ready(t).freq[R] + 1
  {
    var t1 := Ready(t);
    assert LinkOk(t1, c + T);
    var p := t1.prnt[c + T];
    ShapeAtLeaf(t1, p);
    ClimbLeafSum(t1, p);
    Climb(t1, p)
  }

  lemma ShapeAtLeaf(t: Tree, p: int)
    requires Shape(t) && 0 <= p < T && t.son[p] >= T
    ensures InvAt(t, p)
  {
    forall i | 0 <= i < T ensures NodeOk(t, i, p) { assert NodeOk(t, i, -1); }
  }

  /** Below a root count of 0x8000 an update adds one at the root and to the count of `c`, and leaves the others; at 0x8000
      all counts are halved first, rounded up. */
  lemma UpdateHalves(t: Tree, c: int, s: int)
    requires Inv(t) && IsSymbol(c) && IsSymbol(s)
    ensures LinkOk(t, s + T) && LinkOk(Update(t, c), s + T) && t.freq[R] <= 0x8000
    ensures var one := if s == c then 1 else 0; var (w, w') := (Weight(t, s), Weight(Update(t, c), s) - one);
      if t.freq[R] < 0x8000 then w' == w else w <= 2 * w' <= w + 1
    ensures t.freq[R] < 0x8000 ==> Update(t, c).freq[R] == t.freq[R] + 1
    ensures t.freq[R] == 0x8000 ==> 0x8000 <= 2 * (Update(t, c).freq[R] - 1) <= 0x8000 + 314
  {
    hide Update, Rebuild;
    UpdateCounts(t, c, s);
    assert LinkOk(t, s + T);
  }

  /** Coding `c` adds one to the count of `c` and to no other symbol's. */
  lemma UpdateCounts(t: Tree, c: int, s: int)
    requires Inv(t) && IsSymbol(c) && IsSymbol(s)
    ensures LinkOk(Ready(t), s + T) && LinkOk(Update(t, c), s + T)
    ensures Weight(Update(t, c), s) == Weight(Ready(t), s) + (if s == c then 1 else 0)
  {
    var t1 := Ready(t);
    assert LinkOk(t1, c + T) && LinkOk(t1, s + T);
    var p := t1.prnt[c + T];
    ShapeAtLeaf(t1, p);
    ClimbWeight(t1, p, s);
    assert Update(t, c) == Climb(t1, p);
  }

  // ----- code words -----

  /** The bits from the root down to position `k`: 1 for the right child. */
  ghost function Path(t: Tree, k: int): (bits: seq<bool>)
    requires Shape(t) && 0 <= k <= R
    ensures k == R <==> bits == []
    decreases R - k
  {
    if k == R then []
    else
      ParentAbove(t, -1, k);
      Path(t, t.prnt[k]) + [k % 2 == 1]
  }

  /** The code word of symbol `c`. */
  ghost function Code(t: Tree, c: int): (bits: seq<bool>)
    requires Shape(t) && IsSymbol(c)
  {
    assert LinkOk(t, c + T);
    Path(t, t.prnt[c + T])
  }

  /** A bit of a string that is followed by zeros for ever. */
  function BitAt(bits: seq<bool>, n: nat): bool {
    n < |bits| && bits[n]
  }

  function Num(b: bool): int { if b then 1 else 0 }

  /** Walking down from the node or leaf named `c`, reading `bits` from position `cur` on. */
  ghost function Walk(t: Tree, c: int, bits: seq<bool>, cur: nat): (r: (int, nat))
    requires Shape(t) && 0 <= c < T + N_CHAR && (c < T ==> c % 2 == 0 && c < R)
    ensures IsSymbol(r.0) && cur <= r.1
    decreases if c < T then c + 1 else 0
  {
    if c >= T then (c - T, cur)
    else
      var k := c + Num(BitAt(bits, cur));
      assert NodeOk(t, k, -1);
      assert t.son[k] < T ==> t.son[k] + 1 < R by { if t.son[k] < T { ParentAbove(t, -1, t.son[k] + 1); } }
      Walk(t, t.son[k], bits, cur + 1)
  }

  ghost function DecodeSymbol(t: Tree, bits: seq<bool>, cur: nat): (r: (int, nat))
    requires Shape(t)
    ensures IsSymbol(r.0) && cur <= r.1
  {
    assert NodeOk(t, R, -1) by { RootInternal(t); }
    RootInternal(t);
    Walk(t, t.son[R], bits, cur)
  }

  lemma RootInternal(t: Tree)
    requires Shape(t)
    ensures 0 <= t.son[R] < R && t.son[R] % 2 == 0
  {
    assert NodeOk(t, R, -1);
    assert LinkOk(t, 0);
    if t.son[R] >= T { NoParentIsRoot(t, 0); }
  }

  /** Every position has the root above it. */
  lemma {:induction false} NoParentIsRoot(t: Tree, k: int)
    requires Shape(t) && 0 <= k < R && t.son[R] >= T
    ensures false
    decreases R - k
  {
    ParentAbove(t, -1, k);
    assert LinkOk(t, k);
    NoParentIsRoot(t, t.prnt[k]);
  }

  ghost predicate ReadsAt(bits: seq<bool>, cur: nat, word: seq<bool>) {
    forall i :: 0 <= i < |word| ==> BitAt(bits, cur + i) == word[i]
  }

  ghost function Below(t: Tree, k: int): (c: int)
    requires Shape(t) && 0 <= k <= R
    ensures 0 <= c < T + N_CHAR && (c < T ==> c % 2 == 0 && c < R)
  {
    assert NodeOk(t, k, -1);
    assert t.son[k] < T ==> t.son[k] + 1 < R by { if t.son[k] < T { ParentAbove(t, -1, t.son[k] + 1); } }
    t.son[k]
  }

  /** Reading the path of `k` leads the walk from the root to what is below `k`. */
  lemma {:induction false} WalkReads(t: Tree, k: int, bits: seq<bool>, cur: nat)
    requires Shape(t) && 0 <= k <= R && ReadsAt(bits, cur, Path(t, k))
    ensures DecodeSymbol(t, bits, cur) == Walk(t, Below(t, k), bits, cur + |Path(t, k)|)
    decreases R - k
  {
    RootInternal(t);
    if k < R {
      ParentAbove(t, -1, k);
      assert LinkOk(t, k);
      var p := t.prnt[k];
      var word := Path(t, k);
      assert Path(t, p) == word[..|word| - 1];
      WalkReads(t, p, bits, cur);
      assert BitAt(bits, cur + (|word| - 1)) == word[|word| - 1];
    }
  }

  /** Decoding undoes encoding for one symbol. */
  lemma DecodeInverts(t: Tree, c: int, bits: seq<bool>, cur: nat)
    requires Shape(t) && IsSymbol(c) && ReadsAt(bits, cur, Code(t, c))
    ensures DecodeSymbol(t, bits, cur) == (c, cur + |Code(t, c)|)
  {
    assert LinkOk(t, c + T);
    var k := t.prnt[c + T];
    assert NodeOk(t, k, -1);
    WalkReads(t, k, bits, cur);
  }

  ghost function Padded(bits: seq<bool>, cur: nat, n: nat): (r: seq<bool>)
    ensures |r| == n && forall i :: 0 <= i < n ==> r[i] == BitAt(bits, cur + i)
  {
    seq(n, i requires 0 <= i < n => BitAt(bits, cur + i))
  }

  /** What a walk returns names the path it has read. */
  lemma {:induction false} WalkNames(t: Tree, k: int, bits: seq<bool>, cur: nat)
    requires Shape(t) && 0 <= k <= R
    ensures var (c, n) := Walk(t, Below(t, k), bits, cur);
      Code(t, c) == Path(t, k) + Padded(bits, cur, n - cur)
    decreases k
  {
    var s := Below(t, k);
    assert NodeOk(t, k, -1);
    if s >= T {
      assert Padded(bits, cur, 0) == [];
    } else {
      var b := BitAt(bits, cur);
      var k' := s + Num(b);
      assert LinkOk(t, k');
      WalkNames(t, k', bits, cur + 1);
      var (c, n) := Walk(t, s, bits, cur);
      assert Path(t, k') == Path(t, k) + [b] by { if k' < R { ParentAbove(t, -1, k'); } }
      assert Padded(bits, cur, n - cur) == [b] + Padded(bits, cur + 1, n - cur - 1);
    }
  }

  /** A symbol is decoded exactly where its own code word stands. */
  lemma DecodesOnlyOwnWord(t: Tree, c: int, bits: seq<bool>, cur: nat)
    requires Shape(t) && IsSymbol(c)
    ensures DecodeSymbol(t, bits, cur).0 == c <==> ReadsAt(bits, cur, Code(t, c))
  {
    WalkReads(t, R, bits, cur);
    WalkNames(t, R, bits, cur);
    var n := DecodeSymbol(t, bits, cur).1 - cur;
    assert forall i :: 0 <= i < n ==> Padded(bits, cur, n)[i] == BitAt(bits, cur + i);
    if ReadsAt(bits, cur, Code(t, c)) { DecodeInverts(t, c, bits, cur); }
  }

  /** No code word is the front of another. */
  lemma PrefixFree(t: Tree, c: int, c': int)
    requires Shape(t) && IsSymbol(c) && IsSymbol(c') && Code(t, c) <= Code(t, c')
    ensures c == c'
  {
    hide Code, DecodeSymbol;
    var w := Code(t, c');
    DecodeInverts(t, c, w, 0);
    DecodeInverts(t, c', w, 0);
  }

  /** Where the first 16 bits of a longer code word stand, and not the whole of it, what is found has more than 16. */
  lemma FoundLong(t: Tree, c: int, bits: seq<bool>, cur: nat)
    requires Shape(t) && IsSymbol(c) && |Code(t, c)| > 16 && DecodeSymbol(t, bits, cur).0 != c
    requires forall i :: 0 <= i < 16 ==> BitAt(bits, cur + i) == Code(t, c)[i]
    ensures DecodeSymbol(t, bits, cur).1 > cur + 16
  {
    hide Code, DecodeSymbol, BitAt;
    var c' := DecodeSymbol(t, bits, cur).0;
    DecodesOnlyOwnWord(t, c', bits, cur);
    DecodeInverts(t, c', bits, cur);
    if |Code(t, c')| <= 16 {
      assert forall i :: 0 <= i < |Code(t, c')| ==> BitAt(bits, cur + i) == Code(t, c')[i] == Code(t, c)[i];
      PrefixFree(t, c', c);
    }
  }

  // ----- how long a code word can be -----

  function Fib(n: nat): nat {
    if n < 2 then n else Fib(n - 1) + Fib(n - 2)
  }

  lemma Products(a: nat, b: nat, p: int, v: int, u: int)
    requires p >= v + u
    ensures a * p + b * v >= (a + b) * v + a * u
  {
    assert a * p >= a * (v + u);
  }

  /** The root counts at least as much as Fibonacci numbers of a node at depth d and its child. */
  lemma {:induction false} FibonacciGrowth(t: Tree, v: int, u: int)
    requires Shape(t) && 0 <= u < v <= R && t.prnt[u] == v
    ensures t.freq[R] >= Fib(|Path(t, v)| + 1) * t.freq[v] + Fib(|Path(t, v)|) * t.freq[u]
    decreases R - v
  {
    if v < R {
      ParentAbove(t, -1, v);
      var p := t.prnt[v];
      assert LinkOk(t, v) && NodeOk(t, p, -1);
      assert LinkOk(t, u) && NodeOk(t, v, -1);
      var sib := if v % 2 == 0 then v + 1 else v - 1;
      assert t.freq[p] == t.freq[v] + t.freq[sib];
      assert u <= sib && t.freq[u] <= t.freq[sib];
      FibonacciGrowth(t, p, v);
      var d := |Path(t, v)|;
      Products(Fib(d), Fib(d - 1), t.freq[p], t.freq[v], t.freq[u]);
      assert Fib(d + 1) == Fib(d) + Fib(d - 1);
    }
  }

  /** A code word of L bits needs a root count of at least the Fibonacci number of L + 2. */
  lemma CodeLength(t: Tree, c: int)
    requires Shape(t) && IsSymbol(c)
    ensures |Code(t, c)| >= 1
    ensures t.freq[R] >= Fib(|Code(t, c)| + 2)
  {
    assert LinkOk(t, c + T);
    var k := t.prnt[c + T];
    RootInternal(t);
    assert NodeOk(t, k, -1);
    ParentAbove(t, -1, k);
    var p := t.prnt[k];
    assert LinkOk(t, k) && NodeOk(t, p, -1);
    FibonacciGrowth(t, p, k);
    var L := |Code(t, c)|;
    FibProducts(Fib(L), Fib(L - 1), t.freq[p], t.freq[k]);
    assert Fib(L + 2) == Fib(L + 1) + Fib(L) && Fib(L + 1) == Fib(L) + Fib(L - 1);
  }

  lemma FibProducts(a: nat, b: nat, p: int, v: int)
    requires p >= 2 && v >= 1
    ensures a * p + b * v >= 2 * a + b
  {
    assert a * p >= a * 2 && b * v >= b * 1;
  }

  lemma {:induction false} FibMonotone(m: nat, n: nat)
    requires m <= n
    ensures Fib(m) <= Fib(n)
    decreases n
  {
    if m < n {
      if n >= 2 { FibMonotone(m, n - 1); }
    }
  }

  /** Until the root's count reaches 4181 every code word fits in 16 bits; it never needs more than 21. */
  lemma CodeFits(t: Tree, c: int)
    requires Inv(t) && IsSymbol(c)
    ensures 1 <= |Code(t, c)| <= 21
    ensures t.freq[R] < 4181 ==> |Code(t, c)| <= 16
  {
    CodeLength(t, c);
    var L := |Code(t, c)|;
    assert Fib(8) == 21 && Fib(9) == 34;
    assert Fib(12) == 144 && Fib(13) == 233;
    assert Fib(16) == 987 && Fib(17) == 1597;
    assert Fib(19) == 4181 && Fib(20) == 6765;
    assert Fib(23) == 28657 && Fib(24) == 46368;
    if L > 21 { FibMonotone(24, L + 2); }
    if L > 16 { FibMonotone(19, L + 2); }
  }
}
