/**
  The Huffman tables as the codec keeps them, updated in place, against the tree of module Huffman.
 */
module HuffCoder {
  import opened HuffTree
  import opened HuffRebuild
  import Huffman

  /** The scan above `c` does not see the new count of `c`. */
  lemma {:induction false} ScanAbove(f: seq<int>, c: int, x: int, m: int, k: int)
    requires 0 <= c < m < |f| && k <= f[|f| - 1]
    ensures Scan(f[c := x], m, k) == Scan(f, m, k)
    decreases |f| - m
  {
    if f[m] < k { ScanAbove(f, c, x, m + 1, k); }
  }

  lemma ScanBeyond(f: seq<int>, c: int, k: int)
    requires |f| == T + 1 && 0 <= c < T && k <= f[T]
    ensures Scan(f[c := k], c + 1, k) == Scan(f, c + 1, k)
  {
    ScanAbove(f, c, k, c + 1, k);
  }

  lemma BuildNext(b: Rows)
    requires Sizes(b)
    ensures Build(b) == if |b.son| < T then Build(Join(b)) else b
  {
    hide Join;
  }

  lemma StartRowsSize()
    ensures Sizes(Huffman.START_ROWS) && |Huffman.START_ROWS.son| == N_CHAR
    ensures forall p: seq<int> :: |p| == T + N_CHAR ==> Huffman.StartLinks(p, N_CHAR) == p
  {
  }

  class Coder {
    const freq: array<int>
    const son: array<int>
    const prnt: array<int>

    ghost predicate Allocated() {
      && freq.Length == T + 1 && son.Length == T && prnt.Length == T + N_CHAR
      && freq != son && freq != prnt && son != prnt
    }

    ghost function View(): Tree
      reads freq, son, prnt
    {
      Tree(freq[..], son[..], prnt[..])
    }

    constructor ()
      ensures Allocated() && fresh(freq) && fresh(son) && fresh(prnt)
    {
      freq := new int[T + 1];
      son := new int[T];
      prnt := new int[T + N_CHAR];
    }

    /** The children of `c` and `l` change places. */
    method ExchangeSons(c: int, l: int)
      requires Allocated() && 0 <= c < l < T && 0 <= son[c] < T + N_CHAR && 0 <= son[l] < T + N_CHAR
      modifies son, prnt
      ensures son[..] == old(son[..][l := son[c]][c := son[l]])
      ensures prnt[..] == old(Reparent(Reparent(prnt[..], son[c], l), son[l], c))
    {
      var i := son[c];
      prnt[i] := l;
      if i < T { prnt[i + 1] := l; }
      assert prnt[..] == Reparent(old(prnt[..]), i, l);

      var j := son[l];
      son[l] := i;

      prnt[j] := c;
      if j < T { prnt[j + 1] := c; }
      son[c] := j;
    }

    /** The last position above `c` with a count below `k`; `c` itself when there is none. */
    method SeekTarget(c: int, k: int) returns (l: int)
      requires Allocated() && 0 <= c < T && k <= freq[T]
      ensures l == Scan(freq[..], c + 1, k) - 1
    {
      ghost var f := freq[..];
      l := c + 1;
      if k > freq[l] {
        l := l + 1;
        while k > freq[l]
          invariant c + 1 < l <= T
          invariant Scan(f, c + 1, k) == Scan(f, l, k)
          decreases T - l
        {
          l := l + 1;
        }
        l := l - 1;
      } else {
        l := c;
      }
    }

    /** Count node `c` once more and exchange it with the last node of a smaller count. */
    method BumpNode(c: int) returns (l: int)
      requires Allocated() && Bumpable(View(), c) && InvAt(View(), c) && View().freq[R] < SENTINEL
      modifies freq, son, prnt
      ensures l == old(Target(View(), c))
      ensures View() == old(Bump(View(), c))
    {
      hide InvAt, Scan, Reparent;
      ghost var t := View();
      freq[c] := freq[c] + 1;
      var k := freq[c];
      ScanBeyond(t.freq, c, k);
      l := SeekTarget(c, k);
      if l != c {
        freq[c] := freq[l];
        freq[l] := k;
        ExchangeSons(c, l);
      }
    }

    /** Count one occurrence of the symbol, rebuilding the tree first when the root is full. */
    method Update(sym: int)
      requires Allocated() && Huffman.Inv(View()) && IsSymbol(sym)
      modifies freq, son, prnt
      ensures View() == Huffman.Update(old(View()), sym)
    {
      ghost var want := Huffman.Update(View(), sym);
      if freq[R] == MAX_FREQ {
        Reconst();
      }
      assert LinkOk(View(), sym + T);
      var c := prnt[sym + T];
      Huffman.ShapeAtLeaf(View(), c);
      while true
        invariant Allocated() && 0 <= c <= R
        invariant InvAt(View(), c) && View().freq[R] < SENTINEL
        invariant Climb(View(), c) == want
        decreases R - c
      {
        ghost var t := View();
        BumpKeeps(t, c);
        TargetFacts(t, c);
        c := BumpNode(c);
        if c < R { ParentAbove(View(), View().prnt[c], c); }
        c := prnt[c];
        if c == 0 { break; }
      }
    }

    method CollectLeaves()
      requires Allocated() && Shape(View())
      modifies freq, son
      ensures freq[..N_CHAR] == old(Huffman.Collect(View())).freq
      ensures son[..N_CHAR] == old(Huffman.Collect(View())).son
      ensures freq[T] == old(freq[T])
    {
      ghost var f, s := freq[..], son[..];
      CollectedAll(View());
      var j := 0;
      for i := 0 to T
        invariant 0 <= j <= i
        invariant freq[..j] == LeafFreqs(f, s, i) && son[..j] == LeafSons(s, i)
        invariant (forall k :: i <= k < |f| ==> freq[k] == f[k]) && forall k :: i <= k < |s| ==> son[k] == s[k]
      {
        if son[i] >= T {
          freq[j] := (freq[i] + 1) / 2;
          son[j] := son[i];
          j := j + 1;
        }
      }
    }

    /** Shift a[k..j] up by one place and put `x` at `k`. */
    static method InsertAt(a: array<int>, k: int, j: int, x: int)
      requires 0 <= k <= j < a.Length
      modifies a
      ensures a[..j + 1] == Insert(old(a[..j]), k, x)
      ensures a[j + 1..] == old(a[j + 1..])
    {
      forall m | k <= m < j {
        a[m + 1] := a[m];
      }
      a[k] := x;
    }

    /** Scan down from `j` for the place of a count of `first`, which is not below `low`. */
    method SeekPlace(j: int, first: int, ghost f: seq<int>, ghost low: int) returns (k: int)
      requires freq.Length == T + 1 && 0 <= low < |f| == j <= T && freq[..j] == f && f[low] <= first
      ensures k == Place(f, j, first)
    {
      k := j - 1;
      while first < freq[k]
        invariant low <= k < j
        invariant Place(f, j, first) == Place(f, k + 1, first)
        decreases k
      {
        assert freq[k] == f[k];
        k := k - 1;
      }
      assert freq[k] == f[k];
      k := k + 1;
    }

    /** Make the parent of the pair at `i` and move it to its place among the first j nodes. */
    method JoinNext(i: int, j: int, ghost b: Rows)
      requires Allocated() && Sizes(b) && |b.son| == j < T && i == NextPair(j)
      requires i + 2 <= JoinPlace(b)
      requires freq[..j] == b.freq && son[..j] == b.son
      modifies freq, son
      ensures freq[..j + 1] == Join(b).freq && son[..j + 1] == Join(b).son
      ensures freq[T] == old(freq[T])
    {
      hide Insert, Place;
      assert freq[i] == b.freq[i] && freq[i + 1] == b.freq[i + 1];
      var first := freq[i] + freq[i + 1];
      freq[j] := first;
      assert freq[..j] == b.freq;
      assert b.freq[JoinPlace(b) - 1] <= first;
      var k := SeekPlace(j, first, b.freq, JoinPlace(b) - 1);
      InsertAt(freq, k, j, first);
      InsertAt(son, k, j, i);
      assert freq[j + 1..][T - j - 1] == freq[T];
    }

    method JoinPairs(ghost b0: Rows, ghost W: seq<int>)
      requires Allocated() && BuildInv(b0, W) && |b0.son| == N_CHAR
      requires freq[..N_CHAR] == b0.freq && son[..N_CHAR] == b0.son
      modifies freq, son
      ensures freq[..] == Build(b0).freq + [old(freq[T])]
      ensures son[..] == Build(b0).son
    {
      ghost var b := b0;
      var i, j := 0, N_CHAR;
      while j < T
        invariant N_CHAR <= j <= T && i == NextPair(j)
        invariant BuildInv(b, W) && |b.son| == j
        invariant freq[..j] == b.freq && son[..j] == b.son && freq[T] == old(freq[T])
        invariant Build(b) == Build(b0)
      {
        JoinAbove(b, W);
        JoinKeeps(b, W);
        JoinNext(i, j, b);
        b := Join(b);
        i, j := i + 2, j + 1;
      }
    }

    method ConnectParents(ghost p: seq<int>)
      requires Allocated() && Huffman.InRange(son[..]) && prnt[..] == p
      modifies prnt
      ensures prnt[..] == Connect(son[..], p, T)
    {
      for i := 0 to T
        invariant prnt[..] == Connect(son[..], p, i)
      {
        var k := son[i];
        if k >= T {
          prnt[k] := i;
        } else {
          prnt[k] := i;
          prnt[k + 1] := i;
        }
      }
    }

    /** Rebuild the tree from its leaves with their counts halved. */
    method Reconst()
      requires Allocated() && Huffman.Inv(View())
      modifies freq, son, prnt
      ensures View() == Huffman.Rebuild(old(View()))
    {
      ghost var t := View();
      ghost var W := Huffman.Halved(t);
      Huffman.CollectedInv(t);
      CollectLeaves();
      ghost var b0 := Huffman.Collect(t);
      JoinPairs(b0, W);
      BuildKeeps(b0, W);
      Huffman.BuiltRange(Build(b0), W);
      ConnectParents(t.prnt);
    }

    method StartLeaves()
      requires Allocated()
      modifies freq, son, prnt
      ensures freq[..N_CHAR] == Huffman.Ones(N_CHAR) && son[..N_CHAR] == Huffman.Symbols(N_CHAR)
      ensures forall v :: T <= v < T + N_CHAR ==> prnt[v] == v - T
    {
      for i := 0 to N_CHAR
        invariant freq[..i] == Huffman.Ones(i) && son[..i] == Huffman.Symbols(i)
        invariant forall v :: T <= v < T + i ==> prnt[v] == v - T
      {
        freq[i] := 1;
        son[i] := i + T;
        prnt[i + T] := i;
      }
    }

    method StartJoin(i: int, j: int, ghost b: Rows)
      requires Allocated() && Sizes(b) && Huffman.Starting(b) && |b.son| == j <= R && i == NextPair(j)
      requires freq[..j] == b.freq && son[..j] == b.son
      modifies freq, son, prnt
      ensures Huffman.Starting(Join(b))
      ensures freq[..j + 1] == Join(b).freq && son[..j + 1] == Join(b).son
      ensures prnt[..] == old(prnt[..])[i := j][i + 1 := j]
    {
      hide Huffman.Starting, Insert, Place, BuildInv;
      Huffman.JoinAtEnd(b);
      assert freq[i] == b.freq[i] && freq[i + 1] == b.freq[i + 1];
      freq[j] := freq[i] + freq[i + 1];
      son[j] := i;
      prnt[i] := j;
      prnt[i + 1] := j;
    }

    method StartJoins()
      requires Allocated()
      requires freq[..N_CHAR] == Huffman.START_ROWS.freq && son[..N_CHAR] == Huffman.START_ROWS.son
      modifies freq, son, prnt
      ensures freq[..T] == Build(Huffman.START_ROWS).freq && son[..] == Build(Huffman.START_ROWS).son
      ensures prnt[..] == Huffman.StartLinks(old(prnt[..]), T)
    {
      hide Huffman.Starting, Insert, Place, BuildInv, Join, Build;
      ghost var b := Huffman.START_ROWS;
      Huffman.StartInv();
      StartRowsSize();
      var i, j := 0, N_CHAR;
      while j <= R
        invariant N_CHAR <= j <= T && i == NextPair(j) && Sizes(b)
        invariant Huffman.Starting(b) && |b.son| == j
        invariant freq[..j] == b.freq && son[..j] == b.son
        invariant Build(b) == Build(Huffman.START_ROWS)
        invariant prnt[..] == Huffman.StartLinks(old(prnt[..]), j)
      {
        StartJoin(i, j, b);
        BuildNext(b);
        b := Join(b);
        i, j := i + 2, j + 1;
      }
      BuildNext(b);
    }

    /** The start tree, whatever the tables held before. */
    method StartHuff()
      requires Allocated()
      modifies freq, son, prnt
      ensures View() == Huffman.InitialTree()
    {
      StartLeaves();
      ghost var p0 := prnt[..];
      StartJoins();
      freq[T] := SENTINEL;
      prnt[R] := 0;
      assert freq[..T] == Build(Huffman.START_ROWS).freq;
      Huffman.InitialLinks(p0, prnt[..]);
    }
  }
}
