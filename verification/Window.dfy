/**
  The LZSS window: the text ring with its mirrored first bytes, and the index over it, in the
  arrays the codec uses.
 */
module Window {
  import opened Bytes
  import opened Forest
  import opened ForestLinks
  import opened ForestOps

  /** How far back position `p` is from `r`, as the codec codes it. */
  function Distance(r: int, p: int): int { (r - p) % N - 1 }

  /** The match the descent reports, given the best one before: longest, and nearest among the visited. */
  function Search(text: seq<byte>, t: BT, r: int, len: int, pos: int): (int, int)
    requires |text| == TEXT_SIZE && IsPos(r) && forall x :: x in Elements(t) ==> IsPos(x)
  {
    match t
    case Leaf => (len, pos)
    case Node(L, p, R) =>
      var (len1, pos1) := Better(Match(text, r, p), Distance(r, p), len, pos);
      if Match(text, r, p) == F then (len1, pos1)
      else Search(text, if Less(text, r, p) then L else R, r, len1, pos1)
  }

  function Better(m: int, d: int, len: int, pos: int): (int, int) {
    if m > THRESHOLD && (m > len || (m == len && d < pos)) then (m, d) else (len, pos)
  }

  /** The reported match is the longest of the whole tree, and the position reported achieves it. */
  lemma {:induction false} SearchFinds(text: seq<byte>, t: BT, r: int, len: int, pos: int)
    requires |text| == TEXT_SIZE && IsPos(r) && len >= 0 && forall x :: x in Elements(t) ==> IsPos(x)
    ensures var (n, d) := Search(text, t, r, len, pos); var b := BestOnPath(text, t, r);
      && n == (if b > len && b > THRESHOLD then b else len)
      && ((n, d) == (len, pos) || exists x :: x in Elements(t) && Match(text, r, x) == n && d == Distance(r, x))
    decreases t
  {
    match t
    case Leaf =>
    case Node(L, p, R) =>
      var (len1, pos1) := Better(Match(text, r, p), Distance(r, p), len, pos);
      if Match(text, r, p) < F {
        SearchFinds(text, if Less(text, r, p) then L else R, r, len1, pos1);
      }
  }

  /** The descent for `r` visits `x`. */
  ghost predicate OnWay(text: seq<byte>, t: BT, r: int, x: int)
    requires |text| == TEXT_SIZE && IsPos(r) && forall y :: y in Elements(t) ==> IsPos(y)
  {
    match t
    case Leaf => false
    case Node(L, p, R) => x == p || (Match(text, r, p) < F && OnWay(text, if Less(text, r, p) then L else R, r, x))
  }

  lemma {:induction false} OnWayInside(text: seq<byte>, t: BT, r: int, x: int)
    requires |text| == TEXT_SIZE && IsPos(r) && (forall y :: y in Elements(t) ==> IsPos(y)) && OnWay(text, t, r, x)
    ensures x in Elements(t) && IsPos(x)
    decreases t
  {
    if x != t.p { OnWayInside(text, if Less(text, r, t.p) then t.l else t.r, r, x); }
  }

  /** Of the positions visited none matches for longer than what is reported, or for longer than 2, and of those that match
      as long none is nearer than the distance reported. */
  lemma {:induction false} SearchNearest(text: seq<byte>, t: BT, r: int, len: int, pos: int, x: int)
    requires |text| == TEXT_SIZE && IsPos(r) && (forall y :: y in Elements(t) ==> IsPos(y)) && OnWay(text, t, r, x)
    ensures IsPos(x)
    ensures var ((n, d), m) := (Search(text, t, r, len, pos), Match(text, r, x)); m > 2 ==> m < n || (m == n && d <= Distance(r, x))
    decreases t
  {
    hide Match, Less, Distance;
    OnWayInside(text, t, r, x);
    var (len1, pos1) := Better(Match(text, r, t.p), Distance(r, t.p), len, pos);
    if Match(text, r, t.p) < F {
      var next := if Less(text, r, t.p) then t.l else t.r;
      SearchImproves(text, next, r, len1, pos1);
      if x != t.p { SearchNearest(text, next, r, len1, pos1, x); }
    }
  }

  /** What is reported is no shorter than the match before, and no farther if it is as long. */
  lemma {:induction false} SearchImproves(text: seq<byte>, t: BT, r: int, len: int, pos: int)
    requires |text| == TEXT_SIZE && IsPos(r) && forall y :: y in Elements(t) ==> IsPos(y)
    ensures var (n, d) := Search(text, t, r, len, pos); n > len || (n == len && d <= pos)
    decreases t
  {
    hide Match, Less, Distance;
    if t.Node? {
      var (len1, pos1) := Better(Match(text, r, t.p), Distance(r, t.p), len, pos);
      if Match(text, r, t.p) < F { SearchImproves(text, if Less(text, r, t.p) then t.l else t.r, r, len1, pos1); }
    }
  }

  /** On the way down: `cur` is what hangs on the chosen side of `p`, and the rest of the descent is in it. */
  ghost predicate Descending(text: seq<byte>, a: Links, t: BT, r: int, cur: BT, p: int, right: bool) {
    match a case Links(ls, rs, dd) =>
      && |text| == TEXT_SIZE && Sized(a) && IsPos(r)
      && (IsPos(p) || (right && p == ROOT + text[r]))
      && Rep(a, cur, if right then rs[p] else ls[p], p)
      && (forall x :: x in Elements(cur) ==> IsPos(x) && text[x] == text[r])
      && (forall x :: x in Elements(t) ==> IsPos(x))
      && Descend(text, cur, r, p, right) == Descend(text, t, r, ROOT + text[r], true)
  }

  lemma StartDescent(text: seq<byte>, a: Links, t: BT, r: int)
    requires |text| == TEXT_SIZE && Sized(a) && IsPos(r) && TreeOk(text, a, t, text[r])
    ensures Descending(text, a, t, r, t, ROOT + text[r], true)
  {
  }

  lemma DescendEnd(text: seq<byte>, a: Links, t: BT, r: int, cur: BT, p: int, right: bool)
    requires Descending(text, a, t, r, cur, p, right) && (if right then a.rson[p] else a.lson[p]) == NIL
    ensures cur == Leaf && DescendsTo(text, t, r, Attach(p, right))
  {
  }

  /** One step down: to the node it leads to, and to its side for `r` unless the keys are equal. */
  lemma DescendNext(text: seq<byte>, a: Links, t: BT, r: int, cur: BT, p: int, right: bool, q: int)
    requires Descending(text, a, t, r, cur, p, right) && q == (if right then a.rson[p] else a.lson[p]) != NIL
    ensures cur.Node? && cur.p == q && IsPos(q) && text[q] == text[r]
    ensures Match(text, r, q) == F ==> DescendsTo(text, t, r, Replace(q))
    ensures Match(text, r, q) < F && Less(text, r, q) ==> Descending(text, a, t, r, cur.l, q, false)
    ensures Match(text, r, q) < F && !Less(text, r, q) ==> Descending(text, a, t, r, cur.r, q, true)
  {
  }

  /** Only positions are in the tree, and they can be compared with `r`. */
  ghost predicate Known(text: seq<byte>, t: BT, r: int) {
    |text| == TEXT_SIZE && IsPos(r) && forall x :: x in Elements(t) ==> IsPos(x)
  }

  lemma SearchLeaf(text: seq<byte>, r: int, len: int, pos: int)
    requires |text| == TEXT_SIZE && IsPos(r)
    ensures Search(text, Leaf, r, len, pos) == (len, pos)
  {
  }

  /** One node of the search. */
  lemma SearchNode(text: seq<byte>, t: BT, r: int, len: int, pos: int)
    requires Known(text, t, r) && t.Node? && 0 <= len < F
    ensures IsPos(t.p) && Known(text, t.l, r) && Known(text, t.r, r)
    ensures var (n, d) := Better(Match(text, r, t.p), Distance(r, t.p), len, pos);
      && Search(text, t, r, len, pos)
         == (if Match(text, r, t.p) == F then (n, d) else Search(text, if Less(text, r, t.p) then t.l else t.r, r, n, d))
      && 0 <= n && (Match(text, r, t.p) < F ==> n < F)
  {
    hide Less, Match;
  }

  lemma DescendBounds(text: seq<byte>, a: Links, t: BT, r: int, cur: BT, p: int, right: bool)
    requires Descending(text, a, t, r, cur, p, right)
    ensures |text| == TEXT_SIZE && Sized(a) && IsPos(r) && 0 <= p < N + 258 && (!right ==> p <= N)
    ensures Known(text, cur, r) && Known(text, t, r)
  {
    hide Rep, Bst, Less, Match, Descend;
  }

  class Index {
    const textBuf: array<byte>
    const lson: array<int>
    const rson: array<int>
    const dad: array<int>
    var matchPosition: int
    var matchLength: int
    ghost var trees: seq<BT>

    ghost predicate Allocated() {
      && textBuf.Length == TEXT_SIZE && lson.Length == N + 1 && rson.Length == N + 258 && dad.Length == N + 1
      && lson != rson && lson != dad && rson != dad
    }

    ghost function Arrays(): Links
      reads lson, rson, dad
    {
      Links(lson[..], rson[..], dad[..])
    }

    ghost predicate Valid()
      reads this, textBuf, lson, rson, dad
    {
      Allocated() && ForestOk(textBuf[..], Arrays(), trees)
    }

    constructor ()
      ensures Allocated() && fresh(textBuf) && fresh(lson) && fresh(rson) && fresh(dad)
    {
      textBuf := new byte[TEXT_SIZE];
      lson := new int[N + 1];
      rson := new int[N + 258];
      dad := new int[N + 1];
    }

    /** The empty index, whatever the arrays held before. */
    method InitTree()
      requires Allocated()
      modifies rson, dad, this`trees
      ensures Valid() && trees == seq(256, _ => Leaf)
      ensures forall p :: IsPos(p) ==> dad[p] == NIL
    {
      for i := N + 1 to N + 258
        invariant forall k :: N + 1 <= k < i ==> rson[k] == NIL
      {
        rson[i] := NIL;
      }
      for i := 0 to N
        invariant forall k :: 0 <= k < i ==> dad[k] == NIL
        invariant forall k :: N + 1 <= k < N + 258 ==> rson[k] == NIL
      {
        dad[i] := NIL;
      }
      trees := seq(256, _ => Leaf);
    }

    /** Compare two keys of the same first byte: how far they agree, and the sign of the first difference. */
    method Compare(r: int, p: int) returns (i: int, cmp: int)
      requires Allocated() && IsPos(r) && IsPos(p) && textBuf[r] == textBuf[p]
      ensures i == Match(textBuf[..], r, p)
      ensures cmp < 0 <==> Less(textBuf[..], r, p)
      ensures cmp == 0 <==> i == F
    {
      ghost var u, v := Key(textBuf[..], r), Key(textBuf[..], p);
      i, cmp := 1, 0;
      assert u[0] == v[0];
      while i < F
        invariant 1 <= i <= F && cmp == 0
        invariant Lcp(u, v, i) == Common(u, v)
      {
        cmp := textBuf[r + i] as int - textBuf[p + i] as int;
        assert u[i] == textBuf[r + i] && v[i] == textBuf[p + i];
        if cmp != 0 { break; }
        i := i + 1;
      }
    }

    /** Take note of a match of length `i` at `p`; `full` says that it is as long as a match can be. */
    method KeepBest(r: int, p: int, i: int) returns (full: bool)
      requires 0 <= i <= F && matchLength < F
      modifies this`matchPosition, this`matchLength
      ensures (matchLength, matchPosition) == old(Better(i, Distance(r, p), matchLength, matchPosition))
      ensures full <==> i == F
    {
      full := false;
      if i > THRESHOLD {
        if i > matchLength {
          matchPosition := (r - p) % N - 1;
          matchLength := i;
          if matchLength >= F {
            full := true;
            return;
          }
        }
        if i == matchLength {
          var c := (r - p) % N - 1;
          if c < matchPosition {
            matchPosition := c;
          }
        }
      }
    }

    /** Walk down from the root of the tree for the first byte of `r`, keeping the best match. */
    method FindPlace(r: int) returns (p: int, cmp: int, full: bool)
      requires Valid() && IsPos(r)
      modifies this`matchPosition, this`matchLength
      ensures var t := trees[textBuf[r]];
        && DescendsTo(textBuf[..], t, r, if full then Replace(p) else Attach(p, cmp >= 0))
        && (matchLength, matchPosition) == Search(textBuf[..], t, r, 0, old(matchPosition))
    {
      hide Search, Descend, Rep, Bst, Less, Better, Descending, DescendsTo, Match;
      ghost var text, a := textBuf[..], Arrays();
      var c := textBuf[r];
      ghost var t := trees[c];
      ghost var cur := t;
      assert TreeOk(text, a, t, c);
      StartDescent(text, a, t, r);
      p, cmp, full := ROOT + c, 1, false;
      matchLength := 0;
      while true
        invariant Descending(text, a, t, r, cur, p, cmp >= 0)
        invariant !full && 0 <= matchLength < F
        invariant Known(text, cur, r) && Known(text, t, r)
        invariant Search(text, cur, r, matchLength, matchPosition) == Search(text, t, r, 0, old(matchPosition))
        decreases cur
      {
        ghost var right := cmp >= 0;
        DescendBounds(text, a, t, r, cur, p, right);
        if cmp >= 0 {
          if rson[p] == NIL {
            DescendEnd(text, a, t, r, cur, p, right);
            SearchLeaf(text, r, matchLength, matchPosition);
            return;
          }
          DescendNext(text, a, t, r, cur, p, right, rson[p]);
          p := rson[p];
        } else {
          if lson[p] == NIL {
            DescendEnd(text, a, t, r, cur, p, right);
            SearchLeaf(text, r, matchLength, matchPosition);
            return;
          }
          DescendNext(text, a, t, r, cur, p, right, lson[p]);
          p := lson[p];
        }
        var i;
        i, cmp := Compare(r, p);
        SearchNode(text, cur, r, matchLength, matchPosition);
        full := KeepBest(r, p, i);
        if full { return; }
        cur := if cmp < 0 then cur.l else cur.r;
      }
    }

    /** Put position `r` into the index and report the longest match with a position already there. */
    method InsertNode(r: int)
      requires Valid() && IsPos(r) && dad[r] == NIL
      modifies lson, rson, dad, this`matchPosition, this`matchLength, this`trees
      ensures Valid()
      ensures var c := textBuf[r]; var t := old(trees)[c];
        && (forall x :: x in Elements(t) ==> IsPos(x))
        && trees == old(trees)[c := InsertT(textBuf[..], t, r)]
        && (matchLength, matchPosition) == Search(textBuf[..], t, r, 0, old(matchPosition))
    {
      ghost var text := textBuf[..];
      var c := textBuf[r];
      Unregistered(text, Arrays(), Arrays().(lson := lson[..][r := NIL], rson := rson[..][r := NIL]), trees, r);
      rson[r] := NIL;
      lson[r] := NIL;
      var p, cmp, full := FindPlace(r);
      ghost var e := if full then Replace(p) else Attach(p, cmp >= 0);
      InsertKeeps(text, Arrays(), trees, r, e);
      LinkIn(r, p, cmp, full);
      trees := trees[c := InsertT(text, trees[c], r)];
    }

    method LinkIn(r: int, p: int, cmp: int, full: bool)
      requires Allocated() && Linkable(Arrays(), r, if full then Replace(p) else Attach(p, cmp >= 0))
      requires lson[r] == NIL && rson[r] == NIL
      modifies lson, rson, dad
      ensures Arrays() == old(Linked(Arrays(), r, if full then Replace(p) else Attach(p, cmp >= 0)))
    {
      if full {
        Substitute(r, p);
      } else {
        assert lson[..][r := NIL] == lson[..] && rson[..][r := NIL] == rson[..];
        if cmp >= 0 { rson[p] := r; } else { lson[p] := r; }
        dad[r] := p;
      }
    }

    /** `r` takes the place of `p`: both its sides, and the pointer to it. */
    method Substitute(r: int, p: int)
      requires Allocated() && Linkable(Arrays(), r, Replace(p))
      modifies lson, rson, dad
      ensures Arrays() == old(Displace(Adopt(Arrays(), r, p), p, r))
    {
      dad[r] := dad[p];
      lson[r] := lson[p];
      rson[r] := rson[p];
      dad[lson[p]] := r;
      dad[rson[p]] := r;
      if rson[dad[p]] == p {
        rson[dad[p]] := r;
      } else {
        lson[dad[p]] := r;
      }
      dad[p] := NIL;
    }

    /** The largest position on the left of `p`. */
    method Rightmost(p: int, ghost L: BT) returns (q: int)
      requires Allocated() && IsPos(p) && L.Node? && Separate(L) && Rep(Arrays(), L, lson[p], p) && rson[lson[p]] != NIL
      ensures q == Max(L)
    {
      ghost var a := Arrays();
      ghost var cur := L;
      q := lson[p];
      while rson[q] != NIL
        invariant cur.Node? && IsPos(q) && cur.p == q && Max(cur) == Max(L)
        invariant Rep(a, cur.r, rson[q], q)
        decreases cur
      {
        q := rson[q];
        cur := cur.r;
      }
    }

    /** Hand over the sides of `p`; the node `q` is to take its place. */
    method DetachSides(p: int, ghost s: BT) returns (q: int)
      requires Allocated() && Unlinkable(Arrays(), s) && s.p == p
      modifies lson, rson, dad
      ensures (Arrays(), q) == old(Detach(Arrays(), p, Heir(s)))
    {
      if rson[p] == NIL {
        q := lson[p];
      } else if lson[p] == NIL {
        q := rson[p];
      } else {
        assert s.l.Node?;
        q := lson[p];
        if rson[q] != NIL {
          q := Rightmost(p, s.l);
          rson[dad[q]] := lson[q];
          dad[lson[q]] := dad[q];
          lson[q] := lson[p];
          dad[lson[p]] := q;
        } else {
          assert Rep(Arrays(), s.l.r, rson[q], q);
          MaxAtRoot(s.l);
        }
        rson[q] := rson[p];
        dad[rson[p]] := q;
      }
    }

    method Unlink(p: int, ghost s: BT)
      requires Allocated() && Unlinkable(Arrays(), s) && s.p == p
      modifies lson, rson, dad
      ensures Arrays() == old(Unlinked(Arrays(), s))
    {
      var q := DetachSides(p, s);
      dad[q] := dad[p];
      if rson[dad[p]] == p {
        rson[dad[p]] := q;
      } else {
        lson[dad[p]] := q;
      }
      dad[p] := NIL;
    }

    /** Take position `p` out of the index, if it is there. */
    method DeleteNode(p: int)
      requires Valid() && IsPos(p)
      modifies lson, rson, dad, this`trees
      ensures Valid()
      ensures var c := textBuf[p]; var t := old(trees)[c];
        trees == if p in Elements(t) then old(trees)[c := DeleteT(t, p)] else old(trees)
    {
      ghost var text, a, c := textBuf[..], Arrays(), textBuf[p];
      NodeTree(text, a, trees, p);
      if dad[p] == NIL { return; }
      DeleteKeeps(text, a, trees, p);
      Unlink(p, SubAt(trees[c], p));
      trees := trees[c := DeleteT(trees[c], p)];
    }
  }
}
