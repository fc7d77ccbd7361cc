/**
  The index over the LZSS window: 256 binary search trees, one for each first byte, whose nodes
  are window positions ordered by the F bytes that start there.  Here the trees are values; the
  arrays lson, rson and dad that hold them are related to them by `Rep`.
 */
module Forest {
  import opened Bytes

  const N := 2048
  const F := 60
  const THRESHOLD := 2
  const NIL := N
  const TEXT_SIZE := N + F - 1
  const ROOT := N + 1

  predicate IsPos(p: int) { 0 <= p < N }

  // ----- keys -----

  /** How many bytes agree from offset `i` on, seen from the start. */
  function Lcp(u: seq<byte>, v: seq<byte>, i: nat): (n: nat)
    requires |u| == |v| && i <= |u|
    ensures i <= n <= |u|
    ensures forall j :: i <= j < n ==> u[j] == v[j]
    ensures n < |u| ==> u[n] != v[n]
    decreases |u| - i
  {
    if i < |u| && u[i] == v[i] then Lcp(u, v, i + 1) else i
  }

  function Common(u: seq<byte>, v: seq<byte>): nat
    requires |u| == |v|
  {
    Lcp(u, v, 0)
  }

  predicate Before(u: seq<byte>, v: seq<byte>)
    requires |u| == |v|
  {
    var n := Common(u, v);
    n < |u| && u[n] < v[n]
  }

  /** Strings are ordered by the first byte in which they differ. */
  lemma BeforeIs(u: seq<byte>, v: seq<byte>)
    requires |u| == |v|
    ensures Before(u, v) <==> exists n: nat :: n < |u| && u[..n] == v[..n] && u[n] < v[n]
  {
    var c := Common(u, v);
    assert u[..c] == v[..c];
    if n: nat :| n < |u| && u[..n] == v[..n] && u[n] < v[n] {
      assert forall j :: 0 <= j < n ==> u[j] == u[..n][j] == v[j];
      CommonIs(u, v, n);
    }
  }

  lemma CommonIs(u: seq<byte>, v: seq<byte>, n: nat)
    requires |u| == |v| && n <= |u|
    requires forall j :: 0 <= j < n ==> u[j] == v[j]
    requires n < |u| ==> u[n] != v[n]
    ensures Common(u, v) == n
  {
  }

  lemma CommonSymmetric(u: seq<byte>, v: seq<byte>)
    requires |u| == |v|
    ensures Common(u, v) == Common(v, u)
  {
    CommonIs(v, u, Common(u, v));
  }

  lemma BeforeTransitive(u: seq<byte>, v: seq<byte>, w: seq<byte>)
    requires |u| == |v| == |w| && Before(u, v) && Before(v, w)
    ensures Before(u, w)
  {
    var m, n := Common(u, v), Common(v, w);
    CommonIs(u, w, if m < n then m else n);
  }

  lemma Trichotomy(u: seq<byte>, v: seq<byte>)
    requires |u| == |v|
    ensures Common(u, v) == |u| || Before(u, v) != Before(v, u)
    ensures Common(u, v) == |u| <==> u == v
  {
    CommonSymmetric(u, v);
    var n := Common(u, v);
  }

  /** Beyond a key on the far side of `w`, no key agrees with `w` for longer than that key does. */
  lemma NearerAgreesLonger(x: seq<byte>, p: seq<byte>, w: seq<byte>)
    requires |x| == |p| == |w|
    requires (Before(x, p) && Before(p, w)) || (Before(w, p) && Before(p, x))
    ensures Common(w, x) <= Common(w, p)
  {
    CommonSymmetric(p, w);
    CommonSymmetric(x, p);
    var n := Common(w, p);
    if Common(w, x) > n {
      CommonIs(x, p, n);
    }
  }

  /** The key of a window position: the F bytes that start there. */
  function Key(text: seq<byte>, p: int): (k: seq<byte>)
    requires |text| == TEXT_SIZE && IsPos(p)
    ensures |k| == F
  {
    text[p..p + F]
  }

  function Match(text: seq<byte>, a: int, b: int): (n: nat)
    requires |text| == TEXT_SIZE && IsPos(a) && IsPos(b)
    ensures n <= F
  {
    Common(Key(text, a), Key(text, b))
  }

  predicate Less(text: seq<byte>, a: int, b: int)
    requires |text| == TEXT_SIZE && IsPos(a) && IsPos(b)
  {
    Before(Key(text, a), Key(text, b))
  }

  // ----- trees of positions -----

  datatype BT = Leaf | Node(l: BT, p: int, r: BT)

  function Elements(t: BT): set<int> {
    match t
    case Leaf => {}
    case Node(l, p, r) => Elements(l) + {p} + Elements(r)
  }

  /** Positions only, in search order, without two equal keys. */
  ghost predicate Bst(text: seq<byte>, t: BT)
    requires |text| == TEXT_SIZE
  {
    match t
    case Leaf => true
    case Node(l, p, r) =>
      && IsPos(p)
      && (forall x :: x in Elements(l) ==> IsPos(x) && Less(text, x, p))
      && (forall x :: x in Elements(r) ==> IsPos(x) && Less(text, p, x))
      && Bst(text, l) && Bst(text, r)
  }

  // ----- the arrays -----

  datatype Links = Links(lson: seq<int>, rson: seq<int>, dad: seq<int>)

  predicate Sized(a: Links) {
    |a.lson| == N + 1 && |a.rson| == N + 258 && |a.dad| == N + 1
  }

  /** The arrays hold tree `t` below `parent`, with `idx` in the pointer to it. */
  ghost predicate Rep(a: Links, t: BT, idx: int, parent: int)
    requires Sized(a)
  {
    match t
    case Leaf => idx == NIL
    case Node(l, p, r) =>
      && idx == p && IsPos(p) && a.dad[p] == parent
      && Rep(a, l, a.lson[p], p) && Rep(a, r, a.rson[p], p)
  }

  lemma {:induction false} RepFrame(a: Links, b: Links, t: BT, idx: int, parent: int)
    requires Sized(a) && Sized(b) && Rep(a, t, idx, parent)
    requires forall x :: x in Elements(t) ==> IsPos(x) && a.lson[x] == b.lson[x] && a.rson[x] == b.rson[x] && a.dad[x] == b.dad[x]
    ensures Rep(b, t, idx, parent)
  {
    match t
    case Leaf =>
    case Node(l, p, r) =>
      RepFrame(a, b, l, a.lson[p], p);
      RepFrame(a, b, r, a.rson[p], p);
  }

  // ----- insertion -----

  /** Put `r` at its place, or in place of the node with the same key. */
  function InsertT(text: seq<byte>, t: BT, r: int): BT
    requires |text| == TEXT_SIZE && IsPos(r) && forall x :: x in Elements(t) ==> IsPos(x)
  {
    match t
    case Leaf => Node(Leaf, r, Leaf)
    case Node(L, p, R) =>
      if Match(text, r, p) == F then Node(L, r, R)
      else if Less(text, r, p) then Node(InsertT(text, L, r), p, R)
      else Node(L, p, InsertT(text, R, r))
  }

  /** Where the descent for `r` ends: below `at` on the right or left, or at the node `at` of the same key. */
  datatype End = Attach(at: int, right: bool) | Replace(at: int)

  function Descend(text: seq<byte>, t: BT, r: int, parent: int, right: bool): End
    requires |text| == TEXT_SIZE && IsPos(r) && forall x :: x in Elements(t) ==> IsPos(x)
  {
    match t
    case Leaf => Attach(parent, right)
    case Node(L, p, R) =>
      if Match(text, r, p) == F then Replace(p)
      else if Less(text, r, p) then Descend(text, L, r, p, false)
      else Descend(text, R, r, p, true)
  }

  lemma BstDisjoint(text: seq<byte>, t: BT)
    requires |text| == TEXT_SIZE && t.Node? && Bst(text, t)
    ensures t.p !in Elements(t.l) && t.p !in Elements(t.r) && Elements(t.l) !! Elements(t.r)
  {
    forall x | x in Elements(t.l) ensures x != t.p && x !in Elements(t.r) {
      Trichotomy(Key(text, x), Key(text, t.p));
    }
    forall x | x in Elements(t.r) ensures x != t.p {
      Trichotomy(Key(text, x), Key(text, t.p));
    }
  }

  lemma {:induction false} BstPositions(text: seq<byte>, t: BT)
    requires |text| == TEXT_SIZE && Bst(text, t)
    ensures forall x :: x in Elements(t) ==> IsPos(x)
  {
  }

  lemma {:induction false} ReplaceInside(text: seq<byte>, t: BT, r: int, parent: int, right: bool)
    requires |text| == TEXT_SIZE && IsPos(r) && Bst(text, t)
    ensures forall x :: x in Elements(t) ==> IsPos(x)
    ensures var e := Descend(text, t, r, parent, right);
      e.Replace? ==> e.at in Elements(t) && Key(text, e.at) == Key(text, r)
  {
    match t
    case Leaf =>
    case Node(L, p, R) =>
      Trichotomy(Key(text, r), Key(text, p));
      ReplaceInside(text, L, r, p, false);
      ReplaceInside(text, R, r, p, true);
  }

  ghost function Dropped(e: End): set<int> {
    if e.Replace? then {e.at} else {}
  }

  lemma GrowSide(a: set<int>, a': set<int>, p: int, b: set<int>, d: set<int>, r: int)
    requires a' == a - d + {r} && d <= a && p !in a && a !! b
    ensures a' + {p} + b == a + {p} + b - d + {r}
    ensures b + {p} + a' == b + {p} + a - d + {r}
  {
  }

  /** Inserting adds `r`, and drops the node it replaces and nothing else. */
  lemma {:induction false} InsertElements(text: seq<byte>, t: BT, r: int, parent: int, right: bool)
    requires |text| == TEXT_SIZE && IsPos(r) && Bst(text, t) && r !in Elements(t)
    ensures forall x :: x in Elements(t) ==> IsPos(x)
    ensures Elements(InsertT(text, t, r)) == Elements(t) - Dropped(Descend(text, t, r, parent, right)) + {r}
    decreases t
  {
    if t.Node? {
      var p := t.p;
      BstPositions(text, t);
      BstDisjoint(text, t);
      if Match(text, r, p) == F {
        assert Elements(Node(t.l, r, t.r)) == Elements(t.l) + {r} + Elements(t.r);
      } else if Less(text, r, p) {
        ReplaceInside(text, t.l, r, p, false);
        InsertElements(text, t.l, r, p, false);
        GrowSide(Elements(t.l), Elements(InsertT(text, t.l, r)), p, Elements(t.r), Dropped(Descend(text, t.l, r, p, false)), r);
      } else {
        ReplaceInside(text, t.r, r, p, true);
        InsertElements(text, t.r, r, p, true);
        GrowSide(Elements(t.r), Elements(InsertT(text, t.r, r)), p, Elements(t.l), Dropped(Descend(text, t.r, r, p, true)), r);
      }
    }
  }

  lemma {:induction false} InsertBst(text: seq<byte>, t: BT, r: int)
    requires |text| == TEXT_SIZE && IsPos(r) && Bst(text, t) && r !in Elements(t)
    ensures forall x :: x in Elements(t) ==> IsPos(x)
    ensures Bst(text, InsertT(text, t, r))
    decreases t
  {
    if t.Node? {
      var p := t.p;
      BstPositions(text, t);
      Trichotomy(Key(text, r), Key(text, p));
      if Match(text, r, p) == F {
        SameKey(text, t, r);
      } else if Less(text, r, p) {
        InsertBst(text, t.l, r);
        InsertElements(text, t.l, r, p, false);
      } else {
        InsertBst(text, t.r, r);
        InsertElements(text, t.r, r, p, true);
      }
    }
  }

  lemma SameKey(text: seq<byte>, t: BT, r: int)
    requires |text| == TEXT_SIZE && IsPos(r) && t.Node? && Bst(text, t) && Key(text, r) == Key(text, t.p)
    ensures Bst(text, Node(t.l, r, t.r))
  {
  }

  // ----- searching -----

  /** The longest match with `r` among the nodes the descent visits. */
  function BestOnPath(text: seq<byte>, t: BT, r: int): (n: nat)
    requires |text| == TEXT_SIZE && IsPos(r) && forall x :: x in Elements(t) ==> IsPos(x)
    ensures n <= F
  {
    match t
    case Leaf => 0
    case Node(L, p, R) =>
      var m := Match(text, r, p);
      if m == F then F
      else
        var n := if Less(text, r, p) then BestOnPath(text, L, r) else BestOnPath(text, R, r);
        if m < n then n else m
  }

  /** The nodes the descent does not visit match no better than those it does. */
  lemma {:induction false} PathSuffices(text: seq<byte>, t: BT, r: int, x: int)
    requires |text| == TEXT_SIZE && IsPos(r) && Bst(text, t) && x in Elements(t)
    ensures forall x :: x in Elements(t) ==> IsPos(x)
    ensures Match(text, r, x) <= BestOnPath(text, t, r)
    decreases t
  {
    BstPositions(text, t);
    var p := t.p;
    Trichotomy(Key(text, r), Key(text, p));
    if Match(text, r, p) < F && x != p {
      if x in Elements(t.l) {
        if Less(text, r, p) { PathSuffices(text, t.l, r, x); }
        else { NearerAgreesLonger(Key(text, x), Key(text, p), Key(text, r)); }
      } else {
        if Less(text, r, p) { NearerAgreesLonger(Key(text, x), Key(text, p), Key(text, r)); }
        else { PathSuffices(text, t.r, r, x); }
      }
    }
  }
}
