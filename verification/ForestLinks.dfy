/**
  Changing the arrays that hold a search tree: putting another tree in place of a subtree, and
  from that insertion and deletion as the codec does them.
 */
module ForestLinks {
  import opened Bytes
  import opened Forest

  /** No position occurs twice. */
  ghost predicate Separate(t: BT) {
    match t
    case Leaf => true
    case Node(l, p, r) =>
      && IsPos(p) && p !in Elements(l) && p !in Elements(r) && Elements(l) !! Elements(r)
      && Separate(l) && Separate(r)
  }

  lemma {:induction false} BstSeparate(text: seq<byte>, t: BT)
    requires |text| == TEXT_SIZE && Bst(text, t)
    ensures Separate(t)
  {
    if t.Node? {
      BstDisjoint(text, t);
      BstSeparate(text, t.l);
      BstSeparate(text, t.r);
    }
  }

  function SubAt(t: BT, p: int): (s: BT)
    requires p in Elements(t)
    ensures s.Node? && s.p == p && Elements(s) <= Elements(t)
  {
    if t.p == p then t
    else if p in Elements(t.l) then SubAt(t.l, p)
    else SubAt(t.r, p)
  }

  /** `s` in place of the subtree at `p`. */
  function Subst(t: BT, p: int, s: BT): BT
    requires p in Elements(t)
  {
    if t.p == p then s
    else if p in Elements(t.l) then Node(Subst(t.l, p, s), t.p, t.r)
    else Node(t.l, t.p, Subst(t.r, p, s))
  }

  lemma SwapPart(a: set<int>, o: set<int>, n: set<int>, p: int, b: set<int>)
    requires o <= a && p !in a && a !! b
    ensures (a - o + n) + {p} + b == a + {p} + b - o + n
    ensures b + {p} + (a - o + n) == b + {p} + a - o + n
  {
  }

  lemma {:induction false} SubstElements(t: BT, p: int, s: BT)
    requires Separate(t) && p in Elements(t)
    ensures Elements(Subst(t, p, s)) == Elements(t) - Elements(SubAt(t, p)) + Elements(s)
    decreases t
  {
    if t.p == p {
    } else if p in Elements(t.l) {
      SubstElements(t.l, p, s);
      SwapPart(Elements(t.l), Elements(SubAt(t.l, p)), Elements(s), t.p, Elements(t.r));
    } else {
      SubstElements(t.r, p, s);
      SwapPart(Elements(t.r), Elements(SubAt(t.r, p)), Elements(s), t.p, Elements(t.l));
    }
  }

  lemma {:induction false} SeparateSub(t: BT, p: int)
    requires Separate(t) && p in Elements(t)
    ensures Separate(SubAt(t, p))
    decreases t
  {
    if t.p == p {
    } else if p in Elements(t.l) { SeparateSub(t.l, p); }
    else { SeparateSub(t.r, p); }
  }

  lemma {:induction false} SubstSeparate(t: BT, p: int, s: BT)
    requires Separate(t) && p in Elements(t) && Separate(s) && Elements(s) <= Elements(SubAt(t, p))
    ensures Separate(Subst(t, p, s)) && Elements(Subst(t, p, s)) <= Elements(t)
    decreases t
  {
    if t.p == p {
    } else if p in Elements(t.l) { SubstSeparate(t.l, p, s); }
    else { SubstSeparate(t.r, p, s); }
  }

  lemma {:induction false} SubAtFacts(text: seq<byte>, t: BT, p: int)
    requires |text| == TEXT_SIZE && Bst(text, t) && p in Elements(t)
    ensures Bst(text, SubAt(t, p))
    decreases t
  {
    if t.p == p {
    } else if p in Elements(t.l) { SubAtFacts(text, t.l, p); }
    else { SubAtFacts(text, t.r, p); }
  }

  /** A search tree stays one when a subtree gives way to a search tree of some of its nodes. */
  lemma {:induction false} SubstBst(text: seq<byte>, t: BT, p: int, s: BT)
    requires |text| == TEXT_SIZE && Bst(text, t) && p in Elements(t)
    requires Bst(text, s) && Elements(s) <= Elements(SubAt(t, p))
    ensures Bst(text, Subst(t, p, s))
    ensures Elements(Subst(t, p, s)) <= Elements(t)
    decreases t
  {
    if t.p == p {
    } else if p in Elements(t.l) { SubstBst(text, t.l, p, s); }
    else { SubstBst(text, t.r, p, s); }
  }

  // ----- the arrays -----

  /** Pointers and parents of a node stay inside the tree. */
  lemma {:induction false} RepInside(a: Links, t: BT, idx: int, parent: int, x: int)
    requires Sized(a) && Rep(a, t, idx, parent) && x in Elements(t)
    ensures IsPos(x)
    ensures a.lson[x] == NIL || a.lson[x] in Elements(t)
    ensures a.rson[x] == NIL || a.rson[x] in Elements(t)
    ensures a.dad[x] == (if x == idx then parent else a.dad[x])
    ensures x == idx || a.dad[x] in Elements(t)
    decreases t
  {
    if x == t.p {
    } else if x in Elements(t.l) { RepInside(a, t.l, a.lson[t.p], t.p, x); }
    else { RepInside(a, t.r, a.rson[t.p], t.p, x); }
  }

  lemma {:induction false} RepSubAt(a: Links, t: BT, idx: int, parent: int, p: int)
    requires Sized(a) && Rep(a, t, idx, parent) && p in Elements(t)
    ensures IsPos(p) && Rep(a, SubAt(t, p), p, a.dad[p])
    decreases t
  {
    if p == t.p {
    } else if p in Elements(t.l) { RepSubAt(a, t.l, a.lson[t.p], t.p, p); }
    else { RepSubAt(a, t.r, a.rson[t.p], t.p, p); }
  }

  function Redirect(x: int, p: int, q: int): int { if x == p then q else x }

  /** `b` differs from `a` at the nodes of `s` only in the pointer to `p`, which is now `q`. */
  ghost predicate Grafted(a: Links, b: Links, s: set<int>, p: int, q: int)
    requires Sized(a) && Sized(b)
  {
    forall x :: x in s ==>
      IsPos(x) && b.dad[x] == a.dad[x]
      && b.lson[x] == Redirect(a.lson[x], p, q) && b.rson[x] == Redirect(a.rson[x], p, q)
  }

  lemma Ungrafted(a: Links, b: Links, t: BT, idx: int, parent: int, p: int, q: int)
    requires Sized(a) && Sized(b) && Rep(a, t, idx, parent)
    requires p !in Elements(t) && p != NIL && Grafted(a, b, Elements(t), p, q)
    ensures Rep(b, t, idx, parent)
  {
    forall x | x in Elements(t)
      ensures IsPos(x) && a.lson[x] == b.lson[x] && a.rson[x] == b.rson[x] && a.dad[x] == b.dad[x]
    {
      RepInside(a, t, idx, parent, x);
    }
    RepFrame(a, b, t, idx, parent);
  }

  /** If `b` holds `s` below the old parent of `p`, and is grafted elsewhere, it holds the tree with `s` at `p`. */
  lemma {:induction false} Graft(a: Links, b: Links, t: BT, idx: int, parent: int, p: int, s: BT, q: int)
    requires Sized(a) && Sized(b) && Rep(a, t, idx, parent) && Separate(t)
    requires p in Elements(t) && IsPos(p)
    requires Rep(b, s, q, a.dad[p])
    requires Grafted(a, b, Elements(t) - Elements(SubAt(t, p)), p, q)
    ensures Rep(b, Subst(t, p, s), Redirect(idx, p, q), parent)
    decreases t
  {
    var y := t.p;
    if y == p {
    } else {
      assert y !in Elements(SubAt(t, p));
      if p in Elements(t.l) {
        Graft(a, b, t.l, a.lson[y], y, p, s, q);
        Ungrafted(a, b, t.r, a.rson[y], y, p, q);
        RootOf(a, t.r, a.rson[y], y);
      } else {
        Graft(a, b, t.r, a.rson[y], y, p, s, q);
        Ungrafted(a, b, t.l, a.lson[y], y, p, q);
        RootOf(a, t.l, a.lson[y], y);
      }
    }
  }

  lemma RootOf(a: Links, t: BT, idx: int, parent: int)
    requires Sized(a) && Rep(a, t, idx, parent)
    ensures idx == NIL || idx in Elements(t)
  {
  }

  /** The same tree below another parent. */
  lemma Reparented(a: Links, b: Links, t: BT, idx: int, parent: int, parent': int)
    requires Sized(a) && Sized(b) && Rep(a, t, idx, parent) && Separate(t)
    requires forall x :: x in Elements(t) ==>
      IsPos(x) && b.lson[x] == a.lson[x] && b.rson[x] == a.rson[x]
      && b.dad[x] == (if x == idx then parent' else a.dad[x])
    ensures Rep(b, t, idx, parent')
  {
    if t.Node? {
      RepFrame(a, b, t.l, a.lson[t.p], t.p);
      RepFrame(a, b, t.r, a.rson[t.p], t.p);
    }
  }

  // ----- deletion -----

  function Max(t: BT): (m: int)
    requires t.Node?
    ensures m in Elements(t)
  {
    if t.r.Leaf? then t.p else Max(t.r)
  }

  lemma {:induction false} MaxFacts(text: seq<byte>, t: BT)
    requires |text| == TEXT_SIZE && Bst(text, t) && t.Node?
    ensures SubAt(t, Max(t)).r == Leaf
    ensures forall x :: x in Elements(t) && x != Max(t) ==> IsPos(x) && IsPos(Max(t)) && Less(text, x, Max(t))
    decreases t
  {
    BstDisjoint(text, t);
    if t.r.Node? {
      var m := Max(t);
      MaxFacts(text, t.r);
      BstPositions(text, t);
      forall x | x in Elements(t.l) ensures Less(text, x, m) {
        BeforeTransitive(Key(text, x), Key(text, t.p), Key(text, m));
      }
    }
  }

  function WithoutMax(t: BT): BT
    requires t.Node?
  {
    Subst(t, Max(t), SubAt(t, Max(t)).l)
  }

  lemma WithoutMaxFacts(text: seq<byte>, t: BT)
    requires |text| == TEXT_SIZE && Bst(text, t) && t.Node?
    ensures Bst(text, WithoutMax(t))
    ensures Elements(WithoutMax(t)) == Elements(t) - {Max(t)}
  {
    var m := Max(t);
    MaxFacts(text, t);
    BstSeparate(text, t);
    SubAtFacts(text, t, m);
    var s := SubAt(t, m);
    BstDisjoint(text, s);
    SubstElements(t, m, s.l);
    SubstBst(text, t, m, s.l);
    assert Elements(s) == Elements(s.l) + {m};
  }

  /** The tree without its root: the largest node on the left takes its place if there are two sides. */
  function DelRoot(t: BT): BT
    requires t.Node?
  {
    if t.r.Leaf? then t.l
    else if t.l.Leaf? then t.r
    else Node(WithoutMax(t.l), Max(t.l), t.r)
  }

  lemma NewRoot(text: seq<byte>, l: BT, m: int, t: BT)
    requires |text| == TEXT_SIZE && Bst(text, t) && t.Node? && Bst(text, l)
    requires IsPos(m) && Less(text, m, t.p)
    requires forall x :: x in Elements(l) ==> IsPos(x) && Less(text, x, m)
    ensures Bst(text, Node(l, m, t.r))
  {
    forall x | x in Elements(t.r) ensures IsPos(x) && Less(text, m, x) {
      BeforeTransitive(Key(text, m), Key(text, t.p), Key(text, x));
    }
  }

  lemma DelRootFacts(text: seq<byte>, t: BT)
    requires |text| == TEXT_SIZE && Bst(text, t) && t.Node?
    ensures Bst(text, DelRoot(t))
    ensures Elements(DelRoot(t)) == Elements(t) - {t.p}
  {
    BstDisjoint(text, t);
    if t.r.Leaf? {
      assert Elements(t) == Elements(t.l) + {t.p};
    } else if t.l.Leaf? {
      assert Elements(t) == Elements(t.r) + {t.p};
    } else {
      var m := Max(t.l);
      WithoutMaxFacts(text, t.l);
      MaxFacts(text, t.l);
      NewRoot(text, WithoutMax(t.l), m, t);
      RootTaken(Elements(t.l), m, t.p, Elements(t.r));
    }
  }

  lemma RootTaken(l: set<int>, m: int, p: int, r: set<int>)
    requires m in l && p !in l && p !in r
    ensures (l - {m}) + {m} + r == l + {p} + r - {p}
  {
  }

  function DeleteT(t: BT, p: int): BT
    requires p in Elements(t)
  {
    Subst(t, p, DelRoot(SubAt(t, p)))
  }

  /** Deleting takes out exactly one node and keeps the order. */
  lemma DeleteFacts(text: seq<byte>, t: BT, p: int)
    requires |text| == TEXT_SIZE && Bst(text, t) && p in Elements(t)
    ensures Bst(text, DeleteT(t, p))
    ensures Elements(DeleteT(t, p)) == Elements(t) - {p}
  {
    BstSeparate(text, t);
    SubAtFacts(text, t, p);
    DelRootFacts(text, SubAt(t, p));
    SubstBst(text, t, p, DelRoot(SubAt(t, p)));
    SubstElements(t, p, DelRoot(SubAt(t, p)));
  }

  /** The positions of a tree in search order. */
  function Inorder(t: BT): seq<int> {
    match t
    case Leaf => []
    case Node(l, p, r) => Inorder(l) + [p] + Inorder(r)
  }

  /** Putting `s` in place of a subtree replaces that part of the search order. */
  lemma {:induction false} SubstInorder(t: BT, p: int, s: BT) returns (x: seq<int>, y: seq<int>)
    requires p in Elements(t)
    ensures Inorder(t) == x + Inorder(SubAt(t, p)) + y && Inorder(Subst(t, p, s)) == x + Inorder(s) + y
    decreases t
  {
    if t.p == p {
      x, y := [], [];
    } else if p in Elements(t.l) {
      var u, v := SubstInorder(t.l, p, s);
      x, y := u, v + ([t.p] + Inorder(t.r));
      GroupLeft(u, Inorder(SubAt(t, p)), v, t.p, Inorder(t.r));
      GroupLeft(u, Inorder(s), v, t.p, Inorder(t.r));
    } else {
      var u, v := SubstInorder(t.r, p, s);
      x, y := Inorder(t.l) + [t.p] + u, v;
      GroupRight(Inorder(t.l), t.p, u, Inorder(SubAt(t, p)), v);
      GroupRight(Inorder(t.l), t.p, u, Inorder(s), v);
    }
  }

  lemma GroupLeft(u: seq<int>, m: seq<int>, v: seq<int>, p: int, r: seq<int>)
    ensures (u + m + v) + [p] + r == u + m + (v + ([p] + r))
  {
  }

  lemma GroupRight(l: seq<int>, p: int, u: seq<int>, m: seq<int>, v: seq<int>)
    ensures l + [p] + (u + m + v) == (l + [p] + u) + m + v
  {
  }

  lemma {:induction false} MaxInorder(t: BT)
    requires t.Node? && Separate(t)
    ensures Inorder(t) == Inorder(WithoutMax(t)) + [Max(t)]
    decreases t
  {
    if t.r.Node? {
      MaxInorder(t.r);
      assert WithoutMax(t) == Node(t.l, t.p, WithoutMax(t.r));
    }
  }

  /** Deleting takes exactly `p` out of the search order. */
  lemma DeleteInorder(t: BT, p: int) returns (x: seq<int>, y: seq<int>)
    requires Separate(t) && p in Elements(t)
    ensures Inorder(t) == x + [p] + y && Inorder(DeleteT(t, p)) == x + y
  {
    hide DelRoot, Separate;
    var s := SubAt(t, p);
    SeparateSub(t, p);
    RootInorder(s);
    var u, v := SubstInorder(t, p, DelRoot(s));
    Regroup(u, Inorder(s.l), p, Inorder(s.r), v);
    x, y := u + Inorder(s.l), Inorder(s.r) + v;
  }

  lemma Regroup(u: seq<int>, l: seq<int>, p: int, r: seq<int>, v: seq<int>)
    ensures u + (l + [p] + r) + v == (u + l) + [p] + (r + v)
    ensures u + (l + r) + v == (u + l) + (r + v)
  {
  }

  lemma RootInorder(t: BT)
    requires t.Node? && Separate(t)
    ensures Inorder(DelRoot(t)) == Inorder(t.l) + Inorder(t.r)
  {
    if t.l.Node? { MaxInorder(t.l); }
  }

  // ----- deletion in the arrays -----

  /** Step one, when `p` has two sides and the largest node `m` of the left one is not its root: unhook `m`. */
  function Unhook(a: Links, p: int, m: int): (b: Links)
    requires Sized(a) && IsPos(p) && IsPos(m) && 0 <= a.dad[m] <= N && 0 <= a.lson[m] <= N && 0 <= a.lson[p] <= N
    ensures Sized(b)
  {
    Links(a.lson[m := a.lson[p]],
          a.rson[a.dad[m] := a.lson[m]],
          a.dad[a.lson[m] := a.dad[m]][a.lson[p] := m])
  }

  /** Step two: `m` takes over the right side. */
  function TakeRight(a: Links, p: int, m: int): (b: Links)
    requires Sized(a) && IsPos(p) && IsPos(m) && 0 <= a.rson[p] <= N
    ensures Sized(b)
  {
    Links(a.lson, a.rson[m := a.rson[p]], a.dad[a.rson[p] := m])
  }

  /** Step three: `q` takes the place of `p` below its parent. */
  function Replug(a: Links, p: int, q: int): (b: Links)
    requires Sized(a) && IsPos(p) && 0 <= q <= N && 0 <= a.dad[p] < N + 258
    requires a.rson[a.dad[p]] == p || a.dad[p] <= N
    ensures Sized(b)
  {
    var d := a.dad[p];
    Links(if a.rson[d] == p then a.lson else a.lson[d := q],
          if a.rson[d] == p then a.rson[d := q] else a.rson,
          a.dad[q := d])
  }

  /** A child points back to its parent, and a node's two children differ. */
  lemma {:induction false} RepPointers(a: Links, t: BT, idx: int, parent: int, x: int)
    requires Sized(a) && Rep(a, t, idx, parent) && Separate(t) && x in Elements(t)
    ensures IsPos(x)
    ensures a.lson[x] != NIL ==> IsPos(a.lson[x]) && a.dad[a.lson[x]] == x && a.lson[x] != a.rson[x]
    ensures a.rson[x] != NIL ==> IsPos(a.rson[x]) && a.dad[a.rson[x]] == x
    decreases t
  {
    if x == t.p {
    } else if x in Elements(t.l) { RepPointers(a, t.l, a.lson[t.p], t.p, x); }
    else { RepPointers(a, t.r, a.rson[t.p], t.p, x); }
  }

  /** Every node but the root is a child of its parent. */
  lemma {:induction false} DadPoints(a: Links, t: BT, idx: int, parent: int, x: int)
    requires Sized(a) && Rep(a, t, idx, parent) && Separate(t) && x in Elements(t) && x != idx
    ensures IsPos(x) && IsPos(a.dad[x]) && a.dad[x] in Elements(t)
    ensures a.lson[a.dad[x]] == x || a.rson[a.dad[x]] == x
    decreases t
  {
    var y := t.p;
    if x in Elements(t.l) {
      if x != a.lson[y] { DadPoints(a, t.l, a.lson[y], y, x); }
    } else {
      if x != a.rson[y] { DadPoints(a, t.r, a.rson[y], y, x); }
    }
  }

  lemma {:induction false} MaxIsRight(a: Links, t: BT, idx: int, parent: int)
    requires Sized(a) && Rep(a, t, idx, parent) && Separate(t) && t.Node? && t.r.Node?
    ensures var m := Max(t);
      IsPos(m) && a.dad[m] in Elements(t) && IsPos(a.dad[m]) && a.rson[a.dad[m]] == m && m != idx && a.rson[m] == NIL
    decreases t
  {
    if t.r.r.Node? { MaxIsRight(a, t.r, a.rson[t.p], t.p); }
    else { assert Rep(a, t.r.r, a.rson[t.r.p], t.r.p); }
  }

  lemma {:induction false} MaxSub(t: BT)
    requires t.Node? && Separate(t)
    ensures SubAt(t, Max(t)).r == Leaf
  {
    if t.r.Node? { MaxSub(t.r); }
  }

  lemma {:induction false} DadOutside(a: Links, t: BT, idx: int, parent: int, x: int)
    requires Sized(a) && Rep(a, t, idx, parent) && Separate(t) && x in Elements(t) && parent !in Elements(t)
    ensures IsPos(x) && a.dad[x] !in Elements(SubAt(t, x))
    decreases t
  {
    if x == t.p {
    } else if x in Elements(t.l) { DadOutside(a, t.l, a.lson[t.p], t.p, x); }
    else { DadOutside(a, t.r, a.rson[t.p], t.p, x); }
  }

  /** Taking the node `m` out of the tree, its left side moving up, when `m` is the largest and not the root. */
  lemma UnhookGraft(a: Links, L: BT, idx: int, p: int)
    requires Sized(a) && Rep(a, L, idx, p) && Separate(L) && L.Node? && L.r.Node? && p !in Elements(L)
    ensures var m := Max(L);
      && IsPos(m) && IsPos(a.dad[m]) && 0 <= a.lson[m] <= N
      && Rep(Links(a.lson, a.rson[a.dad[m] := a.lson[m]], a.dad[a.lson[m] := a.dad[m]]), WithoutMax(L), idx, p)
  {
    var m := Max(L);
    MaxIsRight(a, L, idx, p);
    MaxSub(L);
    RepSubAt(a, L, idx, p, m);
    RepInside(a, L, idx, p, m);
    var s := SubAt(L, m);
    var q := a.lson[m];
    var d := a.dad[m];
    var a1 := Links(a.lson, a.rson[d := q], a.dad[q := d]);
    SeparateSub(L, m);
    DadOutside(a, L, idx, p, m);
    RootOf(a, s.l, q, m);
    forall x | x in Elements(s.l) ensures IsPos(x) { RepInside(a, L, idx, p, x); }
    Reparented(a, a1, s.l, q, m, d);
    forall x | x in Elements(L) - Elements(s)
      ensures IsPos(x) && a1.dad[x] == a.dad[x]
      ensures a1.lson[x] == Redirect(a.lson[x], m, q) && a1.rson[x] == Redirect(a.rson[x], m, q)
    {
      RepPointers(a, L, idx, p, x);
      RepPointers(a, L, idx, p, d);
    }
    Graft(a, a1, L, idx, p, m, s.l, q);
  }

  lemma WithoutMaxMembers(L: BT)
    requires Separate(L) && L.Node?
    ensures Separate(WithoutMax(L)) && Elements(WithoutMax(L)) == Elements(L) - {Max(L)}
  {
    var m := Max(L);
    var s := SubAt(L, m);
    MaxSub(L);
    SeparateSub(L, m);
    SubstElements(L, m, s.l);
    SubstSeparate(L, m, s.l);
    assert Elements(s) == Elements(s.l) + {m};
  }

  /** Unhooking the largest node leaves the rest of the left side, now below that node. */
  lemma UnhookRep(a: Links, L: BT, p: int)
    requires Sized(a) && IsPos(p) && Rep(a, L, a.lson[p], p) && Separate(L) && L.Node? && L.r.Node?
    requires p !in Elements(L)
    ensures var m := Max(L);
      && IsPos(m) && IsPos(a.dad[m]) && 0 <= a.lson[m] <= N && IsPos(a.lson[p])
      && Rep(Unhook(a, p, m), WithoutMax(L), a.lson[p], m)
  {
    var m := Max(L);
    UnhookGraft(a, L, a.lson[p], p);
    WithoutMaxMembers(L);
    var a1 := Links(a.lson, a.rson[a.dad[m] := a.lson[m]], a.dad[a.lson[m] := a.dad[m]]);
    var b := Unhook(a, p, m);
    forall x | x in Elements(WithoutMax(L)) ensures IsPos(x) && x != m { RepInside(a, L, a.lson[p], p, x); }
    Reparented(a1, b, WithoutMax(L), a.lson[p], p, m);
  }

  /** The two sides of a node that loses its place are handed to `m`, the largest on the left. */
  function Handover(a: Links, p: int, m: int): (b: Links)
    requires Sized(a) && IsPos(p) && IsPos(m) && IsPos(a.lson[p]) && IsPos(a.rson[p])
    requires a.rson[a.lson[p]] != NIL ==> 0 <= a.dad[m] <= N && 0 <= a.lson[m] <= N && a.dad[m] != p
    ensures Sized(b)
  {
    TakeRight(if a.rson[a.lson[p]] == NIL then a else Unhook(a, p, m), p, m)
  }

  /** The arrays hold a node and its two sides, wherever the pointer to it is. */
  ghost predicate Sides(a: Links, t: BT)
    requires Sized(a)
  {
    match t
    case Leaf => false
    case Node(l, p, r) => IsPos(p) && Rep(a, l, a.lson[p], p) && Rep(a, r, a.rson[p], p)
  }

  /** `b` differs from `a` at most at the positions in `s` and at NIL. */
  ghost predicate SameOutside(a: Links, b: Links, s: set<int>)
    requires Sized(a) && Sized(b)
  {
    match b case Links(ls, rs, dd) =>
      && (forall x :: IsPos(x) && x !in s ==> ls[x] == a.lson[x] && dd[x] == a.dad[x])
      && (forall x :: 0 <= x < N + 258 && x != NIL && x !in s ==> rs[x] == a.rson[x])
  }

  lemma FrameOutside(a: Links, b: Links, s: set<int>, t: BT, idx: int, parent: int)
    requires Sized(a) && Sized(b) && SameOutside(a, b, s) && Rep(a, t, idx, parent)
    requires Elements(t) !! s
    ensures Rep(b, t, idx, parent)
  {
    forall x | x in Elements(t) ensures IsPos(x) { RepInside(a, t, idx, parent, x); }
    RepFrame(a, b, t, idx, parent);
  }

  lemma MaxAtRoot(t: BT)
    requires t.Node? && t.r.Leaf?
    ensures Max(t) == t.p && WithoutMax(t) == t.l
  {
  }

  lemma UnhookedLeft(a: Links, s: BT) returns (b: Links)
    requires Sized(a) && Separate(s) && Sides(a, s) && s.l.Node? && s.r.Node?
    ensures var p := s.p; var m := Max(s.l);
      && IsPos(m) && IsPos(a.lson[p]) && IsPos(a.rson[p])
      && (a.rson[a.lson[p]] != NIL ==> 0 <= a.dad[m] <= N && 0 <= a.lson[m] <= N && a.dad[m] != p)
      && b == (if a.rson[a.lson[p]] == NIL then a else Unhook(a, p, m))
      && Sized(b) && Rep(b, WithoutMax(s.l), b.lson[m], m)
      && SameOutside(a, b, Elements(s.l))
  {
    var p, m := s.p, Max(s.l);
    RepInside(a, s.l, a.lson[p], p, m);
    assert Rep(a, s.l.r, a.rson[a.lson[p]], a.lson[p]);
    if s.l.r.Node? {
      UnhookRep(a, s.l, p);
      MaxIsRight(a, s.l, a.lson[p], p);
      b := Unhook(a, p, m);
    } else {
      MaxAtRoot(s.l);
      b := a;
    }
  }

  /** After the handover `m` has what was left of both sides. */
  lemma HandoverRep(a: Links, s: BT)
    requires Sized(a) && Separate(s) && Sides(a, s) && s.l.Node? && s.r.Node?
    ensures var p := s.p; var m := Max(s.l);
      && IsPos(m) && IsPos(a.lson[p]) && IsPos(a.rson[p])
      && (a.rson[a.lson[p]] != NIL ==> 0 <= a.dad[m] <= N && 0 <= a.lson[m] <= N && a.dad[m] != p)
      && Sides(Handover(a, p, m), DelRoot(s))
      && SameOutside(a, Handover(a, p, m), Elements(s.l) + Elements(s.r))
  {
    var p, m := s.p, Max(s.l);
    var au := UnhookedLeft(a, s);
    WithoutMaxMembers(s.l);
    FrameOutside(a, au, Elements(s.l), s.r, a.rson[p], p);
    var b := TakeRight(au, p, m);
    forall x | x in Elements(s.r) ensures IsPos(x) { RepInside(a, s.r, a.rson[p], p, x); }
    Reparented(au, b, s.r, a.rson[p], p, m);
    assert SameOutside(au, b, {m} + Elements(s.r));
    FrameOutside(au, b, {m} + Elements(s.r), WithoutMax(s.l), au.lson[m], m);
  }

  // ----- putting a subtree below the old parent of `p` -----

  /** The parent of `p` points to it on exactly one side. */
  ghost predicate Plugged(a: Links, p: int)
    requires Sized(a)
  {
    IsPos(p) && 0 <= a.dad[p] < N + 258 && a.dad[p] != NIL &&
    var d := a.dad[p];
    if IsPos(d) then (a.lson[d] == p) != (a.rson[d] == p) else a.rson[d] == p
  }

  /** `q` takes the place of `p`, which leaves the trees. */
  function Displace(a: Links, p: int, q: int): (b: Links)
    requires Sized(a) && IsPos(p) && 0 <= q <= N && 0 <= a.dad[p] < N + 258
    requires a.rson[a.dad[p]] == p || a.dad[p] <= N
    ensures Sized(b)
  {
    var b := Replug(a, p, q);
    b.(dad := b.dad[p := NIL])
  }

  lemma DisplaceGrafts(a: Links, a1: Links, t: BT, idx: int, parent: int, p: int, q: int)
    requires Sized(a) && Sized(a1) && Rep(a, t, idx, parent) && Separate(t) && p in Elements(t)
    requires Plugged(a, p) && 0 <= q <= N
    requires SameOutside(a, a1, Elements(SubAt(t, p)) - {p} + {q})
    requires a1.dad[p] == a.dad[p]
    requires a.dad[p] != q && a.dad[p] !in Elements(SubAt(t, p))
    requires q == NIL || q in Elements(SubAt(t, p)) || q !in Elements(t)
    ensures a1.rson[a1.dad[p]] == p || a1.dad[p] <= N
    ensures Grafted(a, Displace(a1, p, q), Elements(t) - Elements(SubAt(t, p)), p, q)
  {
    var b := Displace(a1, p, q);
    forall x | x in Elements(t) - Elements(SubAt(t, p))
      ensures IsPos(x) && b.dad[x] == a.dad[x]
      ensures b.lson[x] == Redirect(a.lson[x], p, q) && b.rson[x] == Redirect(a.rson[x], p, q)
    {
      RepPointers(a, t, idx, parent, x);
    }
  }

  /** The arrays with subtree `s` (root `q`, already holding its sides) in the place of `p`. */
  lemma DisplaceRep(a: Links, a1: Links, t: BT, idx: int, root: int, p: int, s: BT, q: int)
    requires Sized(a) && Sized(a1) && Rep(a, t, idx, root) && Separate(t) && p in Elements(t)
    requires Plugged(a, p) && 0 <= q <= N
    requires if s.Node? then Sides(a1, s) && s.p == q else q == NIL
    requires Elements(s) - {q} <= Elements(SubAt(t, p)) - {p} && Separate(s)
    requires q == NIL || q in Elements(SubAt(t, p)) || q !in Elements(t)
    requires SameOutside(a, a1, Elements(SubAt(t, p)) - {p} + {q})
    requires a1.dad[p] == a.dad[p] && q != p
    requires root !in Elements(t) && root != q
    ensures 0 <= a1.dad[p] < N + 258 && (a1.rson[a1.dad[p]] == p || a1.dad[p] <= N)
    ensures Rep(Displace(a1, p, q), Subst(t, p, s), Redirect(idx, p, q), root)
  {
    DadOutside(a, t, idx, root, p);
    var d := a.dad[p];
    var b := Displace(a1, p, q);
    if d == q { RepInside(a, t, idx, root, p); }
    assert SameOutside(a1, b, {p, q, d});
    if s.Node? {
      FrameOutside(a1, b, {p, q, d}, s.l, a1.lson[q], q);
      FrameOutside(a1, b, {p, q, d}, s.r, a1.rson[q], q);
    }
    DisplaceGrafts(a, a1, t, idx, root, p, q);
    Graft(a, b, t, idx, root, p, s, q);
  }
}
