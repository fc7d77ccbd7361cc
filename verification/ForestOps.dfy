/**
  The whole index: 256 trees in one set of arrays, under insertion, deletion and changes of the text.
 */
module ForestOps {
  import opened Bytes
  import opened Forest
  import opened ForestLinks

  /** The arrays hold the search trees `ts`; a position is in a tree exactly when its `dad` is not NIL. */
  ghost predicate ForestOk(text: seq<byte>, a: Links, ts: seq<BT>) {
    match a case Links(ls, rs, dd) =>
      && |text| == TEXT_SIZE && Sized(a) && |ts| == 256
      && (forall c :: 0 <= c < 256 ==> TreeOk(text, a, ts[c], c))
      && (forall p :: IsPos(p) && dd[p] != NIL ==> p in Elements(ts[text[p]]))
  }

  ghost predicate TreeOk(text: seq<byte>, a: Links, t: BT, c: int)
    requires |text| == TEXT_SIZE && Sized(a) && 0 <= c < 256
  {
    match a case Links(ls, rs, dd) =>
      && Bst(text, t)
      && Rep(a, t, rs[ROOT + c], ROOT + c)
      && (forall x :: x in Elements(t) ==> IsPos(x) && text[x] == c && dd[x] != NIL)
  }

  /** The positions in the index. */
  ghost function Nodes(ts: seq<BT>): (s: iset<int>) {
    iset x, c | 0 <= c < |ts| && x in Elements(ts[c]) :: x
  }

  lemma NodeTree(text: seq<byte>, a: Links, ts: seq<BT>, x: int)
    requires ForestOk(text, a, ts) && IsPos(x)
    ensures a.dad[x] != NIL <==> x in Elements(ts[text[x]])
    ensures a.dad[x] != NIL <==> x in Nodes(ts)
  {
    if x in Elements(ts[text[x]]) { assert TreeOk(text, a, ts[text[x]], text[x]); }
    if x in Nodes(ts) {
      var c :| 0 <= c < |ts| && x in Elements(ts[c]);
      assert TreeOk(text, a, ts[c], c);
    }
  }

  /** A tree is not disturbed by changes at nodes of another first byte. */
  lemma OtherTree(text: seq<byte>, a: Links, b: Links, ts: seq<BT>, k: int, c: int, s: set<int>)
    requires ForestOk(text, a, ts) && Sized(b) && 0 <= c < 256 && 0 <= k < 256 && k != c
    requires SameOutside(a, b, s + {ROOT + c})
    requires forall x :: x in s ==> IsPos(x) && text[x] == c
    ensures TreeOk(text, b, ts[k], k)
  {
    assert TreeOk(text, a, ts[k], k);
    forall x | x in Elements(ts[k]) ensures x !in s + {ROOT + c} { assert IsPos(x) && text[x] == k; }
    FrameOutside(a, b, s + {ROOT + c}, ts[k], a.rson[ROOT + k], ROOT + k);
    assert b.rson[ROOT + k] == a.rson[ROOT + k];
  }

  /** One tree changes, at its own nodes and at `r`; the others keep their places. */
  lemma Reassemble(text: seq<byte>, a: Links, b: Links, ts: seq<BT>, c: int, t: BT, r: int)
    requires ForestOk(text, a, ts) && Sized(b) && 0 <= c < 256 && IsPos(r) && text[r] == c
    requires TreeOk(text, b, t, c)
    requires SameOutside(a, b, Elements(ts[c]) + {r} + {ROOT + c})
    requires forall x :: x in Elements(ts[c]) + {r} && x !in Elements(t) && IsPos(x) ==> b.dad[x] == NIL
    ensures ForestOk(text, b, ts[c := t])
  {
    var ts' := ts[c := t];
    assert TreeOk(text, a, ts[c], c);
    forall k | 0 <= k < 256 ensures TreeOk(text, b, ts'[k], k) {
      if k != c { OtherTree(text, a, b, ts, k, c, Elements(ts[c]) + {r}); }
    }
    forall p | IsPos(p) && b.dad[p] != NIL ensures p in Elements(ts'[text[p]]) {
      if p !in Elements(ts[c]) + {r} { assert b.dad[p] == a.dad[p]; }
    }
  }

  /** The pointers of a position that is not in the index do not matter. */
  lemma Unregistered(text: seq<byte>, a: Links, b: Links, ts: seq<BT>, r: int)
    requires ForestOk(text, a, ts) && IsPos(r) && a.dad[r] == NIL
    requires b == Links(a.lson[r := NIL], a.rson[r := NIL], a.dad)
    ensures ForestOk(text, b, ts)
  {
    forall c | 0 <= c < 256 ensures TreeOk(text, b, ts[c], c) {
      assert TreeOk(text, a, ts[c], c);
      assert r !in Elements(ts[c]);
      FrameOutside(a, b, {r}, ts[c], a.rson[ROOT + c], ROOT + c);
    }
  }

  // ----- insertion -----

  function NewNode(r: int): BT { Node(Leaf, r, Leaf) }

  function WithChild(s: BT, r: int, right: bool): BT
    requires s.Node?
  {
    if right then Node(s.l, s.p, NewNode(r)) else Node(NewNode(r), s.p, s.r)
  }

  /** What the descent means for the tree. */
  lemma {:induction false} InsertIsSubst(text: seq<byte>, t: BT, r: int, parent: int, right: bool)
    requires |text| == TEXT_SIZE && IsPos(r) && Bst(text, t)
    ensures forall x :: x in Elements(t) ==> IsPos(x)
    ensures match Descend(text, t, r, parent, right)
      case Replace(p) => p in Elements(t) && InsertT(text, t, r) == Subst(t, p, Node(SubAt(t, p).l, r, SubAt(t, p).r))
      case Attach(at, side) =>
        if t.Leaf? then at == parent && side == right else
          at in Elements(t) && InsertT(text, t, r) == Subst(t, at, WithChild(SubAt(t, at), r, side))
          && (if side then SubAt(t, at).r else SubAt(t, at).l) == Leaf
    decreases t
  {
    if t.Node? {
      BstPositions(text, t);
      BstDisjoint(text, t);
      Trichotomy(Key(text, r), Key(text, t.p));
      if Match(text, r, t.p) == F {
      } else if Less(text, r, t.p) {
        InsertIsSubst(text, t.l, r, t.p, false);
      } else {
        InsertIsSubst(text, t.r, r, t.p, true);
      }
    }
  }

  function AttachLinks(a: Links, r: int, at: int, right: bool): (b: Links)
    requires Sized(a) && IsPos(r) && 0 <= at < N + 258 && (!right ==> at <= N)
    ensures Sized(b)
  {
    var ls, rs := a.lson[r := NIL], a.rson[r := NIL];
    Links(if right then ls else ls[at := r], if right then rs[at := r] else rs, a.dad[r := at])
  }

  lemma AttachRep(a: Links, t: BT, idx: int, root: int, at: int, r: int, right: bool)
    requires Sized(a) && Rep(a, t, idx, root) && Separate(t) && at in Elements(t) && IsPos(at)
    requires IsPos(r) && r !in Elements(t) && root !in Elements(t) && root != r && !IsPos(root)
    requires (if right then SubAt(t, at).r else SubAt(t, at).l) == Leaf
    ensures Rep(AttachLinks(a, r, at, right), Subst(t, at, WithChild(SubAt(t, at), r, right)), idx, root)
  {
    var b := AttachLinks(a, r, at, right);
    var s := SubAt(t, at);
    SeparateSub(t, at);
    RepSubAt(a, t, idx, root, at);
    assert SameOutside(a, b, {r, at});
    FrameOutside(a, b, {r, at}, s.l, a.lson[at], at);
    FrameOutside(a, b, {r, at}, s.r, a.rson[at], at);
    forall x | x in Elements(t) - Elements(s) ensures IsPos(x) { RepInside(a, t, idx, root, x); }
    Graft(a, b, t, idx, root, at, WithChild(s, r, right), at);
  }

  ghost predicate DescendsTo(text: seq<byte>, t: BT, r: int, e: End)
    requires |text| == TEXT_SIZE && IsPos(r)
  {
    (forall x :: x in Elements(t) ==> IsPos(x)) && Descend(text, t, r, ROOT + text[r], true) == e
  }

  lemma AttachFirst(a: Links, root: int, r: int)
    requires Sized(a) && IsPos(r) && N < root < N + 258
    ensures var b := AttachLinks(a, r, root, true); Rep(b, NewNode(r), b.rson[root], root)
  {
    var b := AttachLinks(a, r, root, true);
    assert Rep(b, Leaf, b.lson[r], r) && Rep(b, Leaf, b.rson[r], r);
  }

  lemma AttachBelow(text: seq<byte>, a: Links, t: BT, root: int, at: int, r: int, right: bool)
    requires |text| == TEXT_SIZE && Sized(a) && N < root < N + 258 && Rep(a, t, a.rson[root], root)
    requires Bst(text, t) && at in Elements(t) && IsPos(r) && r !in Elements(t)
    requires (if right then SubAt(t, at).r else SubAt(t, at).l) == Leaf
    ensures IsPos(at)
    ensures var b := AttachLinks(a, r, at, right);
      Rep(b, Subst(t, at, WithChild(SubAt(t, at), r, right)), b.rson[root], root)
  {
    BstPositions(text, t);
    BstSeparate(text, t);
    AttachRep(a, t, a.rson[root], root, at, r, right);
    assert AttachLinks(a, r, at, right).rson[root] == a.rson[root];
  }

  lemma AttachedRep(text: seq<byte>, a: Links, t: BT, r: int, at: int, right: bool)
    requires |text| == TEXT_SIZE && Sized(a) && IsPos(r) && Bst(text, t)
    requires var root := ROOT + text[r]; Rep(a, t, a.rson[root], root)
    requires r !in Elements(t) && DescendsTo(text, t, r, Attach(at, right))
    ensures 0 <= at < N + 258 && (!right ==> IsPos(at))
    ensures at == ROOT + text[r] || at in Elements(t)
    ensures var b := AttachLinks(a, r, at, right); var root := ROOT + text[r];
      Rep(b, InsertT(text, t, r), b.rson[root], root)
  {
    var root := ROOT + text[r];
    InsertIsSubst(text, t, r, root, true);
    if t.Leaf? {
      AttachFirst(a, root, r);
    } else {
      AttachBelow(text, a, t, root, at, r, right);
    }
  }

  lemma AttachTree(text: seq<byte>, a: Links, t: BT, r: int, at: int, right: bool)
    requires |text| == TEXT_SIZE && Sized(a) && IsPos(r) && TreeOk(text, a, t, text[r])
    requires r !in Elements(t) && DescendsTo(text, t, r, Attach(at, right))
    ensures 0 <= at < N + 258 && (!right ==> IsPos(at))
    ensures at == ROOT + text[r] || at in Elements(t)
    ensures TreeOk(text, AttachLinks(a, r, at, right), InsertT(text, t, r), text[r])
    ensures Elements(InsertT(text, t, r)) == Elements(t) + {r}
  {
    hide Bst, InsertT, Descend;
    var c := text[r];
    InsertBst(text, t, r);
    InsertElements(text, t, r, ROOT + c, true);
    AttachedRep(text, a, t, r, at, right);
  }

  lemma AttachOutside(a: Links, r: int, at: int, right: bool, s: set<int>)
    requires Sized(a) && IsPos(r) && 0 <= at < N + 258 && (!right ==> at <= N) && at in s && r in s
    ensures SameOutside(a, AttachLinks(a, r, at, right), s)
  {
  }

  /** Attaching `r` where the descent ends keeps the index and adds `r` to it. */
  lemma AttachKeeps(text: seq<byte>, a: Links, ts: seq<BT>, r: int, at: int, right: bool)
    requires ForestOk(text, a, ts) && IsPos(r) && a.dad[r] == NIL
    requires DescendsTo(text, ts[text[r]], r, Attach(at, right))
    ensures 0 <= at < N + 258 && (!right ==> IsPos(at))
    ensures var c := text[r];
      && ForestOk(text, AttachLinks(a, r, at, right), ts[c := InsertT(text, ts[c], r)])
      && Elements(InsertT(text, ts[c], r)) == Elements(ts[c]) + {r}
  {
    var c := text[r];
    assert TreeOk(text, a, ts[c], c);
    AttachTree(text, a, ts[c], r, at, right);
    AttachOutside(a, r, at, right, Elements(ts[c]) + {r} + {ROOT + c});
    Reassemble(text, a, AttachLinks(a, r, at, right), ts, c, InsertT(text, ts[c], r), r);
  }

  // ----- giving a node's place to another -----

  lemma PluggedIn(a: Links, t: BT, root: int, p: int)
    requires Sized(a) && N < root < N + 258 && Rep(a, t, a.rson[root], root) && Separate(t) && p in Elements(t)
    requires forall x :: x in Elements(t) ==> IsPos(x)
    ensures Plugged(a, p)
  {
    if p == t.p {
    } else {
      DadPoints(a, t, a.rson[root], root, p);
      RepPointers(a, t, a.rson[root], root, a.dad[p]);
    }
  }

  lemma DisplacedRoot(a: Links, root: int, p: int, q: int, idx: int)
    requires Sized(a) && IsPos(p) && 0 <= q <= N && 0 <= a.dad[p] < N + 258 && N < root < N + 258
    requires a.rson[a.dad[p]] == p || a.dad[p] <= N
    requires a.rson[root] == idx && (idx == p <==> a.dad[p] == root)
    ensures Displace(a, p, q).rson[root] == Redirect(idx, p, q)
  {
  }

  /** In the tree `t` of first byte `c`, subtree `s` takes the place of the node `p`. */
  lemma DisplaceTree(text: seq<byte>, a: Links, a1: Links, t: BT, c: int, p: int, s: BT, q: int)
    requires |text| == TEXT_SIZE && Sized(a) && Sized(a1) && 0 <= c < 256 && TreeOk(text, a, t, c)
    requires p in Elements(t) && 0 <= q <= N && q != p
    requires if s.Node? then Sides(a1, s) && s.p == q else q == NIL
    requires Separate(s) && Elements(s) - {q} <= Elements(SubAt(t, p)) - {p}
    requires q == NIL || q in Elements(SubAt(t, p)) || q !in Elements(t)
    requires SameOutside(a, a1, Elements(SubAt(t, p)) - {p} + {q})
    requires a1.dad[p] == a.dad[p]
    ensures IsPos(p) && 0 <= a1.dad[p] < N + 258 && (a1.rson[a1.dad[p]] == p || a1.dad[p] <= N)
    ensures var b := Displace(a1, p, q);
      Rep(b, Subst(t, p, s), b.rson[ROOT + c], ROOT + c)
    ensures a.dad[p] == ROOT + c || a.dad[p] in Elements(t)
  {
    var root := ROOT + c;
    BstSeparate(text, t);
    PluggedIn(a, t, root, p);
    DisplaceRep(a, a1, t, a.rson[root], root, p, s, q);
    RepInside(a, t, a.rson[root], root, p);
    DisplacedRoot(a1, root, p, q, a.rson[root]);
  }

  lemma DisplaceOutside(a: Links, a1: Links, p: int, q: int, s: set<int>)
    requires Sized(a) && Sized(a1) && IsPos(p) && 0 <= q <= N && 0 <= a1.dad[p] < N + 258
    requires a1.rson[a1.dad[p]] == p || a1.dad[p] <= N
    requires SameOutside(a, a1, s) && p in s && (q in s || q == NIL) && a1.dad[p] in s
    ensures SameOutside(a, Displace(a1, p, q), s)
    ensures Displace(a1, p, q).dad[p] == NIL
    ensures forall x :: IsPos(x) && x != p && x != q ==> Displace(a1, p, q).dad[x] == a1.dad[x]
    ensures q != p ==> Displace(a1, p, q).dad[q] == a1.dad[p]
  {
  }

  // ----- replacing a node of the same key -----

  /** `r` takes over both sides of `p`. */
  function Adopt(a: Links, r: int, p: int): (b: Links)
    requires Sized(a) && IsPos(r) && IsPos(p) && 0 <= a.lson[p] <= N && 0 <= a.rson[p] <= N
    ensures Sized(b)
  {
    Links(a.lson[r := a.lson[p]], a.rson[r := a.rson[p]], a.dad[a.lson[p] := r][a.rson[p] := r])
  }

  /** The pointers that substitution of `r` for `p` follows stay in the arrays and away from each other. */
  predicate Substitutable(a: Links, r: int, p: int) {
    match a case Links(ls, rs, dd) =>
      && Sized(a) && IsPos(r) && IsPos(p) && r != p
      && 0 <= ls[p] <= N && 0 <= rs[p] <= N && 0 <= dd[p] < N + 258
      && ls[p] != r && rs[p] != r && ls[p] != p && rs[p] != p && dd[p] != r
      && (rs[dd[p]] == p || dd[p] < N)
  }

  lemma AdoptRep(a: Links, s: BT, r: int)
    requires Sized(a) && Separate(s) && Sides(a, s) && IsPos(r) && r !in Elements(s)
    ensures 0 <= a.lson[s.p] <= N && 0 <= a.rson[s.p] <= N
    ensures Sides(Adopt(a, r, s.p), Node(s.l, r, s.r))
    ensures a.lson[s.p] == NIL || a.lson[s.p] in Elements(s.l)
    ensures a.rson[s.p] == NIL || a.rson[s.p] in Elements(s.r)
  {
    var p := s.p;
    RootOf(a, s.l, a.lson[p], p);
    RootOf(a, s.r, a.rson[p], p);
    forall x | x in Elements(s.l) ensures IsPos(x) { RepInside(a, s.l, a.lson[p], p, x); }
    forall x | x in Elements(s.r) ensures IsPos(x) { RepInside(a, s.r, a.rson[p], p, x); }
    Reparented(a, Adopt(a, r, p), s.l, a.lson[p], p, r);
    Reparented(a, Adopt(a, r, p), s.r, a.rson[p], p, r);
  }

  lemma AdoptElements(a: Links, s: BT, r: int)
    requires Sized(a) && Separate(s) && Sides(a, s) && IsPos(r) && r !in Elements(s)
    ensures 0 <= a.lson[s.p] <= N && 0 <= a.rson[s.p] <= N
    ensures Separate(Node(s.l, r, s.r)) && Elements(Node(s.l, r, s.r)) - {r} <= Elements(s) - {s.p}
    ensures SameOutside(a, Adopt(a, r, s.p), Elements(s) - {s.p} + {r})
    ensures Adopt(a, r, s.p).dad[s.p] == a.dad[s.p]
  {
    AdoptRep(a, s, r);
  }

  /** Replacing the node of the same key keeps the index; `r` is in it and the old node is not. */
  lemma ReplaceKeeps(text: seq<byte>, a: Links, ts: seq<BT>, r: int, p: int)
    requires ForestOk(text, a, ts) && IsPos(r) && a.dad[r] == NIL
    requires DescendsTo(text, ts[text[r]], r, Replace(p))
    ensures Substitutable(a, r, p)
    ensures var b := Adopt(a, r, p); 0 <= b.dad[p] < N + 258 && (b.rson[b.dad[p]] == p || b.dad[p] <= N)
    ensures var c := text[r];
      && ForestOk(text, Displace(Adopt(a, r, p), p, r), ts[c := InsertT(text, ts[c], r)])
      && Elements(InsertT(text, ts[c], r)) == Elements(ts[c]) - {p} + {r}
      && p in Elements(ts[c]) && Key(text, p) == Key(text, r)
  {
    var c := text[r];
    var t := ts[c];
    assert TreeOk(text, a, t, c);
    InsertReplaces(text, t, r, p);
    ReplacedSafe(text, a, t, r, p);
    ReplacedRep(text, a, t, r, p);
    ReplaceTree(text, a, t, r, p);
    var b := Adopt(a, r, p);
    DisplaceOutside(a, b, p, r, Elements(t) + {r} + {ROOT + c});
    Reassemble(text, a, Displace(b, p, r), ts, c, InsertT(text, t, r), r);
  }

  lemma ReplacedRep(text: seq<byte>, a: Links, t: BT, r: int, p: int)
    requires |text| == TEXT_SIZE && Sized(a) && IsPos(r) && TreeOk(text, a, t, text[r])
    requires r !in Elements(t) && p in Elements(t)
    ensures IsPos(p) && 0 <= a.lson[p] <= N && 0 <= a.rson[p] <= N
    ensures var b := Adopt(a, r, p); var root := ROOT + text[r]; var s := SubAt(t, p);
      && 0 <= b.dad[p] < N + 258 && (b.rson[b.dad[p]] == p || b.dad[p] <= N)
      && (b.dad[p] == root || b.dad[p] in Elements(t)) && b.dad[p] != NIL
      && SameOutside(a, b, Elements(t) + {r} + {root})
      && Rep(Displace(b, p, r), Subst(t, p, Node(s.l, r, s.r)), Displace(b, p, r).rson[root], root)
  {
    var c := text[r];
    var s := SubAt(t, p);
    BstSeparate(text, t);
    RepInside(a, t, a.rson[ROOT + c], ROOT + c, p);
    RepSubAt(a, t, a.rson[ROOT + c], ROOT + c, p);
    SeparateSub(t, p);
    AdoptRep(a, s, r);
    AdoptElements(a, s, r);
    var b := Adopt(a, r, p);
    DisplaceTree(text, a, b, t, c, p, Node(s.l, r, s.r), r);
    OutsideWider(a, b, Elements(s) - {p} + {r}, Elements(t) + {r} + {ROOT + c});
  }

  lemma ReplacedSafe(text: seq<byte>, a: Links, t: BT, r: int, p: int)
    requires |text| == TEXT_SIZE && Sized(a) && IsPos(r) && TreeOk(text, a, t, text[r])
    requires r !in Elements(t) && p in Elements(t)
    ensures Substitutable(a, r, p)
  {
    var root := ROOT + text[r];
    BstSeparate(text, t);
    BstPositions(text, t);
    RepInside(a, t, a.rson[root], root, p);
    RepSubAt(a, t, a.rson[root], root, p);
    SeparateSub(t, p);
    PluggedIn(a, t, root, p);
    AdoptRep(a, SubAt(t, p), r);
  }

  lemma OutsideWider(a: Links, b: Links, s: set<int>, s': set<int>)
    requires Sized(a) && Sized(b) && SameOutside(a, b, s) && s <= s'
    ensures SameOutside(a, b, s')
  {
  }

  lemma InsertReplaces(text: seq<byte>, t: BT, r: int, p: int)
    requires |text| == TEXT_SIZE && IsPos(r) && Bst(text, t)
    requires r !in Elements(t) && DescendsTo(text, t, r, Replace(p))
    ensures p in Elements(t) && Key(text, p) == Key(text, r)
    ensures var s := SubAt(t, p); InsertT(text, t, r) == Subst(t, p, Node(s.l, r, s.r))
    ensures Bst(text, InsertT(text, t, r))
    ensures Elements(InsertT(text, t, r)) == Elements(t) - {p} + {r}
  {
    var root := ROOT + text[r];
    InsertIsSubst(text, t, r, root, true);
    ReplaceInside(text, t, r, root, true);
    InsertBst(text, t, r);
    InsertElements(text, t, r, root, true);
  }

  lemma AdoptRegisters(text: seq<byte>, a: Links, t: BT, c: int, r: int, p: int)
    requires |text| == TEXT_SIZE && Sized(a) && 0 <= c < 256 && TreeOk(text, a, t, c)
    requires IsPos(r) && IsPos(p) && 0 <= a.lson[p] <= N && 0 <= a.rson[p] <= N
    ensures forall x :: x in Elements(t) ==> IsPos(x) && text[x] == c && Adopt(a, r, p).dad[x] != NIL
  {
  }

  lemma TreeText(text: seq<byte>, a: Links, t: BT, c: int)
    requires |text| == TEXT_SIZE && Sized(a) && 0 <= c < 256 && TreeOk(text, a, t, c)
    ensures forall x :: x in Elements(t) ==> IsPos(x) && text[x] == c
  {
    hide Bst, Rep;
  }

  lemma AdoptSized(a: Links, r: int, p: int)
    requires Sized(a) && IsPos(r) && IsPos(p) && 0 <= a.lson[p] <= N && 0 <= a.rson[p] <= N
    ensures Sized(Adopt(a, r, p))
  {
  }

  lemma ReplaceTree(text: seq<byte>, a: Links, t: BT, r: int, p: int)
    requires |text| == TEXT_SIZE && Sized(a) && IsPos(r) && TreeOk(text, a, t, text[r])
    requires r !in Elements(t) && p in Elements(t)
    requires Elements(InsertT(text, t, r)) == Elements(t) - {p} + {r} && Bst(text, InsertT(text, t, r))
    requires var s := SubAt(t, p); InsertT(text, t, r) == Subst(t, p, Node(s.l, r, s.r))
    ensures IsPos(p) && 0 <= a.lson[p] <= N && 0 <= a.rson[p] <= N
    ensures var b := Adopt(a, r, p);
      && 0 <= b.dad[p] < N + 258 && (b.rson[b.dad[p]] == p || b.dad[p] <= N)
      && TreeOk(text, Displace(b, p, r), InsertT(text, t, r), text[r])
  {
    hide Bst, InsertT, Rep, Subst, SubAt, Elements, Adopt, Displace, TreeOk;
    TreeText(text, a, t, text[r]);
    ReplacedRep(text, a, t, r, p);
    AdoptRegisters(text, a, t, text[r], r, p);
    AdoptSized(a, r, p);
    DisplacedTree(text, a, Adopt(a, r, p), t, InsertT(text, t, r), text[r], p, r);
  }

  /** A node's parent pointer survives, except for the node that leaves. */
  lemma DisplacedTree(text: seq<byte>, a: Links, a1: Links, t: BT, t': BT, c: int, p: int, q: int)
    requires |text| == TEXT_SIZE && Sized(a) && Sized(a1) && 0 <= c < 256 && TreeOk(text, a, t, c)
    requires IsPos(p) && 0 <= q <= N && q != p && 0 <= a1.dad[p] < N + 258 && a1.dad[p] != NIL
    requires a1.rson[a1.dad[p]] == p || a1.dad[p] <= N
    requires Rep(Displace(a1, p, q), t', Displace(a1, p, q).rson[ROOT + c], ROOT + c)
    requires Bst(text, t') && p !in Elements(t')
    requires forall x :: x in Elements(t') ==> IsPos(x) && text[x] == c && (x == q || a1.dad[x] != NIL)
    ensures TreeOk(text, Displace(a1, p, q), t', c)
  {
  }

  /** Pointer safety of linking `r` in where the descent ended. */
  predicate Linkable(a: Links, r: int, e: End) {
    match e
    case Attach(at, right) => Sized(a) && IsPos(r) && 0 <= at < N + 258 && (!right ==> IsPos(at))
    case Replace(p) => Substitutable(a, r, p) && var b := Adopt(a, r, p); (b.rson[b.dad[p]] == p || b.dad[p] <= N)
  }

  /** The arrays with `r` linked in where the descent ended. */
  function Linked(a: Links, r: int, e: End): Links
    requires Linkable(a, r, e)
  {
    match e
    case Attach(at, right) => AttachLinks(a, r, at, right)
    case Replace(p) => Displace(Adopt(a, r, p), p, r)
  }

  lemma AdoptKeepsDad(a: Links, r: int, p: int)
    requires Substitutable(a, r, p)
    ensures Adopt(a, r, p).dad[p] == a.dad[p]
  {
  }

  /** Inserting `r`, whose pointers hold anything, keeps the index. */
  lemma InsertKeeps(text: seq<byte>, a: Links, ts: seq<BT>, r: int, e: End)
    requires ForestOk(text, a, ts) && IsPos(r) && a.dad[r] == NIL
    requires DescendsTo(text, ts[text[r]], r, e)
    ensures Linkable(a, r, e)
    ensures var c := text[r]; ForestOk(text, Linked(a, r, e), ts[c := InsertT(text, ts[c], r)])
  {
    if e.Attach? {
      AttachKeeps(text, a, ts, r, e.at, e.right);
    } else {
      ReplaceKeeps(text, a, ts, r, e.at);
      AdoptKeepsDad(a, r, e.at);
    }
  }

  // ----- deletion -----

  /** The pointers that deletion of a two-sided node `p` follows stay in the arrays. */
  predicate Detachable(a: Links, p: int, m: int) {
    match a case Links(ls, rs, dd) =>
      && Sized(a) && IsPos(p) && IsPos(m)
      && (ls[p] != NIL && rs[p] != NIL ==>
        IsPos(ls[p]) && IsPos(rs[p])
        && (rs[ls[p]] != NIL ==> 0 <= dd[m] <= N && 0 <= ls[m] <= N && dd[m] != p))
  }

  /** The arrays once the sides of `p` have been handed over, and the node that takes its place. */
  function Detach(a: Links, p: int, m: int): (r: (Links, int))
    requires Detachable(a, p, m)
    ensures Sized(r.0)
  {
    if a.rson[p] == NIL then (a, a.lson[p])
    else if a.lson[p] == NIL then (a, a.rson[p])
    else (Handover(a, p, m), m)
  }

  /** The node that replaces `p` when it has two sides; `p` itself stands for none. */
  function Heir(s: BT): int
    requires s.Node?
  {
    if s.l.Node? then Max(s.l) else s.p
  }

  lemma DetachRep(text: seq<byte>, a: Links, s: BT)
    requires |text| == TEXT_SIZE && Sized(a) && Bst(text, s) && Sides(a, s)
    ensures Detachable(a, s.p, Heir(s))
    ensures var (a1, q) := Detach(a, s.p, Heir(s)); var t := DelRoot(s);
      && 0 <= q <= N && (if t.Node? then Sides(a1, t) && t.p == q else q == NIL)
      && (q == NIL || q in Elements(s)) && q != s.p
      && SameOutside(a, a1, Elements(s) - {s.p})
      && a1.dad[s.p] == a.dad[s.p]
      && (forall x :: IsPos(x) && a.dad[x] != NIL ==> a1.dad[x] != NIL)
  {
    BstSeparate(text, s);
    BstPositions(text, s);
    assert a.lson[s.p] == NIL <==> s.l.Leaf?;
    assert a.rson[s.p] == NIL <==> s.r.Leaf?;
    if s.l.Node? && s.r.Node? {
      HandoverRep(a, s);
      assert Elements(s.l) + Elements(s.r) == Elements(s) - {s.p};
      HandoverDad(a, s);
    }
  }

  lemma HandoverDad(a: Links, s: BT)
    requires Sized(a) && Separate(s) && Sides(a, s) && s.l.Node? && s.r.Node?
    ensures var p := s.p; var m := Max(s.l);
      && IsPos(m) && IsPos(a.lson[p]) && IsPos(a.rson[p])
      && (a.rson[a.lson[p]] != NIL ==> 0 <= a.dad[m] <= N && 0 <= a.lson[m] <= N && a.dad[m] != p)
      && Handover(a, p, m).dad[p] == a.dad[p]
      && (forall x :: IsPos(x) && a.dad[x] != NIL ==> Handover(a, p, m).dad[x] != NIL)
  {
    HandoverRep(a, s);
    if Max(s.l) != a.lson[s.p] { DadPoints(a, s.l, a.lson[s.p], s.p, Max(s.l)); }
  }

  lemma DeleteIn(text: seq<byte>, a: Links, ts: seq<BT>, c: int, p: int)
    requires ForestOk(text, a, ts) && 0 <= c < 256 && p in Elements(ts[c])
    ensures IsPos(p) && Detachable(a, p, Heir(SubAt(ts[c], p)))
    ensures var (a1, q) := Detach(a, p, Heir(SubAt(ts[c], p)));
      && 0 <= q <= N && 0 <= a1.dad[p] < N + 258 && (a1.rson[a1.dad[p]] == p || a1.dad[p] <= N)
      && ForestOk(text, Displace(a1, p, q), ts[c := DeleteT(ts[c], p)])
    ensures Elements(DeleteT(ts[c], p)) == Elements(ts[c]) - {p}
  {
    var t := ts[c];
    assert TreeOk(text, a, t, c);
    DeletedTree(text, a, t, c, p);
    var (a1, q) := Detach(a, p, Heir(SubAt(t, p)));
    var b := Displace(a1, p, q);
    Reassemble(text, a, b, ts, c, DeleteT(t, p), p);
  }

  /** Everything the codec needs to take the root of `s` out of the arrays. */
  ghost predicate Unlinkable(a: Links, s: BT) {
    match s
    case Leaf => false
    case Node(l, p, r) =>
      && Detachable(a, p, Heir(s)) && Sides(a, s) && Separate(s)
      && var (a1, q) := Detach(a, p, Heir(s));
         0 <= q <= N && q != p && 0 <= a1.dad[p] < N + 258 && (a1.rson[a1.dad[p]] == p || a1.dad[p] <= N)
  }

  function Unlinked(a: Links, s: BT): Links
    requires Unlinkable(a, s)
  {
    var (a1, q) := Detach(a, s.p, Heir(s));
    Displace(a1, s.p, q)
  }

  lemma DeletedSides(text: seq<byte>, a: Links, t: BT, c: int, p: int)
    requires |text| == TEXT_SIZE && Sized(a) && 0 <= c < 256 && TreeOk(text, a, t, c) && p in Elements(t)
    ensures Unlinkable(a, SubAt(t, p))
  {
    RepSubAt(a, t, a.rson[ROOT + c], ROOT + c, p);
    BstSeparate(text, t);
    SeparateSub(t, p);
    SubAtFacts(text, t, p);
    DetachRep(text, a, SubAt(t, p));
    DeletedTree(text, a, t, c, p);
  }

  /** Deleting a position takes it out of the index, and nothing else. */
  lemma DeleteKeeps(text: seq<byte>, a: Links, ts: seq<BT>, p: int)
    requires ForestOk(text, a, ts) && IsPos(p) && a.dad[p] != NIL
    ensures p in Elements(ts[text[p]])
    ensures var c := text[p]; var s := SubAt(ts[c], p);
      && Unlinkable(a, s)
      && ForestOk(text, Unlinked(a, s), ts[c := DeleteT(ts[c], p)])
      && Elements(DeleteT(ts[c], p)) == Elements(ts[c]) - {p}
  {
    var c := text[p];
    NodeTree(text, a, ts, p);
    assert TreeOk(text, a, ts[c], c);
    DeletedSides(text, a, ts[c], c, p);
    DeleteIn(text, a, ts, c, p);
  }

  lemma DeletedTree(text: seq<byte>, a: Links, t: BT, c: int, p: int)
    requires |text| == TEXT_SIZE && Sized(a) && 0 <= c < 256 && TreeOk(text, a, t, c) && p in Elements(t)
    ensures IsPos(p) && Detachable(a, p, Heir(SubAt(t, p)))
    ensures var (a1, q) := Detach(a, p, Heir(SubAt(t, p)));
      && 0 <= q <= N && 0 <= a1.dad[p] < N + 258 && (a1.rson[a1.dad[p]] == p || a1.dad[p] <= N)
      && SameOutside(a, Displace(a1, p, q), Elements(t) + {p} + {ROOT + c})
      && Displace(a1, p, q).dad[p] == NIL
      && TreeOk(text, Displace(a1, p, q), DeleteT(t, p), c)
    ensures Elements(DeleteT(t, p)) == Elements(t) - {p}
  {
    var s := SubAt(t, p);
    RepInside(a, t, a.rson[ROOT + c], ROOT + c, p);
    RepSubAt(a, t, a.rson[ROOT + c], ROOT + c, p);
    SubAtFacts(text, t, p);
    DetachRep(text, a, s);
    DeleteFacts(text, t, p);
    DelRootFacts(text, s);
    BstSeparate(text, DelRoot(s));
    var (a1, q) := Detach(a, p, Heir(s));
    OutsideWider(a, a1, Elements(s) - {p}, Elements(s) - {p} + {q});
    OutsideWider(a, a1, Elements(s) - {p}, Elements(t) + {p} + {ROOT + c});
    DisplaceTree(text, a, a1, t, c, p, DelRoot(s), q);
    forall x | x in Elements(t) ensures IsPos(x) && text[x] == c && a1.dad[x] != NIL { assert a.dad[x] != NIL; }
    DisplaceOutside(a, a1, p, q, Elements(t) + {p} + {ROOT + c});
    DisplacedTree(text, a, a1, t, DeleteT(t, p), c, p, q);
  }
}
