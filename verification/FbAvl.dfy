/** bench/filebench/fb_avl.c: an AVL tree over nodes with parent links, as an object whose methods
    rewrite the nodes in place. */
module FilebenchAvl {
  import opened AvlTrees
  import opened AvlStore
  import opened AvlRotation
  import opened AvlSwap
  import opened AvlDestroy

  /** What avl_rotation reads in its first case. */
  lemma {:induction false} SingleReady(mem: Mem, root: int, c: Ctx, s: bool, near: Tree, q: int, far: Tree, p: int,
                                       b: Tree, h: nat)
    returns (bal: int)
    requires Loose(mem, root, c, s, Mk(s, near, q, far), p, b, h)
    requires Balanced(Mk(s, near, q, far)) && Balanced(b) && H(Mk(s, near, q, far)) == H(b) + 2 && H(far) <= H(near)
    ensures p in mem && q in mem && (Ptr(far) == NULL || Ptr(far) in mem) && (PtrC(c) == NULL || PtrC(c) in mem)
    ensures mem[p].parent == PtrC(c) && mem[p].child == SideC(c) && Kid(mem[p], s) == q && Kid(mem[q], !s) == Ptr(far)
    ensures bal == mem[q].bal + Sign(!s) && (bal == 0) == (H(far) < H(near)) && (far.Node? ==> far.p in mem)
    ensures bal == Tilt(s, H(near), 1 + Max(H(far), H(b))) && -bal == Tilt(s, H(far), H(b))
            && SingleDiffer(q, Ptr(far), p, PtrC(c))
  {
    SingleParts(mem, root, c, s, near, q, far, p, b, h);
    ReprMk(mem, s, near, q, far, p, s);
    bal := mem[q].bal + Sign(!s);
    SingleTilts(s, near, q, far, b, bal);
  }

  lemma {:induction false} SingleTilts(s: bool, near: Tree, q: int, far: Tree, b: Tree, bal: int)
    requires Balanced(Mk(s, near, q, far)) && H(Mk(s, near, q, far)) == H(b) + 2 && H(far) <= H(near)
    requires bal == Tilt(s, H(near), H(far)) + Sign(!s)
    ensures (bal == 0) == (H(far) < H(near))
    ensures bal == Tilt(s, H(near), 1 + Max(H(far), H(b))) && -bal == Tilt(s, H(far), H(b))
  {
    MkHeight(s, near, q, far);
  }

  /** ... and in its second. */
  lemma {:induction false} DoubleReady(mem: Mem, root: int, c: Ctx, s: bool, near: Tree, q: int, x: Tree, g: int,
                                       y: Tree,
                                       p: int, b: Tree, h: nat) returns (qbal: int, pbal: int)
    requires var far := Mk(s, x, g, y);
             && Loose(mem, root, c, s, Mk(s, near, q, far), p, b, h)
             && Balanced(Mk(s, near, q, far)) && Balanced(b) && H(Mk(s, near, q, far)) == H(b) + 2 && H(near) < H(far)
    ensures p in mem && q in mem && g in mem && (Ptr(x) == NULL || Ptr(x) in mem) && (Ptr(y) == NULL || Ptr(y) in mem)
    ensures (PtrC(c) == NULL || PtrC(c) in mem) && (x.Node? ==> x.p in mem) && (y.Node? ==> y.p in mem)
    ensures mem[p].parent == PtrC(c) && mem[p].child == SideC(c) && Kid(mem[p], s) == q && Kid(mem[q], !s) == g
    ensures Kid(mem[g], s) == Ptr(x) && Kid(mem[g], !s) == Ptr(y)
    ensures qbal == (if mem[g].bal == Sign(!s) then Sign(s) else 0)
            && pbal == if mem[g].bal == Sign(s) then Sign(!s) else 0
    ensures qbal == Tilt(s, H(near), H(x)) && pbal == Tilt(s, H(y), H(b))
    ensures 0 == Tilt(s, 1 + Max(H(near), H(x)), 1 + Max(H(y), H(b)))
    ensures DoubleDiffer(q, Ptr(x), g, Ptr(y), p, PtrC(c))
  {
    DoubleParts(mem, root, c, s, near, q, x, g, y, p, b, h);
    ReprMk(mem, s, near, q, Mk(s, x, g, y), p, s);
    ReprMk(mem, s, x, g, y, q, !s);
    DoubleTilts(s, near, q, x, g, y, b);
    qbal := if mem[g].bal == Sign(!s) then Sign(s) else 0;
    pbal := if mem[g].bal == Sign(s) then Sign(!s) else 0;
  }

  lemma {:induction false} DoubleTilts(s: bool, near: Tree, q: int, x: Tree, g: int, y: Tree, b: Tree)
    requires var far := Mk(s, x, g, y);
             Balanced(Mk(s, near, q, far)) && H(Mk(s, near, q, far)) == H(b) + 2 && H(near) < H(far)
    ensures var bal := Tilt(s, H(x), H(y));
            && Tilt(s, H(near), H(x)) == (if bal == Sign(!s) then Sign(s) else 0)
            && Tilt(s, H(y), H(b)) == (if bal == Sign(s) then Sign(!s) else 0)
            && 0 == Tilt(s, 1 + Max(H(near), H(x)), 1 + Max(H(y), H(b)))
  {
    MkHeight(s, x, g, y);
    MkHeight(s, near, q, Mk(s, x, g, y));
  }

  /** Where avl_remove keeps the node that it puts in place of another one for a while. */
  const TMP: int := -1

  // ---------- Rebalancing after an insertion ----------

  /** All nodes in order, the hole holding t. */
  ghost function All(c: Ctx, t: Tree): seq<int> {
    Before(c) + Seq(t) + After(c)
  }

  /** The subtree at the cursor is one higher than the balances above it say, and leans to one side
      unless it is a single node. */
  ghost predicate Grown(c: Ctx, g: Tree, h: nat) {
    Balanced(g) && BalancedC(c, h) && H(g) == h + 1 && g.Node? && (H(g.l) != H(g.r) || h == 0)
  }

  lemma {:induction false} AllUp(c: Ctx, t: Tree)
    requires c.In?
    ensures All(c.up, Mk(c.s, t, c.p, c.sib)) == All(c, t)
  {
    MkSeq(c.s, t, c.p, c.sib);
  }

  lemma {:induction false} AllSame(c: Ctx, t: Tree, t': Tree)
    requires Seq(t) == Seq(t')
    ensures All(c, t) == All(c, t')
  {
  }

  /** One level up: what the new balance says. */
  lemma {:induction false} GrownUp(c: Ctx, g: Tree, h: nat, new': int)
    requires c.In? && Grown(c, g, h) && new' == Tilt(c.s, h, H(c.sib)) + Sign(c.s)
    ensures var n, h' := Mk(c.s, g, c.p, c.sib), 1 + Max(h, H(c.sib));
            && new' == Tilt(c.s, H(g), H(c.sib)) && BalancedC(c.up, h') && Balanced(c.sib)
            && (new' == 0 ==> Balanced(n) && H(n) == h')
            && (Tilt(c.s, h, H(c.sib)) == 0 ==> Grown(c.up, n, h') && new' != 0)
            && (new' != 0 && Tilt(c.s, h, H(c.sib)) != 0 ==>
                  new' == 2 * Sign(c.s) && H(g) == H(c.sib) + 2 && h' == H(c.sib) + 2
                      && H(Sub(g, c.s)) != H(Sub(g, !c.s)))
  {
    MkHeight(c.s, g, c.p, c.sib);
  }

  lemma {:induction false} AtWhole(mem: Mem, root: int, c: Ctx, t: Tree)
    requires At(mem, root, c, t, H(t)) && Balanced(t) && BalancedC(c, H(t))
    ensures var w := Plug(c, t);
            Repr(mem, w, NULL, false) && root == Ptr(w) && Balanced(w) && NoDup(Ptrs(w)) && Seq(w) == All(c, t)
  {
    ReprPlug(mem, root, c, t);
    PlugBalanced(c, t);
    PlugPtrs(c, t);
    PlugSeq(c, t);
  }

  // ---------- Order ----------

  /** Keys increase along s. */
  ghost predicate Ascending(key: int -> int, s: seq<int>) {
    forall i, j {:trigger key(s[i]), key(s[j])} :: 0 <= i < j < |s| ==> key(s[i]) < key(s[j])
  }

  ghost predicate Below(key: int -> int, s: seq<int>, v: int) {
    forall i :: 0 <= i < |s| ==> key(s[i]) < v
  }

  ghost predicate Above(key: int -> int, s: seq<int>, v: int) {
    forall i :: 0 <= i < |s| ==> key(s[i]) > v
  }

  /** Everything before p has a smaller key, everything after it a larger one. */
  lemma {:induction false} Around(key: int -> int, a: seq<int>, p: int, b: seq<int>)
    requires Ascending(key, a + [p] + b)
    ensures Below(key, a, key(p)) && Above(key, b, key(p))
  {
    var s := a + [p] + b;
    assert s[|a|] == p;
    forall i | 0 <= i < |a| ensures key(a[i]) < key(p) { assert key(s[i]) < key(s[|a|]); }
    forall i | 0 <= i < |b| ensures key(b[i]) > key(p) { assert s[|a| + 1 + i] == b[i]
        && key(s[|a|]) < key(s[|a| + 1 + i]); }
  }

  lemma {:induction false} BetweenAscends(key: int -> int, a: seq<int>, p: int, b: seq<int>)
    requires Ascending(key, a + b) && Below(key, a, key(p)) && Above(key, b, key(p))
    ensures Ascending(key, a + [p] + b)
  {
    var s, r := a + [p] + b, a + b;
    forall i, j | 0 <= i < j < |s| ensures key(s[i]) < key(s[j]) {
      var i', j' := if i < |a| then i else i - 1, if j < |a| then j else j - 1;
      if i != |a| && j != |a| { assert key(r[i']) < key(r[j']); }
    }
  }

  /** Going down past p towards v. */
  lemma {:induction false} PassNode(key: int -> int, c: Ctx, n: Tree, s: bool, v: int)
    requires n.Node? && Ascending(key, All(c, n)) && Below(key, Before(c), v) && Above(key, After(c), v)
    requires if s then key(n.p) < v else v < key(n.p)
    ensures var c' := In(c, s, n.p, Sub(n, !s));
            Below(key, Before(c'), v) && Above(key, After(c'), v) && Plug(c', Sub(n, s)) == Plug(c, n)
  {
    MkSub(n, s);
    var a, b := Before(c) + Seq(n.l), Seq(n.r) + After(c);
    assert All(c, n) == a + [n.p] + b;
    Around(key, a, n.p, b);
    var c' := In(c, s, n.p, Sub(n, !s));
    if s {
      assert Before(c') == a + [n.p];
      forall i | 0 <= i < |a| ensures key(a[i]) < v {}
    } else {
      assert After(c') == [n.p] + b;
      forall i | 0 <= i < |b| ensures key(b[i]) > v {}
    }
  }

  /** A value between the two parts of a sequence is not in it. */
  lemma {:induction false} NotBetween(key: int -> int, a: seq<int>, b: seq<int>, v: int)
    requires Below(key, a, v) && Above(key, b, v)
    ensures forall x :: x in a + b ==> key(x) != v
  {
    forall x | x in a + b ensures key(x) != v {
      if x in a { var i :| 0 <= i < |a| && a[i] == x; } else { var i :| 0 <= i < |b| && b[i] == x; }
    }
  }

  // ---------- A new leaf ----------

  function Leaf(p: int): Tree {
    Node(Nil, p, Nil)
  }

  lemma {:induction false} LeafNoDup(m: multiset<int>, p: int)
    requires NoDup(m + multiset{}) && p !in m
    ensures NoDup(m + multiset{p}) && NoDup(m)
  {
    forall x ensures Count(m + multiset{p}, x) <= 1 && Count(m, x) <= 1 { assert Count(m + multiset{}, x) <= 1; }
  }

  lemma {:induction false} PlaceLeaf(mem: Mem, mem': Mem, root: int, c: Ctx, p: int)
    requires At(mem, root, c, Nil, 0) && p != NULL && p !in PtrsC(c)
    requires mem' == Relinked(mem[p := Rec(NULL, NULL, PtrC(c), SideC(c), 0)], PtrC(c), SideC(c), p)
    ensures At(mem', RootAfter(root, PtrC(c), p), c, Leaf(p), 0)
  {
    var m := mem[p := Rec(NULL, NULL, PtrC(c), SideC(c), 0)];
    LeafNoDup(PtrsC(c), p);
    SameElsewhere(mem, p, m[p], PtrsC(c));
    ReprCSame(mem, m, root, c, NULL, 0);
    ReprCRelinked(m, root, c, NULL, 0, p);
    PtrCIn(c);
    LeafRepr(mem', p, PtrC(c), SideC(c));
  }

  lemma {:induction false} LeafRepr(mem: Mem, p: int, par: int, side: bool)
    requires p != NULL && p in mem && mem[p] == Rec(NULL, NULL, par, side, 0)
    ensures Repr(mem, Leaf(p), par, side) && Ptrs(Leaf(p)) == multiset{p} && Seq(Leaf(p)) == [p] && Ptr(Leaf(p)) == p
  {
    assert Repr(mem, Nil, p, false) && Repr(mem, Nil, p, true) && H(Nil) == 0;
  }

  lemma {:induction false} HoleSeq(c: Ctx)
    ensures Seq(Plug(c, Nil)) == Before(c) + After(c)
  {
    PlugSeq(c, Nil);
    assert Before(c) + [] + After(c) == Before(c) + After(c);
  }

  lemma {:induction false} HolePtrs(c: Ctx)
    ensures Ptrs(Plug(c, Nil)) == PtrsC(c) == PtrsC(c) + multiset{}
  {
    PlugPtrs(c, Nil);
  }

  /** The hole c of tree t, in memory. */
  lemma {:induction false} HoleAt(mem: Mem, root: int, c: Ctx, t: Tree)
    requires Repr(mem, t, NULL, false) && root == Ptr(t) && Balanced(t) && NoDup(Ptrs(t)) && Plug(c, Nil) == t
    ensures At(mem, root, c, Nil, 0) && BalancedC(c, 0)
  {
    ReprPlug(mem, root, c, Nil);
    HolePtrs(c);
    PlugBalanced(c, Nil);
  }

  lemma {:induction false} NotHere(t: Tree, c: Ctx, p: int)
    requires Plug(c, Nil) == t && p !in Seq(t)
    ensures p !in PtrsC(c)
  {
    SeqPtrs(t);
    HolePtrs(c);
  }

  lemma {:induction false} InsertReady(key: int -> int, t: Tree, c: Ctx, p: int) returns (s: seq<int>)
    requires Plug(c, Nil) == t && p !in Seq(t) && p != TMP && TMP !in Seq(t) && Ascending(key, Seq(t))
    requires Below(key, Before(c), key(p)) && Above(key, After(c), key(p))
    ensures s == Before(c) + [p] + After(c) && |s| == |Seq(t)| + 1 && Ascending(key, s) && TMP !in s && p !in PtrsC(c)
  {
    HoleSeq(c);
    NotHere(t, c, p);
    BetweenAscends(key, Before(c), p, After(c));
    s := Before(c) + [p] + After(c);
  }

  lemma {:induction false} LeafSeq(c: Ctx, p: int)
    ensures All(c, Leaf(p)) == Before(c) + [p] + After(c)
  {
    assert Seq(Leaf(p)) == [] + [p] + [];
  }

  // ---------- Searching ----------

  /** The value, if it is there at all, is in n, which hangs in c. */
  ghost predicate Seeking(key: int -> int, mem: Mem, t: Tree, c: Ctx, n: Tree, v: int) {
    && Plug(c, n) == t && Repr(mem, n, PtrC(c), SideC(c)) && Ascending(key, All(c, n))
    && Below(key, Before(c), v) && Above(key, After(c), v)
  }

  lemma {:induction false} SeekStart(key: int -> int, mem: Mem, t: Tree, v: int)
    requires Repr(mem, t, NULL, false) && Ascending(key, Seq(t))
    ensures Seeking(key, mem, t, Top, t, v)
  {
    assert All(Top, t) == Seq(t);
  }

  lemma {:induction false} SeekDown(key: int -> int, mem: Mem, t: Tree, c: Ctx, n: Tree, v: int, s: bool)
    requires Seeking(key, mem, t, c, n, v) && n.Node? && v != key(n.p) && s == (v > key(n.p))
    ensures n.p in mem && Kid(mem[n.p], s) == Ptr(Sub(n, s)) && Seeking(key, mem, t, In(c, s, n.p, Sub(n, !s)),
            Sub(n, s), v)
  {
    PassNode(key, c, n, s, v);
    MkSub(n, s);
    AllUp(In(c, s, n.p, Sub(n, !s)), Sub(n, s));
  }

  lemma {:induction false} SeekHit(key: int -> int, mem: Mem, t: Tree, c: Ctx, n: Tree, v: int)
    requires Seeking(key, mem, t, c, n, v) && n.Node?
    ensures n.p != NULL && n.p in Seq(t)
  {
    PlugSeq(c, n);
  }

  lemma {:induction false} SeekMiss(key: int -> int, mem: Mem, t: Tree, c: Ctx, v: int)
    requires Seeking(key, mem, t, c, Nil, v)
    ensures Plug(c, Nil) == t && (forall x :: x in Seq(t) ==> key(x) != v)
  {
    PlugSeq(c, Nil);
    NotBetween(key, Before(c), After(c), v);
    assert Before(c) + [] + After(c) == Before(c) + After(c);
  }

  // ---------- Rebalancing after a removal ----------

  /** The subtree at the cursor is one lower than the balances above it say. */
  ghost predicate Shrunk(c: Ctx, g: Tree, h: nat) {
    Balanced(g) && BalancedC(c, h) && h == H(g) + 1
  }

  lemma {:induction false} ShrunkUp(c: Ctx, g: Tree, h: nat, new': int)
    requires c.In? && Shrunk(c, g, h) && new' == Tilt(c.s, h, H(c.sib)) - Sign(c.s)
    ensures var n, h' := Mk(c.s, g, c.p, c.sib), 1 + Max(h, H(c.sib));
            && new' == Tilt(c.s, H(g), H(c.sib)) && BalancedC(c.up, h') && Balanced(c.sib)
            && (Tilt(c.s, h, H(c.sib)) == 0 ==> Balanced(n) && H(n) == h')
            && (new' == 0 ==> Shrunk(c.up, n, h'))
            && (new' != 0 && Tilt(c.s, h, H(c.sib)) != 0 ==>
                  new' == 2 * Sign(!c.s) && H(c.sib) == H(g) + 2 && h' == H(g) + 3)
  {
    MkHeight(c.s, g, c.p, c.sib);
  }

  lemma {:induction false} LooseFlip(mem: Mem, root: int, c: Ctx, s: bool, a: Tree, p: int, b: Tree, h: nat)
    requires Loose(mem, root, c, s, a, p, b, h)
    ensures Loose(mem, root, c, !s, b, p, a, h) && Mk(s, a, p, b) == Mk(!s, b, p, a)
  {
    Commute(Ptrs(a), multiset{p}, Ptrs(b));
  }

  lemma {:induction false} Commute(a: multiset<int>, p: multiset<int>, b: multiset<int>)
    ensures a + p + b == b + p + a
  {
  }

  /** A node with one child at most is taken out: its child takes its place. */
  lemma {:induction false} UnlinkRepr(mem: Mem, mem': Mem, root: int, c: Ctx, s: bool, k: Tree, d: int, h: nat)
    requires At(mem, root, c, Mk(s, k, d, Nil), h)
    requires mem' == Relinked(Moved(mem, Ptr(k), PtrC(c), SideC(c)), PtrC(c), SideC(c), Ptr(k))
    ensures At(mem', RootAfter(root, PtrC(c), Ptr(k)), c, k, h)
  {
    ReprMk(mem, s, k, d, Nil, PtrC(c), SideC(c));
    MkPtrs(s, k, d, Nil);
    ThreeParts(PtrsC(c), Ptrs(k), d, multiset{});
    UnlinkApart(PtrsC(c), Ptrs(k), d);
    var m := Moved(mem, Ptr(k), PtrC(c), SideC(c));
    ReprMoved(mem, k, d, s, PtrC(c), SideC(c));
    PtrIn(k);
    PtrCIn(c);
    MovedOutside(mem, Ptr(k), PtrC(c), SideC(c), PtrsC(c), Ptrs(k));
    ReprCSame(mem, m, root, c, d, h);
    ReprCRelinked(m, root, c, d, h, Ptr(k));
    RelinkedOutside(m, PtrC(c), SideC(c), Ptr(k), Ptrs(k), PtrsC(c));
    ReprSame(m, mem', k, PtrC(c), SideC(c));
  }

  lemma {:induction false} UnlinkReady(mem: Mem, root: int, c: Ctx, s: bool, k: Tree, d: int, h: nat)
    requires At(mem, root, c, Mk(s, k, d, Nil), h)
    ensures d in mem && mem[d].parent == PtrC(c) && mem[d].child == SideC(c) && (PtrC(c) == NULL || PtrC(c) in mem)
    ensures Ptr(k) == (if mem[d].kid0 != NULL then mem[d].kid0 else mem[d].kid1) && (Ptr(k) == NULL || Ptr(k) in mem)
  {
    ReprMk(mem, s, k, d, Nil, PtrC(c), SideC(c));
    PtrLinks(mem, k, d, s);
  }

  lemma {:induction false} UnlinkApart(c: multiset<int>, k: multiset<int>, d: int)
    requires NoDup(c + (k + multiset{d} + multiset{}))
    ensures NoDup(c + k)
  {
    forall x ensures Count(c + k, x) <= 1 { assert Count(c + (k + multiset{d} + multiset{}), x) <= 1; }
  }

  lemma {:induction false} MovedOutside(mem: Mem, q: int, par: int, side: bool, ps: multiset<int>, qs: multiset<int>)
    requires Apart(ps, qs) && (q == NULL || q in qs)
    ensures Same(mem, Moved(mem, q, par, side), ps)
  {
    if q != NULL { assert qs[q] > 0; }
  }

  lemma {:induction false} RelinkedOutside(mem: Mem, par: int, side: bool, k: int, ps: multiset<int>, qs: multiset<int>)
    requires Apart(qs, ps) && (par == NULL || par in qs)
    ensures Same(mem, Relinked(mem, par, side, k), ps)
  {
    if par != NULL { assert qs[par] > 0; }
  }

  /** The addresses that the swap touches are there and differ where they must. */
  predicate SwapApart(mem: Mem, d: int, n: int, tmp: int, s: bool) {
    && d in mem && n in mem && d != n && tmp != d && tmp != n
    && var l, r, u := Kid(mem[d], s), Kid(mem[d], !s), mem[d].parent;
       && l in mem && r in mem && l != r && l != d && r != d && l != tmp && r != tmp && r != n
       && (u == NULL || (u in mem && u != tmp && u != n && u != d))
  }

  lemma {:induction false} SwapKeys(mem: Mem, ps: multiset<int>, root: int, d: int, n: int, tmp: int, s: bool)
    requires SwapReady(mem, ps, root, d, n, tmp, s)
    ensures SwapApart(mem, d, n, tmp, s)
  {
    PointsTo(mem, ps, root, d, d);
    PointsTo(mem, ps, root, n, d);
    assert KidLinks(mem, ps, d, s) && KidLinks(mem, ps, d, !s);
  }

  lemma {:induction false} Regroup(s: bool, a: seq<int>, k: seq<int>, d: int, b: seq<int>)
    ensures a + (if s then [d] + k else k + [d]) + b == if s then a + [d] + (k + b) else (a + k) + [d] + b
    ensures a + k + b == a + (k + b)
  {
  }

  lemma {:induction false} OuterSeq(w: Tree, c: Ctx, s: bool, k: Tree, d: int) returns (a: seq<int>, b: seq<int>)
    requires Plug(c, Mk(s, k, d, Nil)) == w
    ensures Seq(w) == a + [d] + b && All(c, k) == a + b
  {
    PlugSeq(c, Mk(s, k, d, Nil));
    MkSeq(s, k, d, Nil);
    a := if s then Before(c) else Before(c) + Seq(k);
    b := if s then Seq(k) + After(c) else After(c);
    assert Seq(Mk(s, k, d, Nil)) == if s then [d] + Seq(k) else Seq(k) + [d];
    Regroup(s, Before(c), Seq(k), d, After(c));
  }

  lemma {:induction false} WithoutFacts(key: int -> int, t: Tree, a: seq<int>, d: int, b: seq<int>)
    requires Ascending(key, Seq(t)) && Seq(t) == a + [d] + b && TMP !in Seq(t)
    ensures Ascending(key, a + b) && d !in a + b && TMP !in a + b && |a + b| == |Seq(t)| - 1
  {
    var s, r := a + [d] + b, a + b;
    Around(key, a, d, b);
    forall i, j | 0 <= i < j < |r| ensures key(r[i]) < key(r[j]) {
      var i', j' := if i < |a| then i else i + 1, if j < |a| then j else j + 1;
      assert key(s[i']) < key(s[j']);
    }
    forall x | x in r ensures x in s {}
  }

  lemma {:induction false} RemoveReady(mem: Mem, root: int, t: Tree, d: int) returns (c: Ctx, m: Tree)
    requires Repr(mem, t, NULL, false) && root == Ptr(t) && NoDup(Ptrs(t)) && d in Seq(t) && TMP !in Seq(t)
    ensures TMP !in Ptrs(t) && Plug(c, m) == t && m.Node? && m.p == d && d in mem
    ensures (mem[d].kid0 != NULL) == m.l.Node? && (mem[d].kid1 != NULL) == m.r.Node?
  {
    c, m := Locate(t, d);
    MkSub(m, false);
    CursorLinks(mem, root, t, c, false, m.l, d, m.r);
    CursorKid(mem, root, t, c, false, m.l, d, m.r);
    SeqPtrs(t);
  }

  /** r is s without d, in the same order. */
  ghost predicate Without(s: seq<int>, d: int, r: seq<int>) {
    exists i :: 0 <= i < |s| && s[i] == d && r == s[..i] + s[i + 1..]
  }

  lemma {:induction false} Split(s: seq<int>, a: seq<int>, d: int, b: seq<int>)
    requires s == a + [d] + b
    ensures Without(s, d, a + b)
  {
    assert s[|a|] == d && a + b == s[..|a|] + s[|a| + 1..];
  }

  /** What the temporary node will point to. */
  lemma {:induction false} SwapBack(mem: Mem, ps: multiset<int>, root: int, d: int, n: int, tmp: int, s: bool)
    requires SwapReady(mem, ps, root, d, n, tmp, s) && n != root
    ensures n in mem && mem[n].parent in mem && mem[n].parent != tmp && mem[n].parent != NULL && OnlyKid(mem[n]) != tmp
    ensures OnlyKid(mem[n]) == NULL || OnlyKid(mem[n]) in mem
  {
    assert KidLinks(mem, ps, n, false) && KidLinks(mem, ps, n, true);
    assert LinksAt(mem, ps, root, NULL, false, mem[n].parent);
  }

  /** A cursor on a tree in memory. */
  lemma {:induction false} CursorAt(mem: Mem, root: int, w: Tree, c: Ctx, m: Tree)
    requires Repr(mem, w, NULL, false) && root == Ptr(w) && Balanced(w) && NoDup(Ptrs(w)) && Plug(c, m) == w
    ensures At(mem, root, c, m, H(m)) && Balanced(m) && BalancedC(c, H(m)) && Seq(w) == All(c, m)
  {
    ReprPlug(mem, root, c, m);
    PlugBalanced(c, m);
    PlugPtrs(c, m);
    PlugSeq(c, m);
  }

  /** ... on a node with one child at most. */
  lemma {:induction false} OneKidAt(mem: Mem, root: int, w: Tree, c: Ctx, s: bool, k: Tree, d: int) returns (h: nat)
    requires Repr(mem, w, NULL, false) && root == Ptr(w) && Balanced(w) && NoDup(Ptrs(w))
             && Plug(c, Mk(s, k, d, Nil)) == w
    ensures At(mem, root, c, Mk(s, k, d, Nil), h) && Balanced(k) && BalancedC(c, h) && h == H(k) + 1
  {
    CursorAt(mem, root, w, c, Mk(s, k, d, Nil));
    MkHeight(s, k, d, Nil);
    h := H(Mk(s, k, d, Nil));
  }

  /** The swapped tree: d is gone, and the temporary node is where n was. */
  lemma {:induction false} SwappedTree(mem: Mem, mem': Mem, root: int, root': int, w: Tree, d: int, n: int, c: Ctx,
                                       s: bool, k: Tree) returns (w': Tree)
    requires Repr(mem, w, NULL, false) && root == Ptr(w) && Balanced(w) && NoDup(Ptrs(w)) && TMP !in Ptrs(w)
    requires Renamed(d, n, TMP, mem, mem', Ptrs(w)) && root' == Ren(d, n, TMP, root)
    requires d != NULL && n != NULL && d != n && d != TMP && n != TMP && Plug(c, Mk(s, k, n, Nil)) == w
    ensures Repr(mem', w', NULL, false) && root' == Ptr(w') && Balanced(w') && NoDup(Ptrs(w'))
    ensures Plug(RenCtx(d, n, TMP, c), Mk(s, RenTree(d, n, TMP, k), TMP, Nil)) == w'
  {
    w' := RenTree(d, n, TMP, w);
    ReprRenamed(d, n, TMP, mem, mem', w, NULL, false);
    RenHeight(d, n, TMP, w);
    RenNoDup(d, n, TMP, w);
    RenPlug(d, n, TMP, c, Mk(s, k, n, Nil));
  }

  /** The nodes before and after d, and that the swap leaves just those. */
  lemma {:induction false} SwappedSeq(w: Tree, c0: Ctx, s: bool, d: int, r: Tree, c: Ctx, k: Tree,
                                      n: int) returns (a: seq<int>, b: seq<int>)
    requires NoDup(Ptrs(w)) && Plug(c, Mk(s, k, n, Nil)) == w && OnSpine(c0, s, d, r, c) && d != n
    ensures Seq(w) == a + [d] + b && All(RenCtx(d, n, TMP, c), RenTree(d, n, TMP, k)) == a + b
    ensures if s then b != [] && b[0] == n else a != [] && a[|a| - 1] == n
  {
    PlugSeq(c, Mk(s, k, n, Nil));
    a, b := NeighbourSeq(c0, s, d, r, c, k, n);
    SeqPtrs(w);
    SwapSeq(d, n, TMP, c, s, k, a, b);
  }

  // ---------- Taking the tree apart ----------

  /** The cookie of avl_destroy_nodes: NULL, or the parent of the last node and which child it was;
      after the root it is NULL with the child bit set. */
  datatype Cookie = Start | Pending(parent: int, child: bool)

  ghost function CookieOf(c: Ctx): Cookie {
    if c.Top? then Pending(NULL, true) else Pending(c.p, c.s)
  }

  lemma {:induction false} FirstSums(ps: multiset<int>, pc: multiset<int>, node: int, post: seq<int>, rest: seq<int>)
    requires pc + multiset{node} == multiset{} + ps && NoDup(ps) && [node] + rest == post + []
    ensures NoDup(pc + multiset{node}) && |post| == 1 + |rest| && [node] + rest == post
  {
    assert multiset{} + ps == ps && post + [] == post;
  }

  lemma {:induction false} LastOff(pc: multiset<int>, node: int)
    requires NoDup(pc + multiset{node})
    ensures NoDup(pc)
  {
    forall x ensures Count(pc, x) <= 1 { assert Count(pc + multiset{node}, x) <= 1; }
  }

  /** Order and nodes around the parent of a node that is cut off. */
  lemma {:induction false} NextSums(c: Ctx)
    requires c.In? && NoDup(PtrsC(c))
    ensures c.s || c.sib.Nil? ==> [c.p] + Rest(c.up) == Rest(c) && NoDup(PtrsC(c.up) + multiset{c.p})
    ensures var c1 := In(c.up, true, c.p, Nil);
            !c.s ==> Post(c.sib) + Rest(c1) == Rest(c) && PtrsC(c1) + Ptrs(c.sib) == PtrsC(c)
  {
    UpNoDup(PtrsC(c.up), c.p, Ptrs(c.sib));
    assert Post(c.sib) + ([c.p] + Rest(c.up)) == Post(c.sib) + [c.p] + Rest(c.up);
    if c.sib.Nil? { assert [] + [c.p] + Rest(c.up) == [c.p] + Rest(c.up); }
    assert PtrsC(In(c.up, true, c.p, Nil)) == PtrsC(c.up) + multiset{c.p} + multiset{};
  }

  lemma {:induction false} UpNoDup(a: multiset<int>, p: int, b: multiset<int>)
    requires NoDup(a + multiset{p} + b)
    ensures NoDup(a + multiset{p}) && a + multiset{p} + multiset{} + b == a + multiset{p} + b
  {
    forall x ensures Count(a + multiset{p}, x) <= 1 { assert Count(a + multiset{p} + b, x) <= 1; }
  }

  // ---------- Neighbours ----------

  /** The element of s before or after position i, or NULL. */
  function Beside(s: seq<int>, i: int, after: bool): int
    requires 0 <= i < |s|
  {
    if after then (if i + 1 < |s| then s[i + 1] else NULL) else (if i > 0 then s[i - 1] else NULL)
  }

  /** The node next to the hole on one side, or NULL. */
  ghost function EndOf(after: bool, c: Ctx): int {
    if after then (if After(c) == [] then NULL else After(c)[0])
    else (if Before(c) == [] then NULL else Before(c)[|Before(c)| - 1])
  }

  lemma {:induction false} EndUp(after: bool, c: Ctx)
    requires c.In?
    ensures EndOf(after, c) == if c.s != after then c.p else EndOf(after, c.up)
  {
  }

  lemma {:induction false} CursorTilt(mem: Mem, root: int, t: Tree, c: Ctx, m: Tree)
    requires Repr(mem, t, NULL, false) && root == Ptr(t) && Plug(c, m) == t && m.Node?
    ensures m.p in mem && mem[m.p].bal == H(m.r) - H(m.l)
  {
    ReprPlug(mem, root, c, m);
  }

  lemma {:induction false} WalkReady(mem: Mem, root: int, t: Tree, c: Ctx, m: Tree, s: bool)
    requires Repr(mem, t, NULL, false) && root == Ptr(t) && NoDup(Ptrs(t)) && Plug(c, m) == t && m.Node?
    ensures m.p in mem && m.p != NULL && Kid(mem[m.p], s) == Ptr(Sub(m, s)) && (Sub(m, s).Node? ==> Sub(m, s).p != NULL)
  {
    MkSub(m, s);
    CursorLinks(mem, root, t, c, s, Sub(m, s), m.p, Sub(m, !s));
    CursorKid(mem, root, t, c, s, Sub(m, s), m.p, Sub(m, !s));
  }

  lemma {:induction false} NearestTop(mem: Mem, root: int, t: Tree, c: Ctx)
    requires Repr(mem, t, NULL, false) && root == Ptr(t) && Plug(c, Nil) == t && PtrC(c) == NULL
    ensures c == Top
  {
    ReprPlug(mem, root, c, Nil);
  }

  lemma {:induction false} FirstSeq(mem: Mem, root: int, t: Tree, c: Ctx, m: Tree)
    requires Plug(c, m) == t && Ptr(m) == NULL && Repr(mem, m, PtrC(c), SideC(c)) && Before(c) == [] && (c.In? ==> !c.s)
    ensures PtrC(c) == if Seq(t) == [] then NULL else Seq(t)[0]
  {
    PtrLinks(mem, m, PtrC(c), SideC(c));
    assert m == Nil;
    HoleSeq(c);
  }

  lemma {:induction false} OneMore(out: seq<int>, node: int, rest: seq<int>, all: seq<int>)
    requires out + ([node] + rest) == all
    ensures (out + [node]) + rest == all
  {
    assert (out + [node]) + rest == out + ([node] + rest);
  }

  lemma {:induction false} CursorSeq(t: Tree, c: Ctx, m: Tree) returns (a: seq<int>, b: seq<int>)
    requires Plug(c, m) == t && m.Node?
    ensures Seq(t) == a + [m.p] + b && a == Before(c) + Seq(m.l) && b == Seq(m.r) + After(c)
  {
    PlugSeq(c, m);
    a, b := Before(c) + Seq(m.l), Seq(m.r) + After(c);
  }

  lemma {:induction false} BesideAt(a: seq<int>, p: int, b: seq<int>, after: bool)
    ensures var s := a + [p] + b;
            s[|a|] == p && Beside(s, |a|, after) == if after then (if b == [] then NULL else b[0])
                else (if a == [] then NULL else a[|a| - 1])
  {
  }

  lemma {:induction false} BesideNeighbour(t: Tree, c0: Ctx, s: bool, d: int, r: Tree, c: Ctx, k: Tree, n: int)
    requires OnSpine(c0, s, d, r, c) && Plug(c, Mk(s, k, n, Nil)) == t
    ensures exists i :: 0 <= i < |Seq(t)| && Seq(t)[i] == d && n == Beside(Seq(t), i, s)
  {
    PlugSeq(c, Mk(s, k, n, Nil));
    var a, b := NeighbourSeq(c0, s, d, r, c, k, n);
    BesideAt(a, d, b, s);
    assert Seq(t) == a + [d] + b;
  }

  lemma {:induction false} BesideEnd(t: Tree, c: Ctx, s: bool, d: int, r: Tree, n: int)
    requires Plug(c, Mk(s, Nil, d, r)) == t && n == EndOf(s, c)
    ensures exists i :: 0 <= i < |Seq(t)| && Seq(t)[i] == d && n == Beside(Seq(t), i, s)
  {
    var a, b := CursorSeq(t, c, Mk(s, Nil, d, r));
    BesideAt(a, d, b, s);
    assert Seq(Nil) == [];
  }

  class AvlTree {
    const key: int -> int
    var mem: Mem
    var root: int
    var numnodes: int
    ghost var t: Tree
    /** How many rotations there have been. */
    ghost var turns: nat

    /** The parent, or the root, gets k in place of the old child. */
    method Relink(par: int, side: bool, k: int)
      requires par == NULL || par in mem
      modifies this`mem, this`root
      ensures mem == Relinked(old(mem), par, side, k) && root == RootAfter(old(root), par, k)
    {
      if par != NULL {
        mem := mem[par := WithKid(mem[par], side, k)];
      } else {
        root := k;
      }
    }

    /** The writes of avl_rotation's first case below the parent. */
    method WriteSingle(node: int, child: int, cright: int, left: bool, parent: int, which: bool, bal: int)
      requires node in mem && child in mem && (cright == NULL || cright in mem)
      requires node != child && (cright != NULL ==> cright != node && cright != child)
      modifies this`mem
      ensures SingleWritten(old(mem), mem, left, child, cright, node, parent, which, bal)
    {
      var right := !left;
      mem := mem[node := WithKid(mem[node], left, cright)];
      if cright != NULL {
        mem := mem[cright := mem[cright].(parent := node, child := left)];
      }
      mem := mem[child := WithKid(mem[child], right, node)];
      mem := mem[node := mem[node].(bal := -bal, child := right, parent := child)];
      mem := mem[child := mem[child].(bal := bal, child := which, parent := parent)];
    }

    /** The writes of the second case. */
    method WriteDouble(node: int, child: int, gchild: int, gleft: int, gright: int, left: bool, parent: int,
                       which: bool,
                       childBal: int, nodeBal: int)
      requires node in mem && child in mem && gchild in mem && (gleft == NULL || gleft in mem)
               && (gright == NULL || gright in mem)
      requires DoubleDiffer(child, gleft, gchild, gright, node, NULL)
      modifies this`mem
      ensures DoubleWritten(old(mem), mem, left, child, gleft, gchild, gright, node, parent, which, childBal, nodeBal)
    {
      var right := !left;
      mem := mem[node := WithKid(mem[node], left, gright)];
      if gright != NULL {
        mem := mem[gright := mem[gright].(parent := node, child := left)];
      }
      mem := mem[child := WithKid(mem[child], right, gleft)];
      if gleft != NULL {
        mem := mem[gleft := mem[gleft].(parent := child, child := right)];
      }
      mem := mem[gchild := WithKid(mem[gchild], left, child)];
      mem := mem[child := mem[child].(bal := childBal, parent := gchild, child := left)];
      mem := mem[gchild := WithKid(mem[gchild], right, node)];
      mem := mem[node := mem[node].(bal := nodeBal, parent := gchild, child := right)];
      mem := mem[gchild := mem[gchild].(bal := 0, parent := parent, child := which)];
    }

    /** avl_rotation, first case: the child is not heavy on the inner side. */
    method RotateOnce(node: int, left: bool, ghost c: Ctx, ghost near: Tree, ghost q: int, ghost far: Tree,
                      ghost b: Tree, ghost h: nat)
      returns (shorter: bool)
      requires Loose(mem, root, c, left, Mk(left, near, q, far), node, b, h)
      requires Balanced(Mk(left, near, q, far)) && Balanced(b) && H(Mk(left, near, q, far)) == H(b) + 2
               && H(far) <= H(near)
      modifies this`mem, this`root
      ensures At(mem, root, c, Single(left, near, q, far, node, b), h) && shorter == (H(far) < H(near))
    {
      ghost var bal' := SingleReady(mem, root, c, left, near, q, far, node, b, h);
      var parent, which := mem[node].parent, mem[node].child;
      var child := Kid(mem[node], left);
      var bal := mem[child].bal + Sign(!left);
      WriteSingle(node, child, Kid(mem[child], !left), left, parent, which, bal);
      ghost var m := mem;
      Relink(parent, which, child);
      shorter := bal == 0;
      SingleDone(old(mem), m, mem, old(root), c, left, near, q, far, node, b, h, bal);
    }

    /** avl_rotation, second case. */
    method RotateTwice(node: int, left: bool, ghost c: Ctx, ghost near: Tree, ghost q: int, ghost x: Tree,
                       ghost g: int, ghost y: Tree,
                       ghost b: Tree, ghost h: nat)
      requires Loose(mem, root, c, left, Mk(left, near, q, Mk(left, x, g, y)), node, b, h)
      requires Balanced(Mk(left, near, q, Mk(left, x, g, y))) && Balanced(b)
               && H(Mk(left, near, q, Mk(left, x, g, y))) == H(b) + 2
      requires H(near) < H(Mk(left, x, g, y))
      modifies this`mem, this`root
      ensures At(mem, root, c, Double(left, near, q, x, g, y, node, b), h)
    {
      ghost var qbal, pbal := DoubleReady(mem, root, c, left, near, q, x, g, y, node, b, h);
      var parent, which := mem[node].parent, mem[node].child;
      var child := Kid(mem[node], left);
      var gchild := Kid(mem[child], !left);
      var balance := mem[gchild].bal;
      var childBal := if balance == Sign(!left) then Sign(left) else 0;
      var nodeBal := if balance == Sign(left) then Sign(!left) else 0;
      WriteDouble(node, child, gchild, Kid(mem[gchild], left), Kid(mem[gchild], !left), left, parent, which, childBal,
          nodeBal);
      ghost var m := mem;
      Relink(parent, which, gchild);
      DoubleDone(old(mem), m, mem, old(root), c, left, near, q, x, g, y, node, b, h, childBal, nodeBal);
    }

    /** avl_rotation: for a node whose child on the heavy side is two higher than the other one.  The
        result says whether the subtree got shorter. */
    method Rotate(node: int, balance: int, ghost c: Ctx, ghost s: bool, ghost a: Tree, ghost b: Tree, ghost h: nat)
      returns (shorter: bool, ghost t': Tree)
      requires Loose(mem, root, c, s, a, node, b, h) && balance == 2 * Sign(s)
      requires Balanced(a) && Balanced(b) && H(a) == H(b) + 2
      modifies this`mem, this`root, this`turns
      ensures At(mem, root, c, t', h) && Balanced(t') && Seq(t') == Seq(Mk(s, a, node, b))
      ensures H(t') == if shorter then H(b) + 2 else H(b) + 3
      ensures shorter == (H(Sub(a, s)) != H(Sub(a, !s))) && turns == old(turns) + 1
    {
      turns := turns + 1;
      var left := !(balance < 0);
      ghost var near, q, far := Sub(a, left), a.p, Sub(a, !left);
      MkSub(a, left);
      MkHeight(left, near, q, far);
      ReprMk(mem, left, near, q, far, node, left);
      var child := Kid(mem[node], left);
      if mem[child].bal != Sign(!left) {
        SingleHeight(left, near, q, far, node, b);
        SingleSeq(left, near, q, far, node, b);
        t' := Single(left, near, q, far, node, b);
        shorter := RotateOnce(node, left, c, near, q, far, b, h);
      } else {
        ghost var x, g, y := Sub(far, left), far.p, Sub(far, !left);
        MkSub(far, left);
        DoubleHeight(left, near, q, x, g, y, node, b);
        DoubleSeq(left, near, q, x, g, y, node, b);
        t' := Double(left, near, q, x, g, y, node, b);
        RotateTwice(node, left, c, near, q, x, g, y, b, h);
        shorter := true;
      }
    }

    /** The memory represents the tree w. */
    ghost predicate Holds(w: Tree)
      reads this
    {
      Repr(mem, w, NULL, false) && root == Ptr(w) && Balanced(w) && NoDup(Ptrs(w))
    }

    method SetBalance(node: int, bal: int)
      requires node in mem
      modifies this`mem
      ensures mem == old(mem)[node := old(mem)[node].(bal := bal)]
    {
      mem := mem[node := mem[node].(bal := bal)];
    }

    /** A node gets the balance that its children have. */
    method StoreBalance(node: int, bal: int, ghost c: Ctx, ghost s: bool, ghost a: Tree, ghost b: Tree, ghost h: nat)
      requires Loose(mem, root, c, s, a, node, b, h) && bal == Tilt(s, H(a), H(b))
      modifies this`mem
      ensures At(mem, root, c, Mk(s, a, node, b), h)
    {
      SetBalance(node, bal);
      Settle(old(mem), root, c, s, a, node, b, h, mem);
    }

    /** A rotation at the node above the cursor, whose child on side s is two higher than the other. */
    method RotateAbove(node: int, balance: int, ghost c: Ctx, ghost s: bool, ghost a: Tree, ghost b: Tree,
                       ghost h: nat, ghost n: Tree)
      returns (shorter: bool, ghost g: Tree)
      requires Loose(mem, root, c, s, a, node, b, h) && balance == 2 * Sign(s) && Balanced(a) && Balanced(b)
               && H(a) == H(b) + 2
      requires n == Mk(s, a, node, b)
      modifies this`mem, this`root, this`turns
      ensures At(mem, root, c, g, h) && Balanced(g) && All(c, g) == All(c, n)
      ensures H(g) == (if shorter then H(b) + 2 else H(b) + 3) && shorter == (H(Sub(a, s)) != H(Sub(a, !s)))
      ensures turns == old(turns) + 1
    {
      shorter, g := Rotate(node, balance, c, s, a, b, h);
      AllSame(c, g, n);
    }

    /** One turn of the loop of avl_insert. */
    method GrowUp(node: int, which: bool, ghost c: Ctx, ghost g: Tree, ghost h: nat, ghost h': nat, ghost n: Tree)
      returns (done: bool, ghost g': Tree)
      requires c.In? && node == c.p && which == c.s && Loose(mem, root, c.up, c.s, g, c.p, c.sib, h') && Grown(c, g, h)
      requires mem[c.p].bal == Tilt(c.s, h, H(c.sib)) && h' == 1 + Max(h, H(c.sib)) && n == Mk(c.s, g, c.p, c.sib)
      modifies this`mem, this`root, this`turns
      ensures At(mem, root, c.up, g', h') && All(c.up, g') == All(c.up, n)
      ensures if done then H(g') == h' && Balanced(g') && BalancedC(c.up, h') else Grown(c.up, g', h') && g'.p == node
      ensures if done then turns <= old(turns) + 1 else turns == old(turns)
    {
      var oldBalance := mem[node].bal;
      var newBalance := oldBalance + Sign(which);
      GrownUp(c, g, h, newBalance);
      if newBalance == 0 || oldBalance == 0 {
        StoreBalance(node, newBalance, c.up, c.s, g, c.sib, h');
        done, g' := newBalance == 0, n;
      } else {
        var shorter;
        shorter, g' := RotateAbove(node, newBalance, c.up, c.s, g, c.sib, h', n);
        done := true;
      }
    }

    /** ... with the cursor one level up. */
    method GrowTurn(node: int, side: bool, ghost c: Ctx, ghost g: Tree, ghost h: nat)
      returns (done: bool, parent: int, which: bool, ghost c': Ctx, ghost g': Tree, ghost h': nat)
      requires c.In? && node == c.p && side == c.s && At(mem, root, c, g, h) && Grown(c, g, h)
      modifies this`mem, this`root, this`turns
      ensures c' == c.up && parent == PtrC(c') && which == SideC(c') && At(mem, root, c', g', h')
              && All(c', g') == All(c, g)
      ensures if done then H(g') == h' && Balanced(g') && BalancedC(c', h') else Grown(c', g', h')
      ensures if done then turns <= old(turns) + 1 else turns == old(turns)
    {
      Up(mem, root, c, g, h);
      AllUp(c, g);
      c', h' := c.up, 1 + Max(h, H(c.sib));
      parent, which := mem[node].parent, mem[node].child;
      done, g' := GrowUp(node, side, c, g, h, h', Mk(c.s, g, c.p, c.sib));
    }

    /** The loop of avl_insert. */
    method FixAfterInsert(parent0: int, which0: bool, ghost c0: Ctx, ghost g0: Tree,
                          ghost h0: nat) returns (ghost w: Tree)
      requires At(mem, root, c0, g0, h0) && Grown(c0, g0, h0) && parent0 == PtrC(c0) && which0 == SideC(c0)
      modifies this`mem, this`root, this`turns
      ensures Holds(w) && Seq(w) == All(c0, g0) && turns <= old(turns) + 1
    {
      var parent, which, done := parent0, which0, false;
      ghost var c, g, h := c0, g0, h0;
      while parent != NULL && !done
        invariant At(mem, root, c, g, h) && All(c, g) == All(c0, g0) && parent == PtrC(c) && which == SideC(c)
        invariant if done then H(g) == h && Balanced(g) && BalancedC(c, h) else Grown(c, g, h)
        invariant if done then turns <= old(turns) + 1 else turns == old(turns)
        decreases Depth(c)
      {
        done, parent, which, c, g, h := GrowTurn(parent, which, c, g, h);
      }
      AtWhole(mem, root, c, g);
      w := Plug(c, g);
    }

    /** One turn of the loop of avl_remove. */
    method ShrinkUp(node: int, which: bool, ghost c: Ctx, ghost g: Tree, ghost h: nat, ghost h': nat, ghost n: Tree)
      returns (done: bool, ghost g': Tree)
      requires c.In? && node == c.p && which == c.s && Loose(mem, root, c.up, c.s, g, c.p, c.sib, h') && Shrunk(c, g, h)
      requires mem[c.p].bal == Tilt(c.s, h, H(c.sib)) && h' == 1 + Max(h, H(c.sib)) && n == Mk(c.s, g, c.p, c.sib)
      modifies this`mem, this`root, this`turns
      ensures At(mem, root, c.up, g', h') && All(c.up, g') == All(c.up, n)
      ensures if done then H(g') == h' && Balanced(g') && BalancedC(c.up, h') else Shrunk(c.up, g', h')
      ensures turns <= old(turns) + 1
    {
      var oldBalance := mem[node].bal;
      var newBalance := oldBalance - Sign(which);
      ShrunkUp(c, g, h, newBalance);
      if oldBalance == 0 || newBalance == 0 {
        StoreBalance(node, newBalance, c.up, c.s, g, c.sib, h');
        done, g' := oldBalance == 0, n;
      } else {
        LooseFlip(mem, root, c.up, c.s, g, node, c.sib, h');
        var shorter;
        shorter, g' := RotateAbove(node, newBalance, c.up, !c.s, c.sib, g, h', n);
        done := !shorter;
      }
    }

    /** ... with the cursor one level up. */
    method ShrinkTurn(node: int, side: bool, ghost c: Ctx, ghost g: Tree, ghost h: nat)
      returns (done: bool, parent: int, which: bool, ghost c': Ctx, ghost g': Tree, ghost h': nat)
      requires c.In? && node == c.p && side == c.s && At(mem, root, c, g, h) && Shrunk(c, g, h)
      modifies this`mem, this`root, this`turns
      ensures c' == c.up && parent == PtrC(c') && which == SideC(c') && At(mem, root, c', g', h')
              && All(c', g') == All(c, g)
      ensures if done then H(g') == h' && Balanced(g') && BalancedC(c', h') else Shrunk(c', g', h')
      ensures turns <= old(turns) + 1
    {
      Up(mem, root, c, g, h);
      AllUp(c, g);
      c', h' := c.up, 1 + Max(h, H(c.sib));
      parent, which := mem[node].parent, mem[node].child;
      done, g' := ShrinkUp(node, side, c, g, h, h', Mk(c.s, g, c.p, c.sib));
    }

    /** The loop of avl_remove. */
    method FixAfterRemove(parent0: int, which0: bool, ghost c0: Ctx, ghost g0: Tree,
                          ghost h0: nat) returns (ghost w: Tree)
      requires At(mem, root, c0, g0, h0) && Shrunk(c0, g0, h0) && parent0 == PtrC(c0) && which0 == SideC(c0)
      modifies this`mem, this`root, this`turns
      ensures Holds(w) && Seq(w) == All(c0, g0)
    {
      var parent, which, done := parent0, which0, false;
      ghost var c, g, h := c0, g0, h0;
      while parent != NULL && !done
        invariant At(mem, root, c, g, h) && All(c, g) == All(c0, g0) && parent == PtrC(c) && which == SideC(c)
        invariant if done then H(g) == h && Balanced(g) && BalancedC(c, h) else Shrunk(c, g, h)
        decreases Depth(c)
      {
        done, parent, which, c, g, h := ShrinkTurn(parent, which, c, g, h);
      }
      AtWhole(mem, root, c, g);
      w := Plug(c, g);
    }

    /** A node with one child at most gives its place to that child. */
    method Bypass(delete: int, ghost c: Ctx, ghost s: bool, ghost k: Tree, ghost h: nat) returns (parent: int,
                  which: bool)
      requires At(mem, root, c, Mk(s, k, delete, Nil), h)
      modifies this`mem, this`root
      ensures At(mem, root, c, k, h) && parent == PtrC(c) && which == SideC(c)
    {
      UnlinkReady(mem, root, c, s, k, delete, h);
      parent, which := mem[delete].parent, mem[delete].child;
      var node := if mem[delete].kid0 != NULL then mem[delete].kid0 else mem[delete].kid1;
      if node != NULL {
        mem := mem[node := mem[node].(parent := parent, child := which)];
      }
      assert mem == Moved(old(mem), Ptr(k), PtrC(c), SideC(c));
      Relink(parent, which, node);
      UnlinkRepr(old(mem), mem, old(root), c, s, k, delete, h);
    }

    /** The common end of avl_remove: the node leaves the tree, which is balanced again. */
    method Unlink(delete: int, ghost c: Ctx, ghost s: bool, ghost k: Tree, ghost h: nat) returns (ghost w: Tree)
      requires At(mem, root, c, Mk(s, k, delete, Nil), h) && Balanced(k) && BalancedC(c, h) && h == H(k) + 1
      modifies this`mem, this`root, this`turns
      ensures Holds(w) && Seq(w) == All(c, k)
    {
      var parent, which := Bypass(delete, c, s, k, h);
      w := FixAfterRemove(parent, which, c, k, h);
    }

    /** Down one to the left, then as far as possible to the right: the node next to d. */
    method Neighbour(d: int, left: bool, ghost w: Tree, ghost c0: Ctx, ghost l: Tree, ghost r: Tree) returns (n: int,
                     ghost c: Ctx, ghost k: Tree)
      requires Holds(w) && Plug(c0, Mk(left, l, d, r)) == w && l.Node?
      ensures Plug(c, Mk(left, k, n, Nil)) == w && OnSpine(c0, left, d, r, c)
    {
      CursorLinks(mem, root, w, c0, left, l, d, r);
      n := Kid(mem[d], left);
      c := In(c0, left, d, r);
      ghost var m := l;
      MkSub(m, !left);
      CursorLinks(mem, root, w, c, !left, Sub(m, !left), m.p, Sub(m, left));
      while Kid(mem[n], !left) != NULL
        invariant Plug(c, m) == w && OnSpine(c0, left, d, r, c) && m.Node? && n == m.p
        invariant Linked(mem, n, !left, Ptr(Sub(m, !left)), Ptr(Sub(m, left)), PtrC(c), SideC(c))
        decreases m
      {
        SpineDown(c0, left, d, r, c, m);
        n := Kid(mem[n], !left);
        c, m := In(c, !left, m.p, Sub(m, left)), Sub(m, !left);
        MkSub(m, !left);
        CursorLinks(mem, root, w, c, !left, Sub(m, !left), m.p, Sub(m, left));
      }
      MkSub(m, left);
      k := Sub(m, left);
      CursorKid(mem, root, w, c, left, k, n, Sub(m, !left));
    }

    /** The two copies; n does not become its own child. */
    method CopyNodes(d: int, n: int, left: bool)
      requires SwapApart(mem, d, n, TMP, left)
      modifies this`mem
      ensures var m, l := old(mem), Kid(old(mem)[d], left);
              mem == m[TMP := m[n]][n := WithKid(m[d], left, if l == n then TMP else l)]
    {
      mem := mem[TMP := mem[n]];
      mem := mem[n := mem[d]];
      if Kid(mem[n], left) == n {
        mem := mem[n := WithKid(mem[n], left, TMP)];
      }
    }

    /** tmp gets the links of n, and n those of d. */
    method TakePlace(d: int, n: int, left: bool)
      requires SwapApart(mem, d, n, TMP, left)
      modifies this`mem, this`root
      ensures TopSwapped(old(mem), mem, d, n, TMP, left)
      ensures root == if old(mem)[d].parent == NULL then n else old(root)
    {
      CopyNodes(d, n, left);
      Relink(mem[n].parent, mem[n].child, n);
      var l, r := Kid(mem[n], left), Kid(mem[n], !left);
      mem := mem[l := mem[l].(parent := n)];
      mem := mem[r := mem[r].(parent := n)];
    }

    /** tmp's parent and child point back to it. */
    method TakeOver()
      requires TMP in mem && (mem[TMP].parent in mem) && mem[TMP].parent != TMP && OnlyKid(mem[TMP]) != TMP
      requires OnlyKid(mem[TMP]) == NULL || OnlyKid(mem[TMP]) in mem
      modifies this`mem
      ensures BottomSwapped(old(mem), mem, TMP)
    {
      var parent, which := mem[TMP].parent, mem[TMP].child;
      mem := mem[parent := WithKid(mem[parent], which, TMP)];
      var child := Kid(mem[TMP], mem[TMP].kid1 != NULL);
      if child != NULL {
        mem := mem[child := mem[child].(parent := TMP)];
      }
    }

    /** The exchange of d with n through the temporary node. */
    method Swap(d: int, n: int, left: bool, ghost w: Tree, ghost c0: Ctx, ghost l: Tree, ghost r: Tree, ghost c: Ctx,
                ghost k: Tree)
      requires Holds(w) && TMP !in Ptrs(w) && Plug(c0, Mk(left, l, d, r)) == w && l.Node? && r.Node?
      requires Plug(c, Mk(left, k, n, Nil)) == w && OnSpine(c0, left, d, r, c)
      modifies this`mem, this`root
      ensures Renamed(d, n, TMP, old(mem), mem, Ptrs(w)) && root == Ren(d, n, TMP, old(root))
      ensures d != NULL && n != NULL && d != n && d != TMP && n != TMP
    {
      TreeLinked(mem, root, w);
      TwoCursors(mem, root, w, c0, left, l, d, r, c, k, n);
      ReadyToSwap(mem, Ptrs(w), root, d, n, TMP, left, Ptr(l), Ptr(r), PtrC(c0), SideC(c0), Ptr(k), PtrC(c), SideC(c));
      SwapKeys(mem, Ptrs(w), root, d, n, TMP, left);
      SwapBack(mem, Ptrs(w), root, d, n, TMP, left);
      TakePlace(d, n, left);
      ghost var m := mem;
      TakeOver();
      SwapIsRenaming(old(mem), m, mem, Ptrs(w), old(root), d, n, TMP, left);
    }

    /** Removal of a node with two children: the neighbour on the higher side takes its place. */
    method RemoveInner(d: int, ghost w: Tree, ghost c0: Ctx, ghost m: Tree) returns (n: int, ghost w': Tree,
                       ghost a: seq<int>, ghost b: seq<int>)
      requires Holds(w) && TMP !in Ptrs(w) && Plug(c0, m) == w && m.Node? && m.p == d && m.l.Node? && m.r.Node?
      modifies this`mem, this`root, this`turns
      ensures Holds(w') && Seq(w) == a + [d] + b && Seq(w') == a + b
      ensures if H(m.l) < H(m.r) then b != [] && n == b[0] else a != [] && n == a[|a| - 1]
    {
      CursorLinks(mem, root, w, c0, false, m.l, d, m.r);
      CursorTilt(mem, root, w, c0, m);
      var left := mem[d].bal > 0;
      MkSub(m, left);
      ghost var c, k;
      n, c, k := Neighbour(d, left, w, c0, Sub(m, left), Sub(m, !left));
      Swap(d, n, left, w, c0, Sub(m, left), Sub(m, !left), c, k);
      a, b := SwappedSeq(w, c0, left, d, Sub(m, !left), c, k, n);
      ghost var w1 := SwappedTree(old(mem), mem, old(root), root, w, d, n, c, left, k);
      ghost var c', k' := RenCtx(d, n, TMP, c), RenTree(d, n, TMP, k);
      ghost var h := OneKidAt(mem, root, w1, c', left, k', TMP);
      w' := Unlink(TMP, c', left, k', h);
    }

    /** Removal of a node with one child at most. */
    method RemoveOuter(d: int, ghost w: Tree, ghost c: Ctx, ghost m: Tree) returns (ghost w': Tree, ghost a: seq<int>,
                       ghost b: seq<int>)
      requires Holds(w) && Plug(c, m) == w && m.Node? && m.p == d && (m.l.Nil? || m.r.Nil?)
      modifies this`mem, this`root, this`turns
      ensures Holds(w') && Seq(w) == a + [d] + b && Seq(w') == a + b
    {
      ghost var s := m.l.Nil?;
      MkSub(m, s);
      ghost var k := Sub(m, s);
      ghost var h := OneKidAt(mem, root, w, c, s, k, d);
      a, b := OuterSeq(w, c, s, k, d);
      w' := Unlink(d, c, s, k, h);
    }

    method RemoveNode(d: int, ghost w: Tree, ghost c: Ctx, ghost m: Tree) returns (ghost w': Tree, ghost a: seq<int>,
                      ghost b: seq<int>)
      requires Holds(w) && TMP !in Ptrs(w) && Plug(c, m) == w && m.Node? && m.p == d && d in mem
      requires (mem[d].kid0 != NULL) == m.l.Node? && (mem[d].kid1 != NULL) == m.r.Node?
      modifies this`mem, this`root, this`turns
      ensures Holds(w') && Seq(w) == a + [d] + b && Seq(w') == a + b
    {
      if mem[d].kid0 != NULL && mem[d].kid1 != NULL {
        var n;
        n, w', a, b := RemoveInner(d, w, c, m);
      } else {
        w', a, b := RemoveOuter(d, w, c, m);
      }
    }

    ghost predicate Valid()
      reads this
    {
      Holds(t) && numnodes == |Seq(t)| && Ascending(key, Seq(t)) && TMP !in Seq(t)
    }

    /** avl_create */
    constructor (key: int -> int, mem: Mem)
      ensures Valid() && t == Nil && this.key == key
    {
      this.key, this.mem, root, numnodes, t, turns := key, mem, NULL, 0, Nil, 0;
    }

    /** avl_find: the node with the value, or NULL and the place where it belongs. */
    method Find(value: int) returns (found: int, prev: int, child: bool, ghost c: Ctx)
      requires Valid()
      ensures found != NULL ==> found in Seq(t) && key(found) == value
      ensures found == NULL ==> (forall x :: x in Seq(t) ==> key(x) != value)
      ensures found == NULL ==> Plug(c, Nil) == t && prev == PtrC(c) && child == SideC(c)
      ensures found == NULL ==> Below(key, Before(c), value) && Above(key, After(c), value)
    {
      var node := root;
      prev, child := NULL, false;
      c := Top;
      ghost var n := t;
      SeekStart(key, mem, t, value);
      while node != NULL
        invariant Seeking(key, mem, t, c, n, value) && node == Ptr(n) && prev == PtrC(c) && child == SideC(c)
        decreases n
      {
        SeekHit(key, mem, t, c, n, value);
        prev := node;
        if value == key(node) {
          return node, NULL, false, c;
        }
        child := value > key(node);
        SeekDown(key, mem, t, c, n, value, child);
        c, n := In(c, child, node, Sub(n, !child)), Sub(n, child);
        node := Kid(mem[node], child);
      }
      found := NULL;
      if n.Node? { SeekHit(key, mem, t, c, n, value); }
      SeekMiss(key, mem, t, c, value);
    }

    /** The new node becomes a leaf at the hole. */
    method HangLeaf(node: int, parent: int, which: bool, ghost c: Ctx)
      requires At(mem, root, c, Nil, 0) && BalancedC(c, 0) && parent == PtrC(c) && which == SideC(c)
      requires node != NULL && node !in PtrsC(c)
      modifies this`mem, this`root
      ensures At(mem, root, c, Leaf(node), 0) && Grown(c, Leaf(node), 0)
    {
      mem := mem[node := Rec(NULL, NULL, parent, which, 0)];
      PtrCIn(c);
      Relink(parent, which, node);
      PlaceLeaf(old(mem), mem, old(root), c, node);
    }

    method InsertAt(node: int, parent: int, which: bool, ghost c: Ctx) returns (ghost w: Tree)
      requires At(mem, root, c, Nil, 0) && BalancedC(c, 0) && parent == PtrC(c) && which == SideC(c)
      requires node != NULL && node !in PtrsC(c)
      modifies this`mem, this`root, this`turns
      ensures Holds(w) && Seq(w) == Before(c) + [node] + After(c) && turns <= old(turns) + 1
    {
      HangLeaf(node, parent, which, c);
      LeafSeq(c, node);
      w := FixAfterInsert(parent, which, c, Leaf(node), 0);
    }

    /** avl_insert, at a place where the new node is in order. */
    method Insert(node: int, parent: int, which: bool, ghost c: Ctx)
      requires Valid() && Plug(c, Nil) == t && parent == PtrC(c) && which == SideC(c)
      requires node != NULL && node != TMP && node !in Seq(t)
      requires Below(key, Before(c), key(node)) && Above(key, After(c), key(node))
      modifies this
      ensures Valid() && Seq(t) == Before(c) + [node] + After(c) && numnodes == old(numnodes) + 1
      ensures turns <= old(turns) + 1
    {
      HoleAt(mem, root, c, t);
      ghost var s := InsertReady(key, t, c, node);
      numnodes := numnodes + 1;
      t := InsertAt(node, parent, which, c);
    }

    /** avl_add: a node whose key is not there yet is inserted in order; else nothing changes. */
    method Add(node: int)
      requires Valid() && node != NULL && node != TMP && node !in Seq(t)
      modifies this
      ensures Valid() && turns <= old(turns) + 1
      ensures if exists x :: x in old(Seq(t)) && key(x) == key(node) then t == old(t) && numnodes == old(numnodes)
              else numnodes == old(numnodes) + 1
                   && exists i :: 0 <= i <= |old(Seq(t))| && Seq(t) == old(Seq(t))[..i] + [node] + old(Seq(t))[i..]
    {
      var found, prev, child;
      ghost var c;
      found, prev, child, c := Find(key(node));
      if found != NULL { return; }
      HoleSeq(c);
      ghost var i, s := |Before(c)|, Seq(t);
      assert s[..i] == Before(c) && s[i..] == After(c);
      Insert(node, prev, child, c);
      assert Seq(t) == s[..i] + [node] + s[i..];
    }

    /** avl_remove: the node, and nothing else, leaves the order. */
    method Remove(d: int)
      requires Valid() && d in Seq(t)
      modifies this
      ensures Valid() && d !in Seq(t) && numnodes == old(numnodes) - 1
      ensures Without(old(Seq(t)), d, Seq(t))
    {
      ghost var c, m := RemoveReady(mem, root, t, d);
      numnodes := numnodes - 1;
      ghost var w, a, b := RemoveNode(d, t, c, m);
      WithoutFacts(key, t, a, d, b);
      Split(Seq(t), a, d, b);
      t := w;
    }

    // ---------- Taking the tree apart ----------

    /** Between two calls of avl_destroy_nodes: the node just returned is still linked in c, without
        children, and counted. */
    ghost predicate Leaving(cookie: Cookie, c: Ctx, node: int)
      reads this
    {
      && cookie == CookieOf(c) && Remains(mem, root, c, node) && node != NULL && node in mem
      && mem[node].parent == PtrC(c) && mem[node].child == SideC(c)
      && NoDup(PtrsC(c) + multiset{node}) && numnodes == 1 + |Rest(c)|
    }

    /** Down to the left as far as possible, then to a last right child: the first node in post-order. */
    method Deepest(node0: int, ghost c0: Ctx, ghost t0: Tree) returns (node: int, ghost c: Ctx)
      requires t0.Node? && node0 == t0.p && Remains(mem, root, c0, node0) && Repr(mem, t0, PtrC(c0), SideC(c0))
               && Balanced(t0)
      ensures Remains(mem, root, c, node) && [node] + Rest(c) == Post(t0) + Rest(c0)
      ensures PtrsC(c) + multiset{node} == PtrsC(c0) + Ptrs(t0) && node != NULL && node in mem
      ensures mem[node].parent == PtrC(c) && mem[node].child == SideC(c)
    {
      node, c := node0, c0;
      ghost var m := t0;
      while mem[node].kid0 != NULL
        invariant m.Node? && node == m.p && Remains(mem, root, c, node) && Repr(mem, m, PtrC(c), SideC(c))
                  && Balanced(m)
        invariant Post(m) + Rest(c) == Post(t0) + Rest(c0) && PtrsC(c) + Ptrs(m) == PtrsC(c0) + Ptrs(t0)
        decreases m
      {
        GoLeft(mem, root, c, m);
        node := mem[node].kid0;
        c, m := In(c, false, m.p, m.r), m.l;
      }
      PtrLinks(mem, m.l, m.p, false);
      if mem[node].kid1 != NULL {
        GoRight(mem, root, c, m);
        node := mem[node].kid1;
        c, m := In(c, true, m.p, Nil), m.r;
      }
      AloneNow(m);
    }

    /** The first call. */
    method DestroyFirst() returns (node: int, cookie: Cookie, ghost c: Ctx)
      requires Holds(t) && numnodes == |Seq(t)| && root != NULL
      ensures Leaving(cookie, c, node) && [node] + Rest(c) == Post(t)
    {
      PostPtrs(t);
      node, c := Deepest(root, Top, t);
      FirstSums(Ptrs(t), PtrsC(c), node, Post(t), Rest(c));
      cookie := MkCookie(node, c);
    }

    /** The cookie for a node: its parent and which child it is. */
    method MkCookie(node: int, ghost c: Ctx) returns (cookie: Cookie)
      requires node in mem && mem[node].parent == PtrC(c) && mem[node].child == SideC(c) && Remains(mem, root, c, node)
      ensures cookie == CookieOf(c)
    {
      if mem[node].parent == NULL {
        cookie := Pending(NULL, true);
      } else {
        cookie := Pending(mem[node].parent, mem[node].child);
      }
    }

    /** A later call: the last node is cut off, and the next one is its parent or the first one in
        post-order of its right sibling. */
    method DestroyNext(parent: int, child: bool, ghost c: Ctx, ghost last: int) returns (node: int, cookie: Cookie,
                       ghost c': Ctx)
      requires Leaving(Pending(parent, child), c, last) && c.In?
      modifies this`mem, this`numnodes
      ensures Leaving(cookie, c', node) && [node] + Rest(c') == Rest(c)
    {
      LastOff(PtrsC(c), last);
      mem := mem[parent := WithKid(mem[parent], child, NULL)];
      numnodes := numnodes - 1;
      CutChild(old(mem), mem, root, c, last);
      NextSums(c);
      if child || mem[parent].kid1 == NULL {
        node, c' := parent, c.up;
      } else {
        ghost var c1 := In(c.up, true, c.p, Nil);
        node, c' := Deepest(mem[parent].kid1, c1, c.sib);
      }
      cookie := MkCookie(node, c');
    }

    /** avl_destroy_nodes */
    method DestroyNodes(cookie: Cookie, ghost c: Ctx, ghost last: int) returns (node: int, cookie': Cookie,
                        ghost c': Ctx)
      requires if cookie == Start then Holds(t) && numnodes == |Seq(t)| else Leaving(cookie, c, last)
      modifies this`mem, this`root, this`numnodes
      ensures var todo := if cookie == Start then Post(t) else Rest(c);
              if todo == [] then node == NULL && root == NULL && numnodes == 0
              else Leaving(cookie', c', node) && [node] + Rest(c') == todo
    {
      if cookie == Start {
        if root == NULL {
          node, cookie', c' := NULL, Pending(NULL, true), Top;
        } else {
          node, cookie', c' := DestroyFirst();
        }
      } else if cookie.parent == NULL {
        if root != NULL {
          root, numnodes := NULL, 0;
        }
        node, cookie', c' := NULL, cookie, c;
      } else {
        node, cookie', c' := DestroyNext(cookie.parent, cookie.child, c, last);
      }
    }

    /** The loop that callers write around avl_destroy_nodes, and avl_destroy. */
    method DestroyAll() returns (out: seq<int>)
      requires Valid()
      modifies this
      ensures out == old(Post(t)) && Valid() && t == Nil && root == NULL && numnodes == 0
    {
      out := [];
      ghost var all := Post(t);
      var node, cookie;
      ghost var c;
      node, cookie, c := DestroyNodes(Start, Top, NULL);
      ghost var todo := Post(t);
      while node != NULL
        invariant out + todo == all && t == old(t)
        invariant if todo == [] then node == NULL && root == NULL && numnodes == 0
                  else Leaving(cookie, c, node) && [node] + Rest(c) == todo
        decreases |todo|
      {
        OneMore(out, node, Rest(c), all);
        out := out + [node];
        todo := Rest(c);
        node, cookie, c := DestroyNodes(cookie, c, node);
      }
      t := Nil;
    }

    // ---------- Neighbours ----------

    /** avl_walk's way up: through parents until coming from the other side. */
    method Climb(node0: int, left: bool, ghost c0: Ctx, ghost m0: Tree) returns (node: int)
      requires Holds(t) && Plug(c0, m0) == t && m0.Node? && node0 == m0.p
      ensures node == EndOf(left, c0)
    {
      node := node0;
      ghost var c, m := c0, m0;
      while true
        invariant Plug(c, m) == t && m.Node? && node == m.p && EndOf(left, c) == EndOf(left, c0)
        decreases Depth(c)
      {
        MkSub(m, false);
        CursorLinks(mem, root, t, c, false, Sub(m, false), m.p, Sub(m, true));
        PtrCIn(c);
        var wasChild := mem[node].child;
        node := mem[node].parent;
        if node == NULL { return; }
        EndUp(left, c);
        if wasChild == !left { return; }
        c, m := c.up, Mk(c.s, m, c.p, c.sib);
      }
    }

    /** avl_walk from a cursor. */
    method WalkFrom(node: int, left: bool, ghost c: Ctx, ghost m: Tree) returns (r: int)
      requires Holds(t) && Plug(c, m) == t && m.Node? && m.p == node && node in mem
      requires Kid(mem[node], left) == Ptr(Sub(m, left)) && (Sub(m, left).Node? ==> Sub(m, left).p != NULL)
      ensures Sub(m, left).Nil? ==> r == EndOf(left, c)
      ensures exists i :: 0 <= i < |Seq(t)| && Seq(t)[i] == node && r == Beside(Seq(t), i, left)
    {
      MkSub(m, left);
      if Kid(mem[node], left) != NULL {
        ghost var c', k;
        r, c', k := Neighbour(node, left, t, c, Sub(m, left), Sub(m, !left));
        BesideNeighbour(t, c, left, node, Sub(m, !left), c', k, r);
      } else {
        r := Climb(node, left, c, m);
        BesideEnd(t, c, left, node, Sub(m, !left), r);
      }
    }

    /** avl_walk: the node before (left is false) or after (left is true) the given one, or NULL. */
    method Walk(node: int, left: bool) returns (r: int)
      requires Valid() && node in Seq(t)
      ensures exists i :: 0 <= i < |Seq(t)| && Seq(t)[i] == node && r == Beside(Seq(t), i, left)
    {
      ghost var c, m := RemoveReady(mem, root, t, node);
      WalkReady(mem, root, t, c, m, left);
      r := WalkFrom(node, left, c, m);
    }

    /** avl_nearest: the node before or after a place where a node could be inserted, or NULL. */
    method Nearest(node: int, child: bool, direction: bool, ghost c: Ctx) returns (r: int)
      requires Valid() && Plug(c, Nil) == t && node == PtrC(c) && child == SideC(c)
      ensures r == EndOf(direction, c)
    {
      if node == NULL {
        NearestTop(mem, root, t, c);
        return NULL;
      }
      EndUp(direction, c);
      if child != direction { return node; }
      ghost var m := Mk(c.s, Nil, c.p, c.sib);
      WalkReady(mem, root, t, c.up, m, direction);
      r := WalkFrom(node, direction, c.up, m);
    }

    /** avl_first: the lowest node, or NULL. */
    method First() returns (prev: int)
      requires Valid()
      ensures prev == if Seq(t) == [] then NULL else Seq(t)[0]
    {
      prev := NULL;
      var node := root;
      ghost var c, m := Top, t;
      while node != NULL
        invariant Plug(c, m) == t && node == Ptr(m) && Repr(mem, m, PtrC(c), SideC(c)) && prev == PtrC(c)
                  && Before(c) == []
        invariant c.In? ==> !c.s
        decreases m
      {
        prev := node;
        node := mem[node].kid0;
        c, m := In(c, false, m.p, m.r), m.l;
      }
      FirstSeq(mem, root, t, c, m);
    }
  }
}
