/** The post-order in which avl_destroy_nodes takes a tree apart, and what is left of the tree
    between two calls. */
module AvlDestroy {
  import opened AvlTrees
  import opened AvlStore
  import opened AvlRotation

  /** Children first, left before right. */
  ghost function Post(t: Tree): seq<int> {
    match t
    case Nil => []
    case Node(l, p, r) => Post(l) + Post(r) + [p]
  }

  /** What follows in post-order once the hole is done. */
  ghost function Rest(c: Ctx): seq<int> {
    match c
    case Top => []
    case In(up, s, p, sib) => if s then [p] + Rest(up) else Post(sib) + [p] + Rest(up)
  }

  /** Every node once. */
  lemma {:induction false} PostPtrs(t: Tree)
    ensures multiset(Post(t)) == Ptrs(t) && |Post(t)| == |Seq(t)|
  {
    match t
    case Nil =>
    case Node(l, p, r) =>
      PostPtrs(l);
      PostPtrs(r);
  }

  /** Every node right after all of its descendants: the post-order of a subtree is one stretch of
      the whole, and ends with the subtree's own node. */
  lemma {:induction false} PostStretch(c: Ctx, m: Tree) returns (a: seq<int>, b: seq<int>)
    ensures Post(Plug(c, m)) == a + Post(m) + b
  {
    match c
    case Top =>
      a, b := [], [];
    case In(up, s, p, sib) =>
      var n := Mk(s, m, p, sib);
      var a', b' := PostStretch(up, n);
      a := if s then a' + Post(sib) else a';
      b := if s then [p] + b' else Post(sib) + [p] + b';
      PostMk(s, m, p, sib);
      Stretch(s, a', Post(m), Post(sib), [p], b');
  }

  lemma {:induction false} Stretch(s: bool, a: seq<int>, m: seq<int>, sib: seq<int>, p: seq<int>, b: seq<int>)
    ensures s ==> a + (sib + m + p) + b == (a + sib) + m + (p + b)
    ensures !s ==> a + (m + sib + p) + b == a + m + (sib + p + b)
  {
  }

  lemma {:induction false} PostMk(s: bool, a: Tree, p: int, b: Tree)
    ensures Post(Mk(s, a, p, b)) == if s then Post(b) + Post(a) + [p] else Post(a) + Post(b) + [p]
  {
  }

  /** The links around a hole whose left neighbours are gone; balances do not matter any more. */
  ghost predicate Remains(mem: Mem, root: int, c: Ctx, hole: int) {
    match c
    case Top => root == hole
    case In(up, s, p, sib) =>
      && Linked(mem, p, s, hole, Ptr(sib), PtrC(up), SideC(up)) && (s ==> sib.Nil?)
      && Repr(mem, sib, p, !s) && Balanced(sib) && Remains(mem, root, up, p)
  }

  lemma {:induction false} RemainsSame(mem: Mem, mem': Mem, root: int, c: Ctx, hole: int)
    requires Remains(mem, root, c, hole) && Same(mem, mem', PtrsC(c))
    ensures Remains(mem', root, c, hole)
  {
    match c
    case Top =>
    case In(up, s, p, sib) =>
      SameParts(mem, mem', PtrsC(up) + multiset{p}, Ptrs(sib));
      SameParts(mem, mem', PtrsC(up), multiset{p});
      assert multiset{p}[p] == 1;
      ReprSame(mem, mem', sib, p, !s);
      RemainsSame(mem, mem', root, up, p);
  }

  /** Going down to the left. */
  lemma {:induction false} GoLeft(mem: Mem, root: int, c: Ctx, t: Tree)
    requires Remains(mem, root, c, Ptr(t)) && Repr(mem, t, PtrC(c), SideC(c)) && t.Node? && Balanced(t)
    ensures var c' := In(c, false, t.p, t.r);
            && Remains(mem, root, c', Ptr(t.l)) && Repr(mem, t.l, PtrC(c'), SideC(c')) && Balanced(t.l)
            && Post(t.l) + Rest(c') == Post(t) + Rest(c) && PtrsC(c') + Ptrs(t.l) == PtrsC(c) + Ptrs(t)
  {
    assert Post(t.l) + (Post(t.r) + [t.p] + Rest(c)) == Post(t.l) + Post(t.r) + [t.p] + Rest(c);
    ThreeSums(PtrsC(c), Ptrs(t.l), multiset{t.p}, Ptrs(t.r));
  }

  lemma {:induction false} ThreeSums(c: multiset<int>, a: multiset<int>, p: multiset<int>, b: multiset<int>)
    ensures c + p + b + a == c + (a + p + b)
  {
  }

  /** Going down to the right, with nothing on the left. */
  lemma {:induction false} GoRight(mem: Mem, root: int, c: Ctx, t: Tree)
    requires Remains(mem, root, c, Ptr(t)) && Repr(mem, t, PtrC(c), SideC(c)) && t.Node? && t.l.Nil? && Balanced(t)
             && t.r.Node?
    ensures var c' := In(c, true, t.p, Nil);
            && Remains(mem, root, c', Ptr(t.r)) && Repr(mem, t.r, PtrC(c'), SideC(c')) && t.r.l.Nil? && t.r.r.Nil?
            && Post(t.r) + Rest(c') == Post(t) + Rest(c) && PtrsC(c') + Ptrs(t.r) == PtrsC(c) + Ptrs(t)
  {
    RightOnly(t);
    RightSums(PtrsC(c), t.p, Ptrs(t.r));
    assert Post(t.r) + ([t.p] + Rest(c)) == Post(t.r) + [t.p] + Rest(c);
  }

  lemma {:induction false} RightOnly(t: Tree)
    requires t.Node? && t.l.Nil? && t.r.Node? && Balanced(t)
    ensures t.r.l.Nil? && t.r.r.Nil? && Post(t) == Post(t.r) + [t.p]
            && Ptrs(t) == multiset{} + multiset{t.p} + Ptrs(t.r)
  {
    assert H(t.l) == 0 && H(t.r) == 1;
    assert Post(t) == [] + Post(t.r) + [t.p];
  }

  lemma {:induction false} RightSums(c: multiset<int>, p: int, r: multiset<int>)
    ensures c + multiset{p} + multiset{} + r == c + (multiset{} + multiset{p} + r)
  {
  }

  /** A node without children is all that its own post-order has. */
  lemma {:induction false} AloneNow(t: Tree)
    requires t.Node? && t.l.Nil? && t.r.Nil?
    ensures Post(t) == [t.p] && Ptrs(t) == multiset{t.p}
  {
    assert Post(Nil) == [];
  }

  /** The child just visited is cut off: what remains around the parent. */
  lemma {:induction false} CutChild(mem: Mem, mem': Mem, root: int, c: Ctx, hole: int)
    requires Remains(mem, root, c, hole) && c.In? && NoDup(PtrsC(c)) && mem' == mem[c.p := WithKid(mem[c.p], c.s, NULL)]
    ensures Linked(mem', c.p, c.s, NULL, Ptr(c.sib), PtrC(c.up), SideC(c.up)) && Repr(mem', c.sib, c.p, !c.s)
    ensures Remains(mem', root, c.up, c.p) && NoDup(PtrsC(c.up)) && Balanced(c.sib)
  {
    var p := c.p;
    assert PtrsC(c) == PtrsC(c.up) + multiset{p} + Ptrs(c.sib);
    CutApart(PtrsC(c.up), p, Ptrs(c.sib));
    SameElsewhere(mem, p, mem'[p], PtrsC(c.up));
    SameElsewhere(mem, p, mem'[p], Ptrs(c.sib));
    ReprSame(mem, mem', c.sib, p, !c.s);
    RemainsSame(mem, mem', root, c.up, p);
  }

  lemma {:induction false} CutApart(a: multiset<int>, p: int, b: multiset<int>)
    requires NoDup(a + multiset{p} + b)
    ensures p !in a && p !in b && NoDup(a)
  {
    forall x ensures Count(a, x) <= 1 { assert Count(a + multiset{p} + b, x) <= 1; }
    assert Count(a + multiset{p} + b, p) <= 1;
  }
}
