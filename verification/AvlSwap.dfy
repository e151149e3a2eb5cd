/** avl_remove's exchange of a node that has two children with its neighbour, through a temporary
    node: a renaming of addresses. */
module AvlSwap {
  import opened AvlTrees
  import opened AvlStore
  import opened AvlRotation

  /** d makes way for n, and n for the temporary node. */
  function Ren(d: int, n: int, tmp: int, x: int): int {
    if x == d then n else if x == n then tmp else x
  }

  function RenTree(d: int, n: int, tmp: int, t: Tree): Tree {
    match t
    case Nil => Nil
    case Node(l, p, r) => Node(RenTree(d, n, tmp, l), Ren(d, n, tmp, p), RenTree(d, n, tmp, r))
  }

  function RenCtx(d: int, n: int, tmp: int, c: Ctx): Ctx {
    match c
    case Top => Top
    case In(up, s, p, sib) => In(RenCtx(d, n, tmp, up), s, Ren(d, n, tmp, p), RenTree(d, n, tmp, sib))
  }

  function RenRec(d: int, n: int, tmp: int, r: Rec): Rec {
    Rec(Ren(d, n, tmp, r.kid0), Ren(d, n, tmp, r.kid1), Ren(d, n, tmp, r.parent), r.child, r.bal)
  }

  function RenSeq(d: int, n: int, tmp: int, s: seq<int>): seq<int> {
    if s == [] then [] else [Ren(d, n, tmp, s[0])] + RenSeq(d, n, tmp, s[1..])
  }

  lemma {:induction false} RenHeight(d: int, n: int, tmp: int, t: Tree)
    ensures H(RenTree(d, n, tmp, t)) == H(t) && Balanced(RenTree(d, n, tmp, t)) == Balanced(t)
  {
    match t
    case Nil =>
    case Node(l, _, r) =>
      RenHeight(d, n, tmp, l);
      RenHeight(d, n, tmp, r);
  }

  lemma {:induction false} RenPlug(d: int, n: int, tmp: int, c: Ctx, t: Tree)
    ensures RenTree(d, n, tmp, Plug(c, t)) == Plug(RenCtx(d, n, tmp, c), RenTree(d, n, tmp, t))
  {
    match c
    case Top =>
    case In(up, s, p, sib) => RenPlug(d, n, tmp, up, Mk(s, t, p, sib));
  }

  lemma {:induction false} RenConcat(d: int, n: int, tmp: int, a: seq<int>, b: seq<int>)
    ensures RenSeq(d, n, tmp, a + b) == RenSeq(d, n, tmp, a) + RenSeq(d, n, tmp, b)
  {
    if a == [] {
      assert a + b == b;
    } else {
      assert (a + b)[1..] == a[1..] + b;
      RenConcat(d, n, tmp, a[1..], b);
    }
  }

  lemma {:induction false} RenOne(d: int, n: int, tmp: int, x: int)
    ensures RenSeq(d, n, tmp, [x]) == [Ren(d, n, tmp, x)]
  {
    assert [x][1..] == [];
  }

  lemma {:induction false} RenInOrder(d: int, n: int, tmp: int, t: Tree)
    ensures Seq(RenTree(d, n, tmp, t)) == RenSeq(d, n, tmp, Seq(t))
  {
    match t
    case Nil =>
    case Node(l, p, r) =>
      RenInOrder(d, n, tmp, l);
      RenInOrder(d, n, tmp, r);
      RenConcat(d, n, tmp, Seq(l) + [p], Seq(r));
      RenConcat(d, n, tmp, Seq(l), [p]);
      RenOne(d, n, tmp, p);
  }

  /** What does not have d or n stays as it is. */
  lemma {:induction false} RenSame(d: int, n: int, tmp: int, s: seq<int>)
    requires d !in s && n !in s
    ensures RenSeq(d, n, tmp, s) == s
  {
    if s != [] {
      assert s[0] in s && d !in s[1..] && n !in s[1..];
      RenSame(d, n, tmp, s[1..]);
    }
  }

  // ---------- The renamed tree in memory ----------

  /** mem' is mem with the addresses of ps renamed. */
  ghost predicate Renamed(d: int, n: int, tmp: int, mem: Mem, mem': Mem, ps: multiset<int>) {
    forall x {:trigger ps[x]} :: x in ps && x in mem ==>
      Ren(d, n, tmp, x) in mem' && mem'[Ren(d, n, tmp, x)] == RenRec(d, n, tmp, mem[x])
  }

  lemma {:induction false} RenamedParts(d: int, n: int, tmp: int, mem: Mem, mem': Mem, a: multiset<int>,
                                        b: multiset<int>)
    requires Renamed(d, n, tmp, mem, mem', a + b)
    ensures Renamed(d, n, tmp, mem, mem', a) && Renamed(d, n, tmp, mem, mem', b)
  {
    forall x
      ensures (x in a || x in b) && x in mem ==>
                Ren(d, n, tmp, x) in mem' && mem'[Ren(d, n, tmp, x)] == RenRec(d, n, tmp, mem[x])
    {
      assert (a + b)[x] == a[x] + b[x];
    }
  }

  lemma {:induction false} ReprRenamed(d: int, n: int, tmp: int, mem: Mem, mem': Mem, t: Tree, par: int, side: bool)
    requires Repr(mem, t, par, side) && Renamed(d, n, tmp, mem, mem', Ptrs(t)) && d != NULL && n != NULL && tmp != NULL
    ensures Repr(mem', RenTree(d, n, tmp, t), Ren(d, n, tmp, par), side)
            && Ptr(RenTree(d, n, tmp, t)) == Ren(d, n, tmp, Ptr(t))
  {
    match t
    case Nil =>
    case Node(l, p, r) =>
      RenamedParts(d, n, tmp, mem, mem', Ptrs(l) + multiset{p}, Ptrs(r));
      RenamedParts(d, n, tmp, mem, mem', Ptrs(l), multiset{p});
      assert multiset{p}[p] == 1;
      ReprRenamed(d, n, tmp, mem, mem', l, p, false);
      ReprRenamed(d, n, tmp, mem, mem', r, p, true);
      RenHeight(d, n, tmp, l);
      RenHeight(d, n, tmp, r);
  }

  // ---------- Links ----------

  /** A node of t is its children's parent and its parent's child. */
  ghost predicate LinksAt(mem: Mem, ps: multiset<int>, top: int, par: int, side: bool, x: int) {
    && x != NULL && x in mem
    && KidLinks(mem, ps, x, false) && KidLinks(mem, ps, x, true)
    && if x == top then mem[x].parent == par && mem[x].child == side
       else mem[x].parent in ps && mem[x].parent in mem && Kid(mem[mem[x].parent], mem[x].child) == x
  }

  ghost predicate KidLinks(mem: Mem, ps: multiset<int>, x: int, s: bool)
    requires x in mem
  {
    var k := Kid(mem[x], s);
    k == NULL || (k in ps && k in mem && mem[k].parent == x && mem[k].child == s)
  }

  lemma {:induction false} PtrLinks(mem: Mem, t: Tree, par: int, side: bool)
    requires Repr(mem, t, par, side)
    ensures Ptr(t) == NULL || (Ptr(t) in Ptrs(t) && Ptr(t) in mem && mem[Ptr(t)].parent == par
            && mem[Ptr(t)].child == side)
  {
  }

  lemma {:induction false} LinksGrow(mem: Mem, a: multiset<int>, b: multiset<int>, top: int, par: int, side: bool,
                                     p: int, x: int)
    requires LinksAt(mem, a, top, p, side, x) && (forall y :: y in a ==> y in b) && p in b && p in mem && x != p
    requires x == top ==> Kid(mem[p], side) == x
    ensures forall par', side' :: LinksAt(mem, b, p, par', side', x)
  {
    forall par', side' ensures LinksAt(mem, b, p, par', side', x) {
      assert KidLinks(mem, a, x, false) && KidLinks(mem, a, x, true);
    }
  }

  lemma {:induction false} ReprLinks(mem: Mem, t: Tree, par: int, side: bool, x: int)
    requires Repr(mem, t, par, side) && NoDup(Ptrs(t)) && x in Ptrs(t)
    ensures LinksAt(mem, Ptrs(t), Ptr(t), par, side, x)
  {
    var ps, l, p, r := Ptrs(t), t.l, t.p, t.r;
    assert Count(ps, p) == Ptrs(l)[p] + 1 + Ptrs(r)[p];
    assert forall y :: y in Ptrs(l) ==> y in ps;
    assert forall y :: y in Ptrs(r) ==> y in ps;
    PtrLinks(mem, l, p, false);
    PtrLinks(mem, r, p, true);
    if x == p {
    } else if x in Ptrs(l) {
      LinksChild(Ptrs(l), Ptrs(r), x, p);
      ReprLinks(mem, l, p, false, x);
      LinksGrow(mem, Ptrs(l), ps, Ptr(l), p, false, p, x);
    } else {
      LinksChild(Ptrs(r), Ptrs(l), x, p);
      ReprLinks(mem, r, p, true, x);
      LinksGrow(mem, Ptrs(r), ps, Ptr(r), p, true, p, x);
    }
  }

  lemma {:induction false} LinksChild(a: multiset<int>, b: multiset<int>, x: int, p: int)
    requires NoDup(a + multiset{p} + b)  || NoDup(b + multiset{p} + a)
    ensures NoDup(a)
  {
    forall y ensures Count(a, y) <= 1 { assert Count(a + multiset{p} + b, y) <= 1
        || Count(b + multiset{p} + a, y) <= 1; }
  }

  // ---------- The writes of the code ----------

  /** Node x after n took the place of d: l and r are d's children on side s and on the other one. */
  function TopRec(mem: Mem, d: int, n: int, s: bool, x: int): Rec
    requires d in mem && x in mem
  {
    var r := if x == mem[d].parent then WithKid(mem[x], mem[d].child, n) else mem[x];
    if x == Kid(mem[d], s) || x == Kid(mem[d], !s) then r.(parent := n) else r
  }

  /** The first half: the temporary node holds n's links, and n those of d. */
  ghost predicate TopSwapped(mem: Mem, m: Mem, d: int, n: int, tmp: int, s: bool)
    requires d in mem && n in mem
  {
    var direct := Kid(mem[d], s) == n;
    && tmp in m && m[tmp] == mem[n].(parent := if direct then n else mem[n].parent)
    && n in m && m[n] == WithKid(mem[d], s, if direct then tmp else Kid(mem[d], s))
    && forall x {:trigger m[x]} {:trigger mem[x]} :: x in mem && x != NULL && x != n && x != tmp ==>
         x in m && m[x] == TopRec(mem, d, n, s, x)
  }

  /** The only child of the temporary node, or NULL. */
  function OnlyKid(r: Rec): int {
    if r.kid1 != NULL then r.kid1 else r.kid0
  }

  function BottomRec(m: Mem, tmp: int, x: int): Rec
    requires tmp in m && x in m
  {
    var r := if x == m[tmp].parent then WithKid(m[x], m[tmp].child, tmp) else m[x];
    if x == OnlyKid(m[tmp]) then r.(parent := tmp) else r
  }

  /** The second half: the temporary node's parent and child point back to it. */
  ghost predicate BottomSwapped(m: Mem, mem': Mem, tmp: int)
    requires tmp in m
  {
    forall x {:trigger mem'[x]} {:trigger m[x]} :: x in m && x != NULL ==> x in mem' && mem'[x] == BottomRec(m, tmp, x)
  }

  ghost predicate AllLinked(mem: Mem, ps: multiset<int>, root: int) {
    forall x :: x in ps ==> LinksAt(mem, ps, root, NULL, false, x)
  }

  /** What is known of the two nodes. */
  ghost predicate SwapReady(mem: Mem, ps: multiset<int>, root: int, d: int, n: int, tmp: int, s: bool) {
    && AllLinked(mem, ps, root) && d in ps && n in ps && d != n
    && tmp !in ps && tmp != NULL && Kid(mem[d], s) != NULL && Kid(mem[d], !s) != NULL && Kid(mem[d], !s) != n
    && Kid(mem[n], !s) == NULL && mem[d].parent != n && mem[d].parent != d && mem[n].parent != n
  }

  /** Who points to y. */
  lemma {:induction false} PointsTo(mem: Mem, ps: multiset<int>, root: int, x: int, y: int)
    requires LinksAt(mem, ps, root, NULL, false, x) && LinksAt(mem, ps, root, NULL, false, y) && x in ps && y in ps
    ensures mem[x].kid0 == y <==> x == mem[y].parent && !mem[y].child
    ensures mem[x].kid1 == y <==> x == mem[y].parent && mem[y].child
    ensures mem[x].parent == y <==> x == mem[y].kid0 || x == mem[y].kid1
  {
    assert KidLinks(mem, ps, x, false) && KidLinks(mem, ps, x, true);
    assert KidLinks(mem, ps, y, false) && KidLinks(mem, ps, y, true);
  }

  /** The links of a node that is neither d nor n. */
  ghost predicate Elsewhere(mem: Mem, d: int, n: int, tmp: int, s: bool, x: int)
    requires d in mem && n in mem && x in mem
  {
    && x != d && x != n && x != tmp && x != NULL
    && (mem[x].kid0 == d <==> x == mem[d].parent && !mem[d].child)
    && (mem[x].kid1 == d <==> x == mem[d].parent && mem[d].child)
    && (mem[x].kid0 == n <==> x == mem[n].parent && !mem[n].child)
    && (mem[x].kid1 == n <==> x == mem[n].parent && mem[n].child)
    && (mem[x].parent == d <==> x == Kid(mem[d], s) || x == Kid(mem[d], !s))
    && (mem[x].parent == n <==> x == OnlyKid(mem[n]))
  }

  lemma {:induction false} SwapRec(mem: Mem, m: Mem, d: int, n: int, tmp: int, s: bool, x: int)
    requires d in mem && n in mem && x in mem && Elsewhere(mem, d, n, tmp, s, x) && d != n
    requires tmp in m && x in m && m[x] == TopRec(mem, d, n, s, x)
    requires m[tmp] == mem[n].(parent := if Kid(mem[d], s) == n then n else mem[n].parent)
    requires mem[n].parent == d <==> Kid(mem[d], s) == n
    ensures BottomRec(m, tmp, x) == RenRec(d, n, tmp, mem[x])
  {
  }

  lemma {:induction false} SwapOther(mem: Mem, m: Mem, mem': Mem, ps: multiset<int>, root: int, d: int, n: int,
                                     tmp: int, s: bool, x: int)
    requires SwapReady(mem, ps, root, d, n, tmp, s) && TopSwapped(mem, m, d, n, tmp, s) && BottomSwapped(m, mem', tmp)
    requires x in ps && x != d && x != n
    ensures x in mem' && mem'[x] == RenRec(d, n, tmp, mem[x])
  {
    PointsTo(mem, ps, root, x, d);
    PointsTo(mem, ps, root, x, n);
    PointsTo(mem, ps, root, n, d);
    assert Elsewhere(mem, d, n, tmp, s, x);
    assert m[x] == TopRec(mem, d, n, s, x);
    SwapRec(mem, m, d, n, tmp, s, x);
    assert mem'[x] == BottomRec(m, tmp, x);
  }

  lemma {:induction false} SwapD(mem: Mem, m: Mem, mem': Mem, ps: multiset<int>, root: int, d: int, n: int, tmp: int,
                                 s: bool)
    requires SwapReady(mem, ps, root, d, n, tmp, s) && TopSwapped(mem, m, d, n, tmp, s) && BottomSwapped(m, mem', tmp)
    ensures n in mem' && mem'[n] == RenRec(d, n, tmp, mem[d])
  {
    PointsTo(mem, ps, root, n, d);
    PointsTo(mem, ps, root, d, n);
    PointsTo(mem, ps, root, d, d);
    PointsTo(mem, ps, root, n, n);
    assert mem'[n] == BottomRec(m, tmp, n);
  }

  lemma {:induction false} SwapN(mem: Mem, m: Mem, mem': Mem, ps: multiset<int>, root: int, d: int, n: int, tmp: int,
                                 s: bool)
    requires SwapReady(mem, ps, root, d, n, tmp, s) && TopSwapped(mem, m, d, n, tmp, s) && BottomSwapped(m, mem', tmp)
    ensures tmp in mem' && mem'[tmp] == RenRec(d, n, tmp, mem[n])
  {
    PointsTo(mem, ps, root, n, d);
    PointsTo(mem, ps, root, d, n);
    PointsTo(mem, ps, root, n, n);
    assert KidLinks(mem, ps, n, false) && KidLinks(mem, ps, n, true);
    assert mem'[tmp] == BottomRec(m, tmp, tmp);
  }

  lemma {:induction false} SwapIsRenaming(mem: Mem, m: Mem, mem': Mem, ps: multiset<int>, root: int, d: int, n: int,
                                          tmp: int, s: bool)
    requires SwapReady(mem, ps, root, d, n, tmp, s) && TopSwapped(mem, m, d, n, tmp, s) && BottomSwapped(m, mem', tmp)
    ensures Renamed(d, n, tmp, mem, mem', ps)
  {
    forall x | x in ps && x in mem ensures Ren(d, n, tmp, x) in mem'
        && mem'[Ren(d, n, tmp, x)] == RenRec(d, n, tmp, mem[x]) {
      if x == d {
        SwapD(mem, m, mem', ps, root, d, n, tmp, s);
      } else if x == n {
        SwapN(mem, m, mem', ps, root, d, n, tmp, s);
      } else {
        SwapOther(mem, m, mem', ps, root, d, n, tmp, s, x);
      }
    }
  }

  lemma {:induction false} RenBefore(d: int, n: int, tmp: int, c: Ctx)
    ensures Before(RenCtx(d, n, tmp, c)) == RenSeq(d, n, tmp, Before(c))
  {
    if c.In? {
      RenBefore(d, n, tmp, c.up);
      if c.s {
        RenInOrder(d, n, tmp, c.sib);
        RenConcat(d, n, tmp, Before(c.up) + Seq(c.sib), [c.p]);
        RenConcat(d, n, tmp, Before(c.up), Seq(c.sib));
        RenOne(d, n, tmp, c.p);
      }
    }
  }

  lemma {:induction false} RenAfter(d: int, n: int, tmp: int, c: Ctx)
    ensures After(RenCtx(d, n, tmp, c)) == RenSeq(d, n, tmp, After(c))
  {
    if c.In? {
      RenAfter(d, n, tmp, c.up);
      if !c.s {
        RenInOrder(d, n, tmp, c.sib);
        RenConcat(d, n, tmp, [c.p] + Seq(c.sib), After(c.up));
        RenConcat(d, n, tmp, [c.p], Seq(c.sib));
        RenOne(d, n, tmp, c.p);
      }
    }
  }

  /** How often an address occurs after the renaming. */
  lemma {:induction false} RenCount(d: int, n: int, tmp: int, t: Tree, y: int)
    requires d != n && tmp != d && tmp != n
    ensures Ptrs(RenTree(d, n, tmp, t))[y]
            == if y == n then Ptrs(t)[d] else if y == tmp then Ptrs(t)[n] + Ptrs(t)[tmp] else if y == d then 0
                else Ptrs(t)[y]
  {
    match t
    case Nil =>
    case Node(l, p, r) =>
      RenCount(d, n, tmp, l, y);
      RenCount(d, n, tmp, r, y);
      RenCountNode(d, n, tmp, Ptrs(l), p, Ptrs(r), Ptrs(RenTree(d, n, tmp, l)), Ptrs(RenTree(d, n, tmp, r)), y);
  }

  lemma {:induction false} RenCountNode(d: int, n: int, tmp: int, l: multiset<int>, p: int, r: multiset<int>,
                                        l': multiset<int>, r': multiset<int>, y: int)
    requires d != n && tmp != d && tmp != n
    requires l'[y] == if y == n then l[d] else if y == tmp then l[n] + l[tmp] else if y == d then 0 else l[y]
    requires r'[y] == if y == n then r[d] else if y == tmp then r[n] + r[tmp] else if y == d then 0 else r[y]
    ensures var t, t' := l + multiset{p} + r, l' + multiset{Ren(d, n, tmp, p)} + r';
            t'[y] == if y == n then t[d] else if y == tmp then t[n] + t[tmp] else if y == d then 0 else t[y]
  {
  }

  lemma {:induction false} RenNoDup(d: int, n: int, tmp: int, t: Tree)
    requires NoDup(Ptrs(t)) && tmp !in Ptrs(t) && d != n && tmp != d && tmp != n
    ensures NoDup(Ptrs(RenTree(d, n, tmp, t))) && d !in Ptrs(RenTree(d, n, tmp, t))
  {
    forall y ensures Count(Ptrs(RenTree(d, n, tmp, t)), y) <= 1 {
      RenCount(d, n, tmp, t, y);
      assert Count(Ptrs(t), y) <= 1 && Count(Ptrs(t), d) <= 1 && Count(Ptrs(t), n) <= 1;
    }
    RenCount(d, n, tmp, t, d);
  }

  // ---------- The neighbour ----------

  /** The nodes on the side of the hole away from s. */
  ghost function Edge(s: bool, c: Ctx): seq<int> {
    if s then Before(c) else After(c)
  }

  /** (c, m) is on the way from child s of d, which hangs in c0 with other child r, to the node next to d. */
  ghost predicate OnSpine(c0: Ctx, s: bool, d: int, r: Tree, c: Ctx) {
    && Edge(s, c) == Edge(s, In(c0, s, d, r))
    && forall x {:trigger PtrsC(c)[x]} :: x in PtrsC(In(c0, s, d, r)) ==> x in PtrsC(c)
  }

  lemma {:induction false} SpineDown(c0: Ctx, s: bool, d: int, r: Tree, c: Ctx, m: Tree)
    requires OnSpine(c0, s, d, r, c) && m.Node?
    ensures var c' := In(c, !s, m.p, Sub(m, s));
            OnSpine(c0, s, d, r, c') && Plug(c', Sub(m, !s)) == Plug(c, m)
  {
    MkSub(m, !s);
  }

  /** Seq(t) around d, and what is left without d. */
  lemma {:induction false} NeighbourSeq(c0: Ctx, s: bool, d: int, r: Tree, c: Ctx, k: Tree,
                                        n: int) returns (a: seq<int>, b: seq<int>)
    requires OnSpine(c0, s, d, r, c)
    ensures if s then Before(c) == a + [d] && b == [n] + Seq(k) + After(c)
            else After(c) == [d] + b && a == Before(c) + Seq(k) + [n]
    ensures Before(c) + Seq(Mk(s, k, n, Nil)) + After(c) == a + [d] + b
  {
    MkSeq(s, k, n, Nil);
    if s {
      a, b := Before(c0) + Seq(r), [n] + Seq(k) + After(c);
      assert Seq(Mk(s, k, n, Nil)) == [] + [n] + Seq(k);
    } else {
      a, b := Before(c) + Seq(k) + [n], Seq(r) + After(c0);
      assert Seq(Mk(s, k, n, Nil)) == Seq(k) + [n] + [];
      assert After(c) == [d] + b;
    }
  }

  lemma {:induction false} DupFree(a: seq<int>, x: int, b: seq<int>)
    requires NoDup(multiset(a + [x] + b))
    ensures x !in a && x !in b
  {
    assert multiset(a + [x] + b) == multiset(a) + multiset{x} + multiset(b);
    assert Count(multiset(a + [x] + b), x) == multiset(a)[x] + 1 + multiset(b)[x];
  }

  /** Neither d nor n is in s. */
  ghost predicate Lacks(d: int, n: int, s: seq<int>) {
    d !in s && n !in s
  }

  lemma {:induction false} LacksLeft(d: int, n: int, be: seq<int>, ke: seq<int>, b: seq<int>)
    requires NoDup(multiset((be + ke + [n]) + [d] + b))
    ensures Lacks(d, n, be) && Lacks(d, n, ke) && Lacks(d, n, b)
  {
    DupFree(be + ke + [n], d, b);
    assert (be + ke + [n]) + [d] + b == (be + ke) + [n] + ([d] + b);
    DupFree(be + ke, n, [d] + b);
  }

  lemma {:induction false} LacksRight(d: int, n: int, a: seq<int>, ke: seq<int>, af: seq<int>)
    requires NoDup(multiset(a + [d] + ([n] + ke + af)))
    ensures Lacks(d, n, a) && Lacks(d, n, ke) && Lacks(d, n, af)
  {
    DupFree(a, d, [n] + ke + af);
    assert a + [d] + ([n] + ke + af) == (a + [d]) + [n] + (ke + af);
    DupFree(a + [d], n, ke + af);
  }

  lemma {:induction false} RenHead(d: int, n: int, tmp: int, b: seq<int>)
    requires Lacks(d, n, b)
    ensures RenSeq(d, n, tmp, [d] + b) == [n] + b && RenSeq(d, n, tmp, b + [d]) == b + [n]
  {
    RenConcat(d, n, tmp, [d], b);
    RenConcat(d, n, tmp, b, [d]);
    RenOne(d, n, tmp, d);
    RenSame(d, n, tmp, b);
  }

  lemma {:induction false} Regroup(x: seq<int>, y: seq<int>, n: int, z: seq<int>)
    ensures x + y + ([n] + z) == (x + y + [n]) + z && (x + [n]) + y + z == x + ([n] + y + z)
  {
  }

  /** Taking the temporary node out again leaves everything but d. */
  lemma {:induction false} SwapSeq(d: int, n: int, tmp: int, c: Ctx, s: bool, k: Tree, a: seq<int>, b: seq<int>)
    requires if s then Before(c) == a + [d] && b == [n] + Seq(k) + After(c)
             else After(c) == [d] + b && a == Before(c) + Seq(k) + [n]
    requires NoDup(multiset(a + [d] + b)) && d != n
    ensures Before(RenCtx(d, n, tmp, c)) + Seq(RenTree(d, n, tmp, k)) + After(RenCtx(d, n, tmp, c)) == a + b
  {
    RenBefore(d, n, tmp, c);
    RenAfter(d, n, tmp, c);
    RenInOrder(d, n, tmp, k);
    if s {
      LacksRight(d, n, a, Seq(k), After(c));
      RenHead(d, n, tmp, a);
      RenSame(d, n, tmp, After(c));
      Regroup(a, Seq(k), n, After(c));
    } else {
      LacksLeft(d, n, Before(c), Seq(k), b);
      RenHead(d, n, tmp, b);
      RenSame(d, n, tmp, Before(c));
      Regroup(Before(c), Seq(k), n, b);
    }
    RenSame(d, n, tmp, Seq(k));
  }

  /** Every node of a tree has a cursor. */
  lemma {:induction false} Locate(t: Tree, d: int) returns (c: Ctx, m: Tree)
    requires d in Seq(t)
    ensures Plug(c, m) == t && m.Node? && m.p == d
  {
    c, m := LocateIn(Top, t, d);
  }

  lemma {:induction false} LocateIn(c0: Ctx, t: Tree, d: int) returns (c: Ctx, m: Tree)
    requires d in Seq(t)
    ensures Plug(c, m) == Plug(c0, t) && m.Node? && m.p == d
    decreases t
  {
    if t.p == d {
      c, m := c0, t;
    } else {
      var s := d !in Seq(t.l);
      MkSub(t, s);
      c, m := LocateIn(In(c0, s, t.p, Sub(t, !s)), Sub(t, s), d);
    }
  }

  lemma {:induction false} TreeLinked(mem: Mem, root: int, t: Tree)
    requires Repr(mem, t, NULL, false) && root == Ptr(t) && NoDup(Ptrs(t))
    ensures AllLinked(mem, Ptrs(t), root) && NULL !in Ptrs(t)
  {
    ReprNoNull(mem, t, NULL, false);
    forall x | x in Ptrs(t) ensures LinksAt(mem, Ptrs(t), root, NULL, false, x) { ReprLinks(mem, t, NULL, false, x); }
  }

  /** The two nodes and what they point to, from the two cursors. */
  lemma {:induction false} TwoCursors(mem: Mem, root: int, t: Tree, c0: Ctx, s: bool, l: Tree, d: int, r: Tree, c: Ctx,
                                      k: Tree, n: int)
    requires Repr(mem, t, NULL, false) && root == Ptr(t) && NoDup(Ptrs(t))
    requires Plug(c0, Mk(s, l, d, r)) == t && l.Node? && r.Node?
    requires Plug(c, Mk(s, k, n, Nil)) == t && OnSpine(c0, s, d, r, c)
    ensures Linked(mem, d, s, Ptr(l), Ptr(r), PtrC(c0), SideC(c0)) && Linked(mem, n, s, Ptr(k), NULL, PtrC(c), SideC(c))
    ensures d in Ptrs(t) && n in Ptrs(t) && d != n && Ptr(r) != n && PtrC(c0) != n && PtrC(c0) != d && PtrC(c) != n
    ensures PtrC(c) != NULL && Ptr(l) != NULL && Ptr(r) != NULL
  {
    CursorLinks(mem, root, t, c0, s, l, d, r);
    CursorLinks(mem, root, t, c, s, k, n, Nil);
    CursorKid(mem, root, t, c0, s, l, d, r);
    SpineHas(c0, s, d, r, c);
  }

  /** Everything the swap needs. */
  lemma {:induction false} ReadyToSwap(mem: Mem, ps: multiset<int>, root: int, d: int, n: int, tmp: int, s: bool,
                                       l: int, r: int, u: int, su: bool,
                                       k: int, v: int, sv: bool)
    requires AllLinked(mem, ps, root) && NULL !in ps && d in ps && n in ps && tmp !in ps && tmp != NULL
    requires Linked(mem, d, s, l, r, u, su) && Linked(mem, n, s, k, NULL, v, sv)
    requires d != n && r != n && u != n && u != d && v != n && v != NULL && l != NULL && r != NULL
    ensures SwapReady(mem, ps, root, d, n, tmp, s) && n != root && ((mem[d].parent == NULL) == (d == root))
  {
    LinksRoot(mem, ps, root, d);
    LinksRoot(mem, ps, root, n);
  }

  lemma {:induction false} CursorKid(mem: Mem, root: int, t: Tree, c: Ctx, s: bool, a: Tree, p: int, b: Tree)
    requires Repr(mem, t, NULL, false) && root == Ptr(t) && Plug(c, Mk(s, a, p, b)) == t
    ensures (a.Node? ==> a.p != NULL) && (b.Node? ==> b.p != NULL)
  {
    ReprPlug(mem, root, c, Mk(s, a, p, b));
    ReprMk(mem, s, a, p, b, PtrC(c), SideC(c));
  }

  /** Which nodes are around the neighbour. */
  lemma {:induction false} SpineHas(c0: Ctx, s: bool, d: int, r: Tree, c: Ctx)
    requires OnSpine(c0, s, d, r, c) && r.Node?
    ensures d in PtrsC(c) && r.p in PtrsC(c) && (c0.In? ==> c0.p in PtrsC(c)) && (c.In? ==> c.p in PtrsC(c))
  {
    var base := PtrsC(In(c0, s, d, r));
    assert base == PtrsC(c0) + multiset{d} + Ptrs(r);
    PtrIn(r);
    PtrCIn(c0);
    PtrCIn(c);
    assert base[d] >= 1 && base[r.p] >= 1 && (c0.In? ==> base[c0.p] >= 1);
    assert PtrsC(c)[d] >= 1 && PtrsC(c)[r.p] >= 1 && (c0.In? ==> PtrsC(c)[c0.p] >= 1);
  }

  /** A cursor on a node, in memory. */
  lemma {:induction false} CursorLinks(mem: Mem, root: int, t: Tree, c: Ctx, s: bool, a: Tree, p: int, b: Tree)
    requires Repr(mem, t, NULL, false) && root == Ptr(t) && NoDup(Ptrs(t)) && Plug(c, Mk(s, a, p, b)) == t
    ensures Linked(mem, p, s, Ptr(a), Ptr(b), PtrC(c), SideC(c)) && p in Ptrs(t) && PtrsC(c)[p] == 0
    ensures (forall x :: x in PtrsC(c) ==> x != p) && NULL !in PtrsC(c)
  {
    var m := Mk(s, a, p, b);
    ReprPlug(mem, root, c, m);
    ReprMk(mem, s, a, p, b, PtrC(c), SideC(c));
    ReprCNoNull(mem, root, c, p, H(m));
    PlugPtrs(c, m);
    MkPtrs(s, a, p, b);
    assert Count(Ptrs(t), p) == PtrsC(c)[p] + Ptrs(a)[p] + 1 + Ptrs(b)[p];
  }

  lemma {:induction false} LinksRoot(mem: Mem, ps: multiset<int>, root: int, x: int)
    requires LinksAt(mem, ps, root, NULL, false, x) && NULL !in ps
    ensures (mem[x].parent == NULL) == (x == root)
  {
  }
}
