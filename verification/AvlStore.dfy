/** AVL nodes in memory, with parent links, child indices and stored balances, and how such a
    memory represents a tree around a cursor (bench/filebench/fb_avl.h). */
module AvlStore {
  import opened AvlTrees

  const NULL: int := 0

  /** struct avl_node; `child` is the node's index in its parent's children. */
  datatype Rec = Rec(kid0: int, kid1: int, parent: int, child: bool, bal: int)

  type Mem = map<int, Rec>

  function Kid(r: Rec, s: bool): int {
    if s then r.kid1 else r.kid0
  }

  function WithKid(r: Rec, s: bool, k: int): Rec {
    if s then r.(kid1 := k) else r.(kid0 := k)
  }

  function Ptr(t: Tree): int {
    if t.Nil? then NULL else t.p
  }

  function PtrC(c: Ctx): int {
    if c.Top? then NULL else c.p
  }

  /** The root has child index 0. */
  function SideC(c: Ctx): bool {
    if c.Top? then false else c.s
  }

  /** All links of a node except for its balance. */
  ghost predicate Linked(mem: Mem, p: int, s: bool, a: int, b: int, par: int, side: bool) {
    p != NULL && p in mem && Kid(mem[p], s) == a && Kid(mem[p], !s) == b && mem[p].parent == par && mem[p].child == side
  }

  ghost predicate Repr(mem: Mem, t: Tree, par: int, side: bool) {
    match t
    case Nil => true
    case Node(l, p, r) =>
      && p != NULL && p in mem && mem[p] == Rec(Ptr(l), Ptr(r), par, side, H(r) - H(l))
      && Repr(mem, l, p, false) && Repr(mem, r, p, true)
  }

  /** The memory around a hole that holds address `hole`, with balances as for height h. */
  ghost predicate ReprC(mem: Mem, root: int, c: Ctx, hole: int, h: nat) {
    match c
    case Top => root == hole
    case In(up, s, p, sib) =>
      && Linked(mem, p, s, hole, Ptr(sib), PtrC(up), SideC(up)) && mem[p].bal == Tilt(s, h, H(sib))
      && Repr(mem, sib, p, !s) && ReprC(mem, root, up, p, 1 + Max(h, H(sib)))
  }

  lemma {:induction false} ReprMk(mem: Mem, s: bool, a: Tree, p: int, b: Tree, par: int, side: bool)
    ensures Repr(mem, Mk(s, a, p, b), par, side)
            <==> && Linked(mem, p, s, Ptr(a), Ptr(b), par, side) && mem[p].bal == Tilt(s, H(a), H(b))
                 && Repr(mem, a, p, s) && Repr(mem, b, p, !s)
  {
  }

  /** Moving the cursor does not change what is represented. */
  lemma {:induction false} ReprPlug(mem: Mem, root: int, c: Ctx, t: Tree)
    ensures Repr(mem, t, PtrC(c), SideC(c)) && ReprC(mem, root, c, Ptr(t), H(t))
            <==> Repr(mem, Plug(c, t), NULL, false) && root == Ptr(Plug(c, t))
  {
    match c
    case Top =>
    case In(up, s, p, sib) =>
      ReprMk(mem, s, t, p, sib, PtrC(up), SideC(up));
      MkHeight(s, t, p, sib);
      ReprPlug(mem, root, up, Mk(s, t, p, sib));
  }

  // ---------- Frames ----------

  /** The nodes of ps are the same in both memories. */
  ghost predicate Same(mem: Mem, mem': Mem, ps: multiset<int>) {
    forall x {:trigger ps[x]} :: x in ps && x in mem ==> x in mem' && mem'[x] == mem[x]
  }

  lemma {:induction false} SameParts(mem: Mem, mem': Mem, a: multiset<int>, b: multiset<int>)
    requires Same(mem, mem', a + b)
    ensures Same(mem, mem', a) && Same(mem, mem', b)
  {
    forall x ensures (x in a || x in b) && x in mem ==> x in mem' && mem'[x] == mem[x] {
      assert (a + b)[x] == a[x] + b[x];
    }
  }

  lemma {:induction false} ReprSame(mem: Mem, mem': Mem, t: Tree, par: int, side: bool)
    requires Repr(mem, t, par, side) && Same(mem, mem', Ptrs(t))
    ensures Repr(mem', t, par, side)
  {
    match t
    case Nil =>
    case Node(l, p, r) =>
      SameParts(mem, mem', Ptrs(l) + multiset{p}, Ptrs(r));
      SameParts(mem, mem', Ptrs(l), multiset{p});
      assert multiset{p}[p] == 1;
      ReprSame(mem, mem', l, p, false);
      ReprSame(mem, mem', r, p, true);
  }

  lemma {:induction false} ReprCSame(mem: Mem, mem': Mem, root: int, c: Ctx, hole: int, h: nat)
    requires ReprC(mem, root, c, hole, h) && Same(mem, mem', PtrsC(c))
    ensures ReprC(mem', root, c, hole, h)
  {
    match c
    case Top =>
    case In(up, s, p, sib) =>
      SameParts(mem, mem', PtrsC(up) + multiset{p}, Ptrs(sib));
      SameParts(mem, mem', PtrsC(up), multiset{p});
      assert multiset{p}[p] == 1;
      ReprSame(mem, mem', sib, p, !s);
      ReprCSame(mem, mem', root, up, p, 1 + Max(h, H(sib)));
  }

  ghost function Count(m: multiset<int>, x: int): nat {
    m[x]
  }

  ghost predicate NoDup(m: multiset<int>) {
    forall x {:trigger Count(m, x)} :: Count(m, x) <= 1
  }

  /** Writing a node that ps does not have. */
  lemma {:induction false} SameElsewhere(mem: Mem, q: int, r: Rec, ps: multiset<int>)
    requires q !in ps
    ensures Same(mem, mem[q := r], ps)
  {
  }

  // ---------- Handing a subtree to another parent ----------

  function Moved(mem: Mem, q: int, par: int, side: bool): Mem {
    if q in mem && q != NULL then mem[q := mem[q].(parent := par, child := side)] else mem
  }

  lemma {:induction false} ReprMoved(mem: Mem, t: Tree, par: int, side: bool, par': int, side': bool)
    requires Repr(mem, t, par, side) && NoDup(Ptrs(t))
    ensures Repr(Moved(mem, Ptr(t), par', side'), t, par', side')
  {
    match t
    case Nil =>
    case Node(l, p, r) =>
      var mem' := Moved(mem, p, par', side');
      assert Count(Ptrs(t), p) == Ptrs(l)[p] + 1 + Ptrs(r)[p];
      SameElsewhere(mem, p, mem'[p], Ptrs(l));
      SameElsewhere(mem, p, mem'[p], Ptrs(r));
      ReprSame(mem, mem', l, p, false);
      ReprSame(mem, mem', r, p, true);
  }

  /** The hole gets another address. */
  function Relinked(mem: Mem, par: int, side: bool, k: int): Mem {
    if par in mem && par != NULL then mem[par := WithKid(mem[par], side, k)] else mem
  }

  lemma {:induction false} ReprCRelinked(mem: Mem, root: int, c: Ctx, hole: int, h: nat, k: int)
    requires ReprC(mem, root, c, hole, h) && NoDup(PtrsC(c))
    ensures ReprC(Relinked(mem, PtrC(c), SideC(c), k), if c.Top? then k else root, c, k, h)
  {
    match c
    case Top =>
    case In(up, s, p, sib) =>
      var mem' := Relinked(mem, p, s, k);
      assert Count(PtrsC(c), p) == PtrsC(up)[p] + 1 + Ptrs(sib)[p];
      SameElsewhere(mem, p, mem'[p], PtrsC(up));
      SameElsewhere(mem, p, mem'[p], Ptrs(sib));
      ReprSame(mem, mem', sib, p, !s);
      ReprCSame(mem, mem', root, up, p, 1 + Max(h, H(sib)));
  }
}
