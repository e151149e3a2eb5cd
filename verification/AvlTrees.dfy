/** AVL trees as values, seen from a cursor: what bench/filebench/fb_avl.c keeps in memory. */
module AvlTrees {

  /** A tree of node addresses. */
  datatype Tree = Nil | Node(l: Tree, p: int, r: Tree)

  function H(t: Tree): nat {
    match t
    case Nil => 0
    case Node(l, _, r) => 1 + Max(H(l), H(r))
  }

  function Max(a: int, b: int): int {
    if a < b then b else a
  }

  ghost predicate Balanced(t: Tree) {
    match t
    case Nil => true
    case Node(l, _, r) => -1 <= H(r) - H(l) <= 1 && Balanced(l) && Balanced(r)
  }

  /** The nodes in order. */
  ghost function Seq(t: Tree): seq<int> {
    match t
    case Nil => []
    case Node(l, p, r) => Seq(l) + [p] + Seq(r)
  }

  ghost function Ptrs(t: Tree): multiset<int> {
    match t
    case Nil => multiset{}
    case Node(l, p, r) => Ptrs(l) + multiset{p} + Ptrs(r)
  }

  /** A node with a as child number s and b as the other one; false is 0, the left. */
  function Mk(s: bool, a: Tree, p: int, b: Tree): Tree {
    if s then Node(b, p, a) else Node(a, p, b)
  }

  function Sub(t: Tree, s: bool): Tree
    requires t.Node?
  {
    if s then t.r else t.l
  }

  lemma {:induction false} MkSub(t: Tree, s: bool)
    requires t.Node?
    ensures t == Mk(s, Sub(t, s), t.p, Sub(t, !s))
  {
  }

  /** avl_child2balance */
  function Sign(s: bool): int {
    if s then 1 else -1
  }

  /** The balance of a node whose child s has height a and whose other child has height b. */
  function Tilt(s: bool, a: int, b: int): int {
    if s then a - b else b - a
  }

  // ---------- A tree with a hole ----------

  /** The surroundings of a hole, from the inside out: the hole is child number s of p. */
  datatype Ctx = Top | In(up: Ctx, s: bool, p: int, sib: Tree)

  function Plug(c: Ctx, t: Tree): Tree {
    match c
    case Top => t
    case In(up, s, p, sib) => Plug(up, Mk(s, t, p, sib))
  }

  ghost function Before(c: Ctx): seq<int> {
    match c
    case Top => []
    case In(up, s, p, sib) => if s then Before(up) + Seq(sib) + [p] else Before(up)
  }

  ghost function After(c: Ctx): seq<int> {
    match c
    case Top => []
    case In(up, s, p, sib) => if s then After(up) else [p] + Seq(sib) + After(up)
  }

  ghost function PtrsC(c: Ctx): multiset<int> {
    match c
    case Top => multiset{}
    case In(up, _, p, sib) => PtrsC(up) + multiset{p} + Ptrs(sib)
  }

  function Depth(c: Ctx): nat {
    if c.Top? then 0 else 1 + Depth(c.up)
  }

  /** The surroundings are balanced around a hole of height h. */
  ghost predicate BalancedC(c: Ctx, h: nat) {
    match c
    case Top => true
    case In(up, _, _, sib) => -1 <= H(sib) - h <= 1 && Balanced(sib) && BalancedC(up, 1 + Max(h, H(sib)))
  }

  lemma {:induction false} PlugSeq(c: Ctx, t: Tree)
    ensures Seq(Plug(c, t)) == Before(c) + Seq(t) + After(c)
  {
    match c
    case Top =>
    case In(up, s, p, sib) =>
      PlugSeq(up, Mk(s, t, p, sib));
      MkSeq(s, t, p, sib);
  }

  lemma {:induction false} PlugPtrs(c: Ctx, t: Tree)
    ensures Ptrs(Plug(c, t)) == PtrsC(c) + Ptrs(t)
  {
    match c
    case Top =>
    case In(up, s, p, sib) =>
      PlugPtrs(up, Mk(s, t, p, sib));
      MkPtrs(s, t, p, sib);
  }

  lemma {:induction false} PlugBalanced(c: Ctx, t: Tree)
    ensures Balanced(Plug(c, t)) <==> Balanced(t) && BalancedC(c, H(t))
  {
    match c
    case Top =>
    case In(up, s, p, sib) =>
      PlugBalanced(up, Mk(s, t, p, sib));
      MkHeight(s, t, p, sib);
  }

  lemma {:induction false} SeqPtrs(t: Tree)
    ensures multiset(Seq(t)) == Ptrs(t)
  {
    match t
    case Nil =>
    case Node(l, p, r) =>
      SeqPtrs(l);
      SeqPtrs(r);
  }

  // ---------- Size and height ----------

  function Fib(n: nat): nat {
    if n < 2 then n else Fib(n - 1) + Fib(n - 2)
  }

  lemma {:induction false} FibGrows(a: nat, b: nat)
    requires a <= b
    ensures Fib(a) <= Fib(b)
  {
    if a < b { FibGrows(a, b - 1); }
  }

  /** A balanced tree of height h has at least Fib(h + 2) - 1 nodes. */
  lemma {:induction false} FibBound(t: Tree)
    requires Balanced(t)
    ensures |Seq(t)| >= Fib(H(t) + 2) - 1
  {
    match t
    case Nil =>
    case Node(l, _, r) =>
      FibBound(l);
      FibBound(r);
      FibGrows(H(t), Max(H(l), H(r)) + 1);
      FibGrows(H(t), H(l) + 2);
      FibGrows(H(t), H(r) + 2);
  }

  // ---------- Rotations ----------

  /** Child s of p, with children near and far, comes up; far goes over to p. */
  function Single(s: bool, near: Tree, q: int, far: Tree, p: int, b: Tree): Tree {
    Mk(s, near, q, Mk(s, far, p, b))
  }

  /** The inner grandchild g, with children x and y, comes up between q and p. */
  function Double(s: bool, near: Tree, q: int, x: Tree, g: int, y: Tree, p: int, b: Tree): Tree {
    Mk(s, Mk(s, near, q, x), g, Mk(s, y, p, b))
  }

  function Cat(s: bool, a: seq<int>, p: int, b: seq<int>): seq<int> {
    if s then b + [p] + a else a + [p] + b
  }

  lemma {:induction false} MkSeq(s: bool, a: Tree, p: int, b: Tree)
    ensures Seq(Mk(s, a, p, b)) == Cat(s, Seq(a), p, Seq(b))
  {
  }

  lemma {:induction false} MkPtrs(s: bool, a: Tree, p: int, b: Tree)
    ensures Ptrs(Mk(s, a, p, b)) == Ptrs(a) + multiset{p} + Ptrs(b)
  {
  }

  lemma {:induction false} MkHeight(s: bool, a: Tree, p: int, b: Tree)
    ensures H(Mk(s, a, p, b)) == 1 + Max(H(a), H(b))
    ensures Balanced(Mk(s, a, p, b)) <==> Balanced(a) && Balanced(b) && -1 <= H(a) - H(b) <= 1
  {
  }

  lemma {:induction false} CatAssoc(s: bool, n: seq<int>, q: int, f: seq<int>, p: int, b: seq<int>)
    ensures Cat(s, Cat(s, n, q, f), p, b) == Cat(s, n, q, Cat(s, f, p, b))
  {
  }

  lemma {:induction false} SingleSeq(s: bool, near: Tree, q: int, far: Tree, p: int, b: Tree)
    ensures Seq(Single(s, near, q, far, p, b)) == Seq(Mk(s, Mk(s, near, q, far), p, b))
  {
    MkSeq(s, near, q, far);
    MkSeq(s, Mk(s, near, q, far), p, b);
    MkSeq(s, far, p, b);
    MkSeq(s, near, q, Mk(s, far, p, b));
    CatAssoc(s, Seq(near), q, Seq(far), p, Seq(b));
  }

  lemma {:induction false} SingleHeight(s: bool, near: Tree, q: int, far: Tree, p: int, b: Tree)
    requires Balanced(Mk(s, near, q, far)) && Balanced(b) && H(Mk(s, near, q, far)) == H(b) + 2 && H(far) <= H(near)
    ensures var t' := Single(s, near, q, far, p, b);
            Balanced(t') && H(t') == if H(near) == H(far) then H(b) + 3 else H(b) + 2
  {
    MkHeight(s, near, q, far);
    MkHeight(s, far, p, b);
    MkHeight(s, near, q, Mk(s, far, p, b));
  }

  lemma {:induction false} DoubleSeq(s: bool, near: Tree, q: int, x: Tree, g: int, y: Tree, p: int, b: Tree)
    ensures Seq(Double(s, near, q, x, g, y, p, b)) == Seq(Mk(s, Mk(s, near, q, Mk(s, x, g, y)), p, b))
  {
    SingleSeq(s, near, q, Mk(s, x, g, y), p, b);
    SingleSeq(s, x, g, y, p, b);
    SingleSeq(s, near, q, x, g, Mk(s, y, p, b));
    MkSeq(s, near, q, Mk(s, Mk(s, x, g, y), p, b));
    MkSeq(s, near, q, Mk(s, x, g, Mk(s, y, p, b)));
  }

  lemma {:induction false} DoubleHeight(s: bool, near: Tree, q: int, x: Tree, g: int, y: Tree, p: int, b: Tree)
    requires var far := Mk(s, x, g, y);
             && Balanced(Mk(s, near, q, far)) && Balanced(b)
             && H(Mk(s, near, q, far)) == H(b) + 2 && H(near) < H(far)
    ensures var t' := Double(s, near, q, x, g, y, p, b);
            Balanced(t') && H(t') == H(b) + 2 && H(near) == H(b) && H(x) <= H(b) && H(y) <= H(b)
  {
    MkHeight(s, x, g, y);
    MkHeight(s, near, q, Mk(s, x, g, y));
    MkHeight(s, near, q, x);
    MkHeight(s, y, p, b);
    MkHeight(s, Mk(s, near, q, x), g, Mk(s, y, p, b));
  }
}
