/** The two rotations of bench/filebench/fb_avl.c as changes of memory. */
module AvlRotation {
  import opened AvlTrees
  import opened AvlStore

  /** The cursor (c, t) in a memory whose balances around it are as for height h. */
  ghost predicate At(mem: Mem, root: int, c: Ctx, t: Tree, h: nat) {
    && Repr(mem, t, PtrC(c), SideC(c)) && ReprC(mem, root, c, Ptr(t), h)
    && NoDup(PtrsC(c) + Ptrs(t))
  }

  /** The same for a node whose own balance is not up to date. */
  ghost predicate Loose(mem: Mem, root: int, c: Ctx, s: bool, a: Tree, p: int, b: Tree, h: nat) {
    && Linked(mem, p, s, Ptr(a), Ptr(b), PtrC(c), SideC(c)) && Repr(mem, a, p, s) && Repr(mem, b, p, !s)
    && ReprC(mem, root, c, p, h) && NoDup(PtrsC(c) + (Ptrs(a) + multiset{p} + Ptrs(b)))
  }

  lemma {:induction false} PtrIn(t: Tree)
    ensures t.Node? ==> Ptrs(t)[t.p] >= 1
  {
  }

  lemma {:induction false} PtrCIn(c: Ctx)
    ensures c.In? ==> PtrsC(c)[c.p] >= 1
  {
  }

  /** From a hole that holds t to its parent, whose balance is still the old one. */
  lemma {:induction false} Up(mem: Mem, root: int, c: Ctx, t: Tree, h: nat)
    requires At(mem, root, c, t, h) && c.In?
    ensures Loose(mem, root, c.up, c.s, t, c.p, c.sib, 1 + Max(h, H(c.sib))) && mem[c.p].bal == Tilt(c.s, h, H(c.sib))
  {
    assert PtrsC(c) + Ptrs(t) == PtrsC(c.up) + (Ptrs(t) + multiset{c.p} + Ptrs(c.sib));
  }

  ghost predicate Apart(a: multiset<int>, b: multiset<int>) {
    forall x {:trigger a[x]} {:trigger b[x]} :: a[x] == 0 || b[x] == 0
  }

  lemma {:induction false} ThreeParts(c: multiset<int>, a: multiset<int>, p: int, b: multiset<int>)
    requires NoDup(c + (a + multiset{p} + b))
    ensures p !in c && p !in a && p !in b && NoDup(c) && NoDup(a) && NoDup(b)
    ensures Apart(c, a) && Apart(c, b) && Apart(a, b)
  {
    forall x ensures c[x] + a[x] + multiset{p}[x] + b[x] <= 1 {
      assert Count(c + (a + multiset{p} + b), x) <= 1;
    }
    assert multiset{p}[p] == 1;
  }

  /** Storing the right balance. */
  lemma {:induction false} Settle(mem: Mem, root: int, c: Ctx, s: bool, a: Tree, p: int, b: Tree, h: nat, mem': Mem)
    requires Loose(mem, root, c, s, a, p, b, h) && mem' == mem[p := mem[p].(bal := Tilt(s, H(a), H(b)))]
    ensures At(mem', root, c, Mk(s, a, p, b), h)
  {
    ThreeParts(PtrsC(c), Ptrs(a), p, Ptrs(b));
    SameElsewhere(mem, p, mem'[p], PtrsC(c));
    SameElsewhere(mem, p, mem'[p], Ptrs(a));
    SameElsewhere(mem, p, mem'[p], Ptrs(b));
    ReprSame(mem, mem', a, p, s);
    ReprSame(mem, mem', b, p, !s);
    ReprCSame(mem, mem', root, c, p, h);
    Assemble(mem', s, a, p, b, PtrC(c), SideC(c));
  }

  lemma {:induction false} Assemble(mem: Mem, s: bool, a: Tree, p: int, b: Tree, par: int, side: bool)
    requires Linked(mem, p, s, Ptr(a), Ptr(b), par, side) && mem[p].bal == Tilt(s, H(a), H(b))
    requires Repr(mem, a, p, s) && Repr(mem, b, p, !s)
    ensures var t := Mk(s, a, p, b);
            Repr(mem, t, par, side) && Ptr(t) == p && Ptrs(t) == Ptrs(a) + multiset{p} + Ptrs(b)
  {
    ReprMk(mem, s, a, p, b, par, side);
    MkPtrs(s, a, p, b);
  }

  // ---------- One rotation ----------

  /** Everything outside ch is the same in both memories. */
  ghost predicate Only(mem: Mem, mem': Mem, ch: set<int>) {
    forall x {:trigger mem'[x]} {:trigger mem[x]} :: x !in ch && x in mem ==> x in mem' && mem'[x] == mem[x]
  }

  /** No node of ch is one of ps. */
  ghost predicate Clear(ch: set<int>, ps: multiset<int>) {
    forall x :: x in ch ==> x !in ps
  }

  lemma {:induction false} OnlySame(mem: Mem, mem': Mem, ch: set<int>, ps: multiset<int>)
    requires Only(mem, mem', ch) && Clear(ch, ps)
    ensures Same(mem, mem', ps)
  {
    forall x | x in ps && x in mem ensures x in mem' && mem'[x] == mem[x] {
      assert mem[x] == mem[x];
    }
  }

  /** A subtree that was only handed to another parent. */
  lemma {:induction false} MovedSame(mem: Mem, mem': Mem, t: Tree, par: int, side: bool, par': int, side': bool,
                                     ch: set<int>)
    requires Repr(mem, t, par, side) && NoDup(Ptrs(t)) && Only(mem, mem', ch)
    requires t.Node? ==> t.p in mem' && mem'[t.p] == mem[t.p].(parent := par', child := side')
    requires Clear(ch - {Ptr(t)}, Ptrs(t))
    ensures Repr(mem', t, par', side')
  {
    ReprMoved(mem, t, par, side, par', side');
    var m := Moved(mem, Ptr(t), par', side');
    forall x | x in Ptrs(t) && x in m ensures x in mem' && mem'[x] == m[x] {
      if x != Ptr(t) { assert mem[x] == mem[x]; }
    }
    ReprSame(m, mem', t, par', side');
  }

  lemma {:induction false} ReprNoNull(mem: Mem, t: Tree, par: int, side: bool)
    requires Repr(mem, t, par, side)
    ensures NULL !in Ptrs(t)
  {
    match t
    case Nil =>
    case Node(l, p, r) =>
      ReprNoNull(mem, l, p, false);
      ReprNoNull(mem, r, p, true);
  }

  lemma {:induction false} ReprCNoNull(mem: Mem, root: int, c: Ctx, hole: int, h: nat)
    requires ReprC(mem, root, c, hole, h)
    ensures NULL !in PtrsC(c)
  {
    match c
    case Top =>
    case In(up, s, p, sib) =>
      ReprNoNull(mem, sib, p, !s);
      ReprCNoNull(mem, root, up, p, 1 + Max(h, H(sib)));
  }

  /** The surroundings after the hole's address was changed in the parent, or in the root. */
  ghost predicate NewHole(mem: Mem, mem': Mem, root: int, root': int, c: Ctx, k: int) {
    if c.Top? then root' == k
    else root' == root && c.p in mem && c.p in mem' && mem'[c.p] == WithKid(mem[c.p], c.s, k)
  }

  lemma {:induction false} NewHoleRepr(mem: Mem, mem': Mem, root: int, root': int, c: Ctx, hole: int, k: int, h: nat,
                                       ch: set<int>)
    requires ReprC(mem, root, c, hole, h) && NoDup(PtrsC(c)) && NewHole(mem, mem', root, root', c, k)
             && Only(mem, mem', ch)
    requires Clear(ch - {PtrC(c)}, PtrsC(c))
    ensures ReprC(mem', root', c, k, h)
  {
    ReprCRelinked(mem, root, c, hole, h, k);
    ReprCNoNull(mem, root, c, hole, h);
    var m := Relinked(mem, PtrC(c), SideC(c), k);
    forall x | x in PtrsC(c) && x in m ensures x in mem' && mem'[x] == m[x] {
      if x != PtrC(c) { assert mem[x] == mem[x]; }
    }
    ReprCSame(m, mem', root', c, k, h);
  }

  lemma {:induction false} FiveParts(c: multiset<int>, n: multiset<int>, q: int, f: multiset<int>, p: int,
                                     b: multiset<int>)
    requires NoDup(c + ((n + multiset{q} + f) + multiset{p} + b))
    ensures p != q && p !in c && p !in n && p !in f && p !in b && q !in c && q !in n && q !in f && q !in b
    ensures NoDup(c) && NoDup(f) && Apart(c, n) && Apart(c, f) && Apart(c, b) && Apart(n, f) && Apart(n, b)
            && Apart(f, b)
  {
    forall x ensures c[x] + n[x] + multiset{q}[x] + f[x] + multiset{p}[x] + b[x] <= 1 {
      assert Count(c + ((n + multiset{q} + f) + multiset{p} + b), x) <= 1;
    }
    assert multiset{p}[p] == 1 && multiset{q}[q] == 1;
  }

  /** What the writes of a single rotation amount to. */
  ghost predicate SingleMem(mem: Mem, mem': Mem, root: int, root': int, c: Ctx, s: bool, near: Tree, q: int, far: Tree,
                            p: int, b: Tree) {
    && Linked(mem', q, s, Ptr(near), p, PtrC(c), SideC(c)) && Linked(mem', p, s, Ptr(far), Ptr(b), q, !s)
    && (far.Node? ==> far.p in mem && far.p in mem' && mem'[far.p] == mem[far.p].(parent := p, child := s))
    && Only(mem, mem', {p, q, Ptr(far), PtrC(c)}) && NewHole(mem, mem', root, root', c, q)
  }

  predicate SingleDiffer(q: int, fp: int, p: int, cp: int) {
    p != q && (fp != NULL ==> fp != p && fp != q) && (cp != NULL ==> cp != p && cp != q && cp != fp)
  }

  predicate DoubleDiffer(q: int, xp: int, g: int, yp: int, p: int, cp: int) {
    && p != q && p != g && q != g && (xp != NULL ==> xp != p && xp != q && xp != g && xp != yp)
    && (yp != NULL ==> yp != p && yp != q && yp != g)
    && (cp != NULL ==> cp != p && cp != q && cp != g && cp != xp && cp != yp)
  }

  /** The parts of the tree before a single rotation, and that they are apart. */
  lemma {:induction false} SingleParts(mem: Mem, root: int, c: Ctx, s: bool, near: Tree, q: int, far: Tree, p: int,
                                       b: Tree, h: nat)
    requires Loose(mem, root, c, s, Mk(s, near, q, far), p, b, h)
    ensures Repr(mem, near, q, s) && Repr(mem, far, q, !s) && NoDup(Ptrs(far)) && NoDup(PtrsC(c))
    ensures NoDup(PtrsC(c) + (Ptrs(near) + multiset{q} + (Ptrs(far) + multiset{p} + Ptrs(b))))
    ensures var ch := {p, q, Ptr(far), PtrC(c)};
            && Clear(ch, Ptrs(near)) && Clear(ch, Ptrs(b)) && Clear(ch - {Ptr(far)}, Ptrs(far))
            && Clear(ch - {PtrC(c)}, PtrsC(c))
    ensures SingleDiffer(q, Ptr(far), p, PtrC(c))
  {
    ReprMk(mem, s, near, q, far, p, s);
    MkPtrs(s, near, q, far);
    ReprNoNull(mem, near, q, s);
    ReprNoNull(mem, far, q, !s);
    ReprNoNull(mem, b, p, !s);
    ReprCNoNull(mem, root, c, p, h);
    PtrIn(far);
    PtrCIn(c);
    FiveClear(PtrsC(c), Ptrs(near), q, Ptrs(far), p, Ptrs(b), Ptr(far), PtrC(c));
  }

  lemma {:induction false} FiveClear(c: multiset<int>, n: multiset<int>, q: int, f: multiset<int>, p: int,
                                     b: multiset<int>, fp: int, cp: int)
    requires NoDup(c + ((n + multiset{q} + f) + multiset{p} + b))
    requires NULL !in c && NULL !in n && NULL !in f && NULL !in b && (fp == NULL || fp in f) && (cp == NULL || cp in c)
    ensures NoDup(f) && NoDup(c) && NoDup(c + (n + multiset{q} + (f + multiset{p} + b)))
    ensures var ch := {p, q, fp, cp};
            Clear(ch, n) && Clear(ch, b) && Clear(ch - {fp}, f) && Clear(ch - {cp}, c)
    ensures p != q && (fp != NULL ==> fp != p && fp != q) && (cp != NULL ==> cp != p && cp != q && cp != fp)
  {
    FiveParts(c, n, q, f, p, b);
    SingleAll(c, n, q, f, p, b);
    assert f[fp] > 0 || fp == NULL;
    assert c[cp] > 0 || cp == NULL;
  }

  lemma {:induction false} Kept(mem: Mem, mem': Mem, t: Tree, par: int, side: bool, ch: set<int>)
    requires Repr(mem, t, par, side) && Only(mem, mem', ch) && Clear(ch, Ptrs(t))
    ensures Repr(mem', t, par, side)
  {
    OnlySame(mem, mem', ch, Ptrs(t));
    ReprSame(mem, mem', t, par, side);
  }

  lemma {:induction false} SingleRepr(mem: Mem, mem': Mem, root: int, root': int, c: Ctx, s: bool, near: Tree, q: int,
                                      far: Tree,
                                      p: int, b: Tree, h: nat)
    requires Loose(mem, root, c, s, Mk(s, near, q, far), p, b, h)
             && SingleMem(mem, mem', root, root', c, s, near, q, far, p, b)
    requires mem'[p].bal == Tilt(s, H(far), H(b)) && mem'[q].bal == Tilt(s, H(near), 1 + Max(H(far), H(b)))
    ensures At(mem', root', c, Single(s, near, q, far, p, b), h)
  {
    var ch := {p, q, Ptr(far), PtrC(c)};
    SingleParts(mem, root, c, s, near, q, far, p, b, h);
    Kept(mem, mem', near, q, s, ch);
    Kept(mem, mem', b, p, !s, ch);
    MovedSame(mem, mem', far, q, !s, p, s, ch);
    NewHoleRepr(mem, mem', root, root', c, p, q, h, ch);
    Assemble(mem', s, far, p, b, q, !s);
    MkHeight(s, far, p, b);
    Assemble(mem', s, near, q, Mk(s, far, p, b), PtrC(c), SideC(c));
  }

  lemma {:induction false} SingleAll(c: multiset<int>, n: multiset<int>, q: int, f: multiset<int>, p: int,
                                     b: multiset<int>)
    requires NoDup(c + ((n + multiset{q} + f) + multiset{p} + b))
    ensures NoDup(c + (n + multiset{q} + (f + multiset{p} + b)))
  {
    assert c + (n + multiset{q} + (f + multiset{p} + b)) == c + ((n + multiset{q} + f) + multiset{p} + b);
  }

  // ---------- The other rotation ----------

  /** What the writes of a double rotation amount to. */
  ghost predicate DoubleMem(mem: Mem, mem': Mem, root: int, root': int, c: Ctx, s: bool,
                            near: Tree, q: int, x: Tree, g: int, y: Tree, p: int, b: Tree)
  {
    && Linked(mem', g, s, q, p, PtrC(c), SideC(c))
    && Linked(mem', q, s, Ptr(near), Ptr(x), g, s) && Linked(mem', p, s, Ptr(y), Ptr(b), g, !s)
    && (x.Node? ==> x.p in mem && x.p in mem' && mem'[x.p] == mem[x.p].(parent := q, child := !s))
    && (y.Node? ==> y.p in mem && y.p in mem' && mem'[y.p] == mem[y.p].(parent := p, child := s))
    && Only(mem, mem', {p, q, g, Ptr(x), Ptr(y), PtrC(c)}) && NewHole(mem, mem', root, root', c, g)
  }

  lemma {:induction false} SevenClear(c: multiset<int>, n: multiset<int>, q: int, x: multiset<int>, g: int,
                                      y: multiset<int>,
                                      p: int, b: multiset<int>, xp: int, yp: int, cp: int)
    requires NoDup(c + ((n + multiset{q} + (x + multiset{g} + y)) + multiset{p} + b))
    requires NULL !in c && NULL !in n && NULL !in x && NULL !in y && NULL !in b
    requires (xp == NULL || xp in x) && (yp == NULL || yp in y) && (cp == NULL || cp in c)
    ensures NoDup(x) && NoDup(y) && NoDup(c)
    ensures NoDup(c + ((n + multiset{q} + x) + multiset{g} + (y + multiset{p} + b)))
    ensures var ch := {p, q, g, xp, yp, cp};
            && Clear(ch, n) && Clear(ch, b) && Clear(ch - {xp}, x) && Clear(ch - {yp}, y) && Clear(ch - {cp}, c)
            && p != q && p != g && q != g && (xp != NULL ==> xp != p && xp != q && xp != g && xp != yp)
            && (yp != NULL ==> yp != p && yp != q && yp != g)
            && (cp != NULL ==> cp != p && cp != q && cp != g && cp != xp && cp != yp)
  {
    forall k ensures c[k] + n[k] + multiset{q}[k] + x[k] + multiset{g}[k] + y[k] + multiset{p}[k] + b[k] <= 1 {
      assert Count(c + ((n + multiset{q} + (x + multiset{g} + y)) + multiset{p} + b), k) <= 1;
    }
    assert multiset{p}[p] == 1 && multiset{q}[q] == 1 && multiset{g}[g] == 1;
    assert c + ((n + multiset{q} + x) + multiset{g} + (y + multiset{p} + b))
        == c + ((n + multiset{q} + (x + multiset{g} + y)) + multiset{p} + b);
  }

  lemma {:induction false} DoubleParts(mem: Mem, root: int, c: Ctx, s: bool, near: Tree, q: int, x: Tree, g: int,
                                       y: Tree,
                                       p: int, b: Tree, h: nat)
    requires Loose(mem, root, c, s, Mk(s, near, q, Mk(s, x, g, y)), p, b, h)
    ensures Repr(mem, near, q, s) && Repr(mem, x, g, s) && Repr(mem, y, g, !s)
    ensures NoDup(Ptrs(x)) && NoDup(Ptrs(y)) && NoDup(PtrsC(c))
    ensures NoDup(PtrsC(c) + ((Ptrs(near) + multiset{q} + Ptrs(x)) + multiset{g} + (Ptrs(y) + multiset{p} + Ptrs(b))))
    ensures var ch := {p, q, g, Ptr(x), Ptr(y), PtrC(c)};
            && Clear(ch, Ptrs(near)) && Clear(ch, Ptrs(b)) && Clear(ch - {Ptr(x)}, Ptrs(x))
            && Clear(ch - {Ptr(y)}, Ptrs(y))
            && Clear(ch - {PtrC(c)}, PtrsC(c))
    ensures DoubleDiffer(q, Ptr(x), g, Ptr(y), p, PtrC(c))
  {
    ReprMk(mem, s, near, q, Mk(s, x, g, y), p, s);
    MkPtrs(s, near, q, Mk(s, x, g, y));
    ReprMk(mem, s, x, g, y, q, !s);
    MkPtrs(s, x, g, y);
    ReprNoNull(mem, near, q, s);
    ReprNoNull(mem, x, g, s);
    ReprNoNull(mem, y, g, !s);
    ReprNoNull(mem, b, p, !s);
    ReprCNoNull(mem, root, c, p, h);
    PtrIn(x);
    PtrIn(y);
    PtrCIn(c);
    SevenClear(PtrsC(c), Ptrs(near), q, Ptrs(x), g, Ptrs(y), p, Ptrs(b), Ptr(x), Ptr(y), PtrC(c));
  }

  lemma {:induction false} DoubleRepr(mem: Mem, mem': Mem, root: int, root': int, c: Ctx, s: bool,
                                      near: Tree, q: int, x: Tree, g: int, y: Tree, p: int, b: Tree, h: nat)
    requires Loose(mem, root, c, s, Mk(s, near, q, Mk(s, x, g, y)), p, b, h)
    requires DoubleMem(mem, mem', root, root', c, s, near, q, x, g, y, p, b)
    requires mem'[q].bal == Tilt(s, H(near), H(x)) && mem'[p].bal == Tilt(s, H(y), H(b))
    requires mem'[g].bal == Tilt(s, 1 + Max(H(near), H(x)), 1 + Max(H(y), H(b)))
    ensures At(mem', root', c, Double(s, near, q, x, g, y, p, b), h)
  {
    var ch := {p, q, g, Ptr(x), Ptr(y), PtrC(c)};
    DoubleParts(mem, root, c, s, near, q, x, g, y, p, b, h);
    Kept(mem, mem', near, q, s, ch);
    Kept(mem, mem', b, p, !s, ch);
    MovedSame(mem, mem', x, g, s, q, !s, ch);
    MovedSame(mem, mem', y, g, !s, p, s, ch);
    NewHoleRepr(mem, mem', root, root', c, p, g, h, ch);
    DoubleAssemble(mem', s, near, q, x, g, y, p, b, PtrC(c), SideC(c));
  }

  lemma {:induction false} DoubleAssemble(mem: Mem, s: bool, near: Tree, q: int, x: Tree, g: int, y: Tree, p: int,
                                          b: Tree,
                                          par: int, side: bool)
    requires Linked(mem, g, s, q, p, par, side) && Linked(mem, q, s, Ptr(near), Ptr(x), g, s)
    requires Linked(mem, p, s, Ptr(y), Ptr(b), g, !s)
    requires Repr(mem, near, q, s) && Repr(mem, x, q, !s) && Repr(mem, y, p, s) && Repr(mem, b, p, !s)
    requires mem[q].bal == Tilt(s, H(near), H(x)) && mem[p].bal == Tilt(s, H(y), H(b))
    requires mem[g].bal == Tilt(s, 1 + Max(H(near), H(x)), 1 + Max(H(y), H(b)))
    ensures var t := Double(s, near, q, x, g, y, p, b);
            && Repr(mem, t, par, side) && Ptr(t) == g
            && Ptrs(t) == (Ptrs(near) + multiset{q} + Ptrs(x)) + multiset{g} + (Ptrs(y) + multiset{p} + Ptrs(b))
  {
    Assemble(mem, s, near, q, x, g, s);
    Assemble(mem, s, y, p, b, g, !s);
    MkHeight(s, near, q, x);
    MkHeight(s, y, p, b);
    Assemble(mem, s, Mk(s, near, q, x), g, Mk(s, y, p, b), par, side);
  }

  // ---------- The writes of the code ----------

  /** The links below the hole after a single rotation: child s of p, at q, came up, and its inner
      child at f went to p. */
  ghost predicate SingleWritten(mem: Mem, m: Mem, s: bool, q: int, f: int, p: int, par: int, side: bool, bal: int)
    requires q in mem && p in mem && (f == NULL || f in mem)
  {
    && m.Keys == mem.Keys && Only(mem, m, {p, q, f})
    && m[p] == WithKid(mem[p], s, f).(bal := -bal, child := !s, parent := q)
    && m[q] == WithKid(mem[q], !s, p).(bal := bal, child := side, parent := par)
    && (f != NULL ==> m[f] == mem[f].(parent := p, child := s))
  }

  function RootAfter(root: int, par: int, k: int): int {
    if par == NULL then k else root
  }

  lemma {:induction false} SingleLinks(mem: Mem, m: Mem, mem': Mem, root: int, c: Ctx, s: bool, near: Tree, q: int,
                                       far: Tree, p: int, b: Tree,
                                       bal: int)
    requires Linked(mem, q, s, Ptr(near), Ptr(far), p, s) && Linked(mem, p, s, q, Ptr(b), PtrC(c), SideC(c))
    requires SingleDiffer(q, Ptr(far), p, PtrC(c)) && (far.Node? ==> far.p in mem && far.p != NULL)
             && (c.In? ==> c.p in mem && c.p != NULL)
    requires SingleWritten(mem, m, s, q, Ptr(far), p, PtrC(c), SideC(c), bal)
             && mem' == Relinked(m, PtrC(c), SideC(c), q)
    ensures SingleMem(mem, mem', root, RootAfter(root, PtrC(c), q), c, s, near, q, far, p, b)
    ensures mem'[p].bal == -bal && mem'[q].bal == bal
  {
  }

  lemma {:induction false} SingleDone(mem: Mem, m: Mem, mem': Mem, root: int, c: Ctx, s: bool, near: Tree, q: int,
                                      far: Tree, p: int, b: Tree,
                                      h: nat, bal: int)
    requires Loose(mem, root, c, s, Mk(s, near, q, far), p, b, h) && q in mem && (far.Node? ==> far.p in mem)
    requires SingleWritten(mem, m, s, q, Ptr(far), p, PtrC(c), SideC(c), bal)
             && mem' == Relinked(m, PtrC(c), SideC(c), q)
    requires bal == Tilt(s, H(near), 1 + Max(H(far), H(b))) && -bal == Tilt(s, H(far), H(b))
    ensures At(mem', RootAfter(root, PtrC(c), q), c, Single(s, near, q, far, p, b), h)
  {
    SingleParts(mem, root, c, s, near, q, far, p, b, h);
    ReprMk(mem, s, near, q, far, p, s);
    SingleLinks(mem, m, mem', root, c, s, near, q, far, p, b, bal);
    SingleRepr(mem, mem', root, RootAfter(root, PtrC(c), q), c, s, near, q, far, p, b, h);
  }

  /** The same after a double rotation: the inner grandchild at g came up; its children were at x and y. */
  ghost predicate DoubleWritten(mem: Mem, m: Mem, s: bool, q: int, x: int, g: int, y: int, p: int, par: int,
                                side: bool, qbal: int, pbal: int)
    requires q in mem && p in mem && g in mem && (x == NULL || x in mem) && (y == NULL || y in mem)
  {
    && m.Keys == mem.Keys && Only(mem, m, {p, q, g, x, y})
    && m[p] == WithKid(mem[p], s, y).(bal := pbal, parent := g, child := !s)
    && m[q] == WithKid(mem[q], !s, x).(bal := qbal, parent := g, child := s)
    && m[g] == WithKid(WithKid(mem[g], s, q), !s, p).(bal := 0, parent := par, child := side)
    && (x != NULL ==> m[x] == mem[x].(parent := q, child := !s))
    && (y != NULL ==> m[y] == mem[y].(parent := p, child := s))
  }

  lemma {:induction false} DoubleLinks(mem: Mem, m: Mem, mem': Mem, root: int, c: Ctx, s: bool, near: Tree, q: int,
                                       x: Tree, g: int, y: Tree,
                                       p: int, b: Tree, qbal: int, pbal: int)
    requires Linked(mem, g, s, Ptr(x), Ptr(y), q, !s) && Linked(mem, q, s, Ptr(near), g, p, s)
    requires Linked(mem, p, s, q, Ptr(b), PtrC(c), SideC(c)) && DoubleDiffer(q, Ptr(x), g, Ptr(y), p, PtrC(c))
    requires (x.Node? ==> x.p in mem && x.p != NULL) && (y.Node? ==> y.p in mem && y.p != NULL)
             && (c.In? ==> c.p in mem && c.p != NULL)
    requires DoubleWritten(mem, m, s, q, Ptr(x), g, Ptr(y), p, PtrC(c), SideC(c), qbal, pbal)
    requires mem' == Relinked(m, PtrC(c), SideC(c), g)
    ensures DoubleMem(mem, mem', root, RootAfter(root, PtrC(c), g), c, s, near, q, x, g, y, p, b)
    ensures mem'[p].bal == pbal && mem'[q].bal == qbal && mem'[g].bal == 0
  {
  }

  lemma {:induction false} DoubleDone(mem: Mem, m: Mem, mem': Mem, root: int, c: Ctx, s: bool, near: Tree, q: int,
                                      x: Tree, g: int, y: Tree,
                                      p: int, b: Tree, h: nat, qbal: int, pbal: int)
    requires Loose(mem, root, c, s, Mk(s, near, q, Mk(s, x, g, y)), p, b, h)
    requires q in mem && g in mem && (x.Node? ==> x.p in mem) && (y.Node? ==> y.p in mem)
    requires DoubleWritten(mem, m, s, q, Ptr(x), g, Ptr(y), p, PtrC(c), SideC(c), qbal, pbal)
    requires mem' == Relinked(m, PtrC(c), SideC(c), g)
    requires qbal == Tilt(s, H(near), H(x)) && pbal == Tilt(s, H(y), H(b))
    requires 0 == Tilt(s, 1 + Max(H(near), H(x)), 1 + Max(H(y), H(b)))
    ensures At(mem', RootAfter(root, PtrC(c), g), c, Double(s, near, q, x, g, y, p, b), h)
  {
    DoubleParts(mem, root, c, s, near, q, x, g, y, p, b, h);
    ReprMk(mem, s, near, q, Mk(s, x, g, y), p, s);
    ReprMk(mem, s, x, g, y, q, !s);
    DoubleLinks(mem, m, mem', root, c, s, near, q, x, g, y, p, b, qbal, pbal);
    DoubleRepr(mem, mem', root, RootAfter(root, PtrC(c), g), c, s, near, q, x, g, y, p, b, h);
  }
}
