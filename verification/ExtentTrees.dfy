/** The shape of an extent tree, seen from a cursor.

    A tree node lives at a location: INODE for the root inside the inode, a block
    number otherwise.  `Ctx` is the part of the tree around the node that a path
    points at, innermost level first, so `Plug(c, t)` is the whole tree when the
    cursor stands on `t`. */
module ExtentTrees {
  import opened Extents

  const INODE: nat := 0

  datatype Caps = Caps(rootLeaf: nat, rootIdx: nat, blkLeaf: nat, blkIdx: nat)

  predicate CapsOk(cp: Caps) {
    && 1 <= cp.rootLeaf <= cp.blkLeaf && 2 <= cp.blkLeaf
    && 2 <= cp.rootIdx <= cp.blkIdx
  }

  /** mlfs_ext_space_root / mlfs_ext_space_block */
  function LeafCap(cp: Caps, loc: nat): nat {
    if loc == INODE then cp.rootLeaf else cp.blkLeaf
  }

  /** mlfs_ext_space_root_idx / mlfs_ext_space_block_idx */
  function IdxCap(cp: Caps, loc: nat): nat {
    if loc == INODE then cp.rootIdx else cp.blkIdx
  }

  datatype Tree = Leaf(loc: nat, exts: seq<Extent>) | Index(loc: nat, kids: seq<Kid>)
  datatype Kid = Kid(key: nat, sub: Tree)
  datatype Ctx = Top | In(up: Ctx, loc: nat, left: seq<Kid>, key: nat, right: seq<Kid>)

  ghost function Plug(c: Ctx, t: Tree): Tree {
    match c
    case Top => t
    case In(up, loc, l, k, r) => Plug(up, Index(loc, l + [Kid(k, t)] + r))
  }

  ghost function Depth(c: Ctx): nat {
    match c
    case Top => 0
    case In(up, _, _, _, _) => Depth(up) + 1
  }

  // ---------- Contents, left to right ----------

  ghost function Exts(t: Tree): seq<Extent>
    decreases t, 0
  {
    match t
    case Leaf(_, exts) => exts
    case Index(_, kids) => KidExts(kids)
  }

  ghost function KidExts(ks: seq<Kid>): seq<Extent>
    decreases ks, 1
  {
    if ks == [] then [] else SubExts(ks[0]) + KidExts(ks[1..])
  }

  ghost function SubExts(k: Kid): seq<Extent>
    decreases k, 0
  {
    match k case Kid(_, t) => Exts(t)
  }

  ghost function LeftExts(c: Ctx): seq<Extent> {
    match c
    case Top => []
    case In(up, _, l, _, _) => LeftExts(up) + KidExts(l)
  }

  ghost function RightExts(c: Ctx): seq<Extent> {
    match c
    case Top => []
    case In(up, _, _, _, r) => KidExts(r) + RightExts(up)
  }

  lemma {:induction false} Assoc<T>(a: seq<T>, b: seq<T>, c: seq<T>)
    ensures a + b + c == a + (b + c)
  {
  }

  lemma {:induction false} KidExtsConcat(a: seq<Kid>, b: seq<Kid>)
    ensures KidExts(a + b) == KidExts(a) + KidExts(b)
  {
    if a == [] {
      assert a + b == b;
    } else {
      assert (a + b)[1..] == a[1..] + b;
      KidExtsConcat(a[1..], b);
    }
  }

  lemma {:induction false} KidExtsOne(k: Kid)
    ensures KidExts([k]) == Exts(k.sub)
  {
    assert [k][1..] == [];
  }

  lemma {:induction false} KidExtsAround(l: seq<Kid>, k: Kid, r: seq<Kid>)
    ensures KidExts(l + [k] + r) == KidExts(l) + Exts(k.sub) + KidExts(r)
  {
    KidExtsConcat(l + [k], r);
    KidExtsConcat(l, [k]);
    KidExtsOne(k);
  }

  lemma {:induction false} PlugExts(c: Ctx, t: Tree)
    ensures Exts(Plug(c, t)) == LeftExts(c) + Exts(t) + RightExts(c)
  {
    match c
    case Top =>
    case In(up, loc, l, k, r) =>
      PlugExts(up, Index(loc, l + [Kid(k, t)] + r));
      KidExtsAround(l, Kid(k, t), r);
  }

  // ---------- What the tree occupies: node locations and mapped physical blocks ----------

  ghost function Own(t: Tree): multiset<int>
    decreases t, 0
  {
    match t
    case Leaf(loc, exts) => multiset{loc} + PhysAll(exts)
    case Index(loc, kids) => multiset{loc} + KidOwn(kids)
  }

  ghost function KidOwn(ks: seq<Kid>): multiset<int>
    decreases ks, 1
  {
    if ks == [] then multiset{} else SubOwn(ks[0]) + KidOwn(ks[1..])
  }

  ghost function SubOwn(k: Kid): multiset<int>
    decreases k, 0
  {
    match k case Kid(_, t) => Own(t)
  }

  ghost function OwnC(c: Ctx): multiset<int> {
    match c
    case Top => multiset{}
    case In(up, loc, l, _, r) => OwnC(up) + multiset{loc} + KidOwn(l) + KidOwn(r)
  }

  lemma {:induction false} KidOwnConcat(a: seq<Kid>, b: seq<Kid>)
    ensures KidOwn(a + b) == KidOwn(a) + KidOwn(b)
  {
    if a == [] {
      assert a + b == b;
    } else {
      assert (a + b)[1..] == a[1..] + b;
      KidOwnConcat(a[1..], b);
    }
  }

  lemma {:induction false} KidOwnAround(l: seq<Kid>, k: Kid, r: seq<Kid>)
    ensures KidOwn(l + [k] + r) == KidOwn(l) + Own(k.sub) + KidOwn(r)
  {
    KidOwnConcat(l + [k], r);
    KidOwnConcat(l, [k]);
    assert [k][1..] == [];
  }

  lemma {:induction false} PlugOwn(c: Ctx, t: Tree)
    ensures Own(Plug(c, t)) == OwnC(c) + Own(t)
  {
    match c
    case Top =>
    case In(up, loc, l, k, r) =>
      PlugOwn(up, Index(loc, l + [Kid(k, t)] + r));
      KidOwnAround(l, Kid(k, t), r);
  }

  lemma {:induction false} KidOwnIn(ks: seq<Kid>, i: nat)
    requires i < |ks|
    ensures Own(ks[i].sub) <= KidOwn(ks)
  {
    var l, r := ks[..i], ks[i + 1..];
    assert ks == l + [ks[i]] + r;
    KidOwnAround(l, ks[i], r);
  }

  // ---------- Well-formed trees ----------

  /** The key under which a node is listed: its first extent's block, or its first key. */
  ghost function First(t: Tree): nat {
    match t
    case Leaf(_, exts) => if exts == [] then 0 else exts[0].lblk
    case Index(_, kids) => if kids == [] then 0 else kids[0].key
  }

  /** Height d, no empty node, no node over capacity, every key exact. */
  ghost predicate Shaped(cp: Caps, t: Tree, d: nat) {
    match t
    case Leaf(loc, exts) => d == 0 && 1 <= |exts| <= LeafCap(cp, loc)
    case Index(loc, kids) =>
      && d > 0
      && 1 <= |kids| <= IdxCap(cp, loc)
      && forall i :: 0 <= i < |kids| ==> Shaped(cp, kids[i].sub, d - 1) && kids[i].key == First(kids[i].sub)
  }

  ghost predicate KidsShaped(cp: Caps, ks: seq<Kid>, d: nat) {
    forall i :: 0 <= i < |ks| ==> Shaped(cp, ks[i].sub, d) && ks[i].key == First(ks[i].sub)
  }

  /** The surroundings of a hole of height d are well formed (hole keys are KeysOk's business). */
  ghost predicate ShapedC(cp: Caps, c: Ctx, d: nat) {
    match c
    case Top => true
    case In(up, loc, l, _, r) =>
      && |l| + 1 + |r| <= IdxCap(cp, loc)
      && KidsShaped(cp, l, d) && KidsShaped(cp, r, d)
      && ShapedC(cp, up, d + 1)
  }

  /** The keys on the path are those of a hole whose first block is k. */
  ghost predicate KeysOk(c: Ctx, k: nat) {
    match c
    case Top => true
    case In(up, _, l, key, _) => key == k && KeysOk(up, if l == [] then k else l[0].key)
  }

  /** A whole tree: a shaped one, or the empty root of a file without blocks. */
  ghost predicate WellFormed(cp: Caps, t: Tree, d: nat) {
    && t.loc == INODE
    && (Shaped(cp, t, d) || (t == Leaf(INODE, []) && d == 0))
    && Sorted(Exts(t))
  }

  lemma {:induction false} NodeShaped(cp: Caps, l: seq<Kid>, k: nat, t: Tree, r: seq<Kid>, d: nat)
    requires KidsShaped(cp, l, d) && KidsShaped(cp, r, d) && Shaped(cp, t, d) && k == First(t)
    ensures KidsShaped(cp, l + [Kid(k, t)] + r, d)
  {
    var ks := l + [Kid(k, t)] + r;
    forall i | 0 <= i < |ks| ensures Shaped(cp, ks[i].sub, d) && ks[i].key == First(ks[i].sub) {
      if i < |l| { assert ks[i] == l[i]; } else if i > |l| { assert ks[i] == r[i - |l| - 1]; }
    }
  }

  lemma {:induction false} PlugShaped(cp: Caps, c: Ctx, t: Tree, d: nat)
    requires ShapedC(cp, c, d) && Shaped(cp, t, d) && KeysOk(c, First(t))
    ensures Shaped(cp, Plug(c, t), d + Depth(c))
  {
    match c
    case Top =>
    case In(up, loc, l, k, r) =>
      NodeShaped(cp, l, k, t, r, d);
      PlugShaped(cp, up, Index(loc, l + [Kid(k, t)] + r), d + 1);
  }

  lemma {:induction false} FirstIsFirst(cp: Caps, t: Tree, d: nat)
    requires Shaped(cp, t, d)
    ensures Exts(t) != [] && Exts(t)[0].lblk == First(t)
    decreases t
  {
    match t
    case Leaf(_, _) =>
    case Index(_, kids) =>
      FirstIsFirst(cp, kids[0].sub, d - 1);
      assert KidExts(kids) == SubExts(kids[0]) + KidExts(kids[1..]);
  }

  lemma {:induction false} KidsFirst(cp: Caps, ks: seq<Kid>, d: nat)
    requires KidsShaped(cp, ks, d) && ks != []
    ensures KidExts(ks) != [] && KidExts(ks)[0].lblk == ks[0].key
  {
    FirstIsFirst(cp, ks[0].sub, d);
  }

  // ---------- Index entries and their order ----------

  datatype Idx = Idx(key: nat, blk: nat)

  ghost function Idxs(ks: seq<Kid>): seq<Idx> {
    seq(|ks|, i requires 0 <= i < |ks| => Idx(ks[i].key, ks[i].sub.loc))
  }

  /** The entries of an index node whose entry |l| leads to the hole. */
  ghost function Entries(l: seq<Kid>, key: nat, hole: nat, r: seq<Kid>): seq<Idx> {
    Idxs(l) + [Idx(key, hole)] + Idxs(r)
  }

  ghost predicate Inc(xs: seq<Idx>) {
    forall i, j :: 0 <= i < j < |xs| ==> xs[i].key < xs[j].key
  }

  lemma {:induction false} IdxsConcat(a: seq<Kid>, b: seq<Kid>)
    ensures Idxs(a + b) == Idxs(a) + Idxs(b)
  {
  }

  lemma {:induction false} IdxsAround(l: seq<Kid>, k: nat, t: Tree, r: seq<Kid>)
    ensures Idxs(l + [Kid(k, t)] + r) == Entries(l, k, t.loc, r)
  {
    IdxsConcat(l + [Kid(k, t)], r);
    IdxsConcat(l, [Kid(k, t)]);
    assert Idxs([Kid(k, t)]) == [Idx(k, t.loc)];
  }

  /** In a sorted tree the keys of every index node increase strictly. */
  lemma {:induction false} KidsInc(cp: Caps, ks: seq<Kid>, d: nat)
    requires KidsShaped(cp, ks, d) && Sorted(KidExts(ks))
    ensures Inc(Idxs(ks))
  {
    forall i, j | 0 <= i < j < |ks| ensures ks[i].key < ks[j].key {
      var a, b := ks[..j], ks[j..];
      assert ks == a + b;
      KidExtsConcat(a, b);
      SortedParts(KidExts(a), KidExts(b));
      KidsFirst(cp, b, d);
      var x, y := a[..i], a[i..];
      assert a == x + y;
      KidExtsConcat(x, y);
      KidsFirst(cp, y, d);
      assert KidExts(a)[|KidExts(x)|] == KidExts(y)[0];
      assert Good(KidExts(a)[|KidExts(x)|]);
    }
  }

  ghost predicate OrderedC(c: Ctx, hole: nat) {
    match c
    case Top => true
    case In(up, loc, l, key, r) => Inc(Entries(l, key, hole, r)) && OrderedC(up, loc)
  }

  lemma {:induction false} PlugOrdered(cp: Caps, c: Ctx, t: Tree, d: nat)
    requires ShapedC(cp, c, d) && Shaped(cp, t, d) && KeysOk(c, First(t))
    requires Sorted(Exts(Plug(c, t)))
    ensures OrderedC(c, t.loc)
  {
    match c
    case Top =>
    case In(up, loc, l, k, r) =>
      var n := Index(loc, l + [Kid(k, t)] + r);
      PlugShaped(cp, In(Top, loc, l, k, r), t, d);
      PlugOrdered(cp, up, n, d + 1);
      PlugExts(up, n);
      SortedParts(LeftExts(up) + Exts(n), RightExts(up));
      SortedParts(LeftExts(up), Exts(n));
      KidsInc(cp, n.kids, d);
      IdxsAround(l, k, t, r);
  }

  // ---------- Routes: where a search for block b leads ----------

  /** At every level the path takes the last entry at or below b, or the first one. */
  ghost predicate Route(c: Ctx, b: nat) {
    match c
    case Top => true
    case In(up, _, l, key, r) =>
      && (l == [] || key <= b)
      && (r == [] || b < r[0].key)
      && Route(up, b)
  }

  lemma {:induction false} RouteLeft(c: Ctx, k: nat, b: nat)
    requires Route(c, b) && KeysOk(c, k) && LeftExts(c) != []
    ensures k <= b
  {
    match c
    case Top =>
    case In(up, _, l, _, _) => if l == [] { RouteLeft(up, k, b); }
  }

  lemma {:induction false} RouteRight(cp: Caps, c: Ctx, d: nat, b: nat)
    requires Route(c, b) && ShapedC(cp, c, d) && Sorted(RightExts(c))
    ensures Above(RightExts(c), b + 1)
  {
    match c
    case Top =>
    case In(up, _, _, _, r) =>
      SortedParts(KidExts(r), RightExts(up));
      RouteRight(cp, up, d + 1, b);
      if r != [] {
        KidsFirst(cp, r, d);
        SortedRest(KidExts(r));
        assert Above(KidExts(r), r[0].key);
      }
  }

  /** Search can always be carried on down to a leaf. */
  lemma {:induction false} Locate(cp: Caps, c: Ctx, t: Tree, d: nat, b: nat) returns (c': Ctx, t': Tree)
    requires ShapedC(cp, c, d) && Shaped(cp, t, d) && KeysOk(c, First(t)) && Route(c, b)
    requires Sorted(Exts(t))
    ensures Plug(c', t') == Plug(c, t) && Depth(c') == Depth(c) + d
    ensures ShapedC(cp, c', 0) && t'.Leaf? && Shaped(cp, t', 0) && KeysOk(c', First(t')) && Route(c', b)
    decreases t
  {
    match t
    case Leaf(_, _) => c', t' := c, t;
    case Index(loc, ks) =>
      var i := PickKid(cp, ks, d - 1, b);
      c', t' := Locate(cp, In(c, loc, ks[..i], ks[i].key, ks[i + 1..]), ks[i].sub, d - 1, b);
  }

  /** The entry that a search for b follows. */
  lemma {:induction false} PickKid(cp: Caps, ks: seq<Kid>, d: nat, b: nat) returns (i: nat)
    requires ks != [] && KidsShaped(cp, ks, d) && Sorted(KidExts(ks))
    ensures i < |ks| && (i == 0 || ks[i].key <= b) && (i + 1 == |ks| || b < ks[i + 1].key)
    ensures ks == ks[..i] + [Kid(ks[i].key, ks[i].sub)] + ks[i + 1..] && Sorted(Exts(ks[i].sub))
  {
    i := 0;
    while i + 1 < |ks| && ks[i + 1].key <= b
      invariant i < |ks| && (i == 0 || ks[i].key <= b)
    {
      i := i + 1;
    }
    var l, r := ks[..i], ks[i + 1..];
    assert ks == l + [ks[i]] + r && Kid(ks[i].key, ks[i].sub) == ks[i];
    KidExtsAround(l, ks[i], r);
    SortedParts(KidExts(l) + Exts(ks[i].sub), KidExts(r));
    SortedParts(KidExts(l), Exts(ks[i].sub));
  }

  // ---------- Levels of a path, counted from the root ----------

  datatype Step = Step(loc: nat, pos: int)

  /** The path array up to, not including, the hole. */
  ghost function PathOf(c: Ctx): seq<Step> {
    match c
    case Top => []
    case In(up, loc, l, _, _) => PathOf(up) + [Step(loc, |l|)]
  }

  lemma {:induction false} PathLen(c: Ctx)
    ensures |PathOf(c)| == Depth(c)
  {
    match c
    case Top =>
    case In(up, _, _, _, _) => PathLen(up);
  }

  /** The cursor after only n of the levels of (c, t) have been walked. */
  ghost function ZipAt(c: Ctx, t: Tree, n: nat): (Ctx, Tree)
    requires n <= Depth(c)
  {
    if n == Depth(c) then (c, t)
    else ZipAt(c.up, Index(c.loc, c.left + [Kid(c.key, t)] + c.right), n)
  }

  lemma {:induction false} ZipAtPlug(c: Ctx, t: Tree, n: nat)
    requires n <= Depth(c)
    ensures Plug(ZipAt(c, t, n).0, ZipAt(c, t, n).1) == Plug(c, t) && Depth(ZipAt(c, t, n).0) == n
  {
    if n < Depth(c) { ZipAtPlug(c.up, Index(c.loc, c.left + [Kid(c.key, t)] + c.right), n); }
  }

  lemma {:induction false} ZipAtStep(c: Ctx, t: Tree, n: nat) returns (l: seq<Kid>, k: Kid, r: seq<Kid>)
    requires n < Depth(c)
    ensures var (c0, t0) := ZipAt(c, t, n);
            t0.Index? && t0.kids == l + [k] + r && ZipAt(c, t, n + 1) == (In(c0, t0.loc, l, k.key, r), k.sub)
  {
    if n + 1 == Depth(c) {
      l, k, r := c.left, Kid(c.key, t), c.right;
    } else {
      l, k, r := ZipAtStep(c.up, Index(c.loc, c.left + [Kid(c.key, t)] + c.right), n);
    }
  }

  lemma {:induction false} ZipAtRoute(c: Ctx, t: Tree, n: nat, b: nat)
    requires n <= Depth(c) && Route(c, b) && OrderedC(c, t.loc)
    ensures Route(ZipAt(c, t, n).0, b) && OrderedC(ZipAt(c, t, n).0, ZipAt(c, t, n).1.loc)
  {
    if n < Depth(c) { ZipAtRoute(c.up, Index(c.loc, c.left + [Kid(c.key, t)] + c.right), n, b); }
  }

  lemma {:induction false} ZipAtPath(c: Ctx, t: Tree, n: nat)
    requires n <= Depth(c)
    ensures |PathOf(c)| == Depth(c) && PathOf(ZipAt(c, t, n).0) == PathOf(c)[..n]
  {
    PathLen(c);
    if n < Depth(c) {
      ZipAtPath(c.up, Index(c.loc, c.left + [Kid(c.key, t)] + c.right), n);
      assert PathOf(c)[..n] == PathOf(c.up)[..n];
    }
  }

  lemma {:induction false} ZipAtShaped(cp: Caps, c: Ctx, t: Tree, n: nat, d: nat)
    requires n <= Depth(c) && ShapedC(cp, c, d)
    ensures ShapedC(cp, ZipAt(c, t, n).0, d + Depth(c) - n)
  {
    if n < Depth(c) { ZipAtShaped(cp, c.up, Index(c.loc, c.left + [Kid(c.key, t)] + c.right), n, d + 1); }
  }
}
