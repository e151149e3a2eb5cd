/** kernfs/extents.c: the extent tree of one inode on one device, as an object whose
    methods rewrite nodes in place.  `store` holds the nodes, the root at INODE; the
    ghost `tree` is what they represent. */
module KernfsExtents {
  import opened Extents
  import opened ExtentTrees
  import opened ExtentStore
  import opened TreeEdits
  import opened InsertSpec
  import opened MergeSpec
  import opened SplitSpec
  import opened LookupSpec
  import opened RemoveSpec
  import FreeBlocks

  /** struct mlfs_map_blocks on return from mlfs_ext_get_blocks. */
  datatype MapBlocks = MapBlocks(lblk: nat, len: nat, pblk: nat, found: bool, isNew: bool)

  function Least(a: nat, b: nat): nat {
    if a < b then a else b
  }

  /** n is the rest of the extent that covers block b, from b on. */
  ghost predicate RestLen(s: seq<Extent>, b: nat, n: nat) {
    exists i :: 0 <= i < |s| && s[i].lblk <= b < End(s[i]) && n == End(s[i]) - b
  }

  /** n blocks from lblk on are not mapped, and there are no more, up to len of them. */
  ghost predicate RoomLen(before: map<int, Cell>, lblk: nat, len: nat, n: nat) {
    && 1 <= n <= len && (forall x :: lblk <= x < lblk + n ==> x !in before)
    && (n < len ==> lblk + n == EXT_MAX_BLOCKS || lblk + n in before)
  }

  /** An unwritten extent has at most EXT_UNWRITTEN_MAX_LEN blocks, so no more are asked for. */
  function Capped(len: nat, preIO: bool): nat {
    if preIO then Least(len, EXT_UNWRITTEN_MAX_LEN) else len
  }

  /** As many blocks as there is room for, or as the allocator has in a row. */
  ghost predicate Granted(before: map<int, Cell>, lblk: nat, len: nat, supply: nat, ret: nat) {
    exists n :: RoomLen(before, lblk, len, n) && ret == Least(n, supply)
  }

  /** The block is mapped: how the answer and the new map relate to the old one.  e is the rest
      of the block's extent, as an initialised extent. */
  ghost predicate FoundSpec(before: map<int, Cell>, now: map<int, Cell>, lblk: nat, len: nat, create: bool, ret: nat,
                            m: MapBlocks, e: Extent) {
    && lblk in before && 1 <= ret == Least(len, Len(e)) && e.lblk == lblk && !Unwritten(e)
    && e.pblk == before[lblk].pblk
    && (forall x :: x in Run(e) ==> x in before && before[x] == Cell(Run(e)[x].pblk, before[lblk].unwritten))
    && m == MapBlocks(lblk, ret, if before[lblk].unwritten && !create then 0 else e.pblk, true, false)
    && now == if create && before[lblk].unwritten then before + Run(e) else before
  }

  /** The block is in a hole and nothing is allocated: the answer is the length of the hole. */
  ghost predicate HoleSpec(before: map<int, Cell>, lblk: nat, len: nat, m: MapBlocks) {
    m == MapBlocks(lblk, m.len, 0, false, false) && RoomLen(before, lblk, len, m.len)
  }

  /** New blocks were mapped where there were none. */
  ghost predicate NewSpec(before: map<int, Cell>, now: map<int, Cell>, lblk: nat, len: nat, preIO: bool, supply: nat,
                          ret: nat, m: MapBlocks, e: Extent) {
    && 1 <= ret <= len && Granted(before, lblk, Capped(len, preIO), supply, ret)
    && e == NewExtent(lblk, ret, e.pblk, preIO) && Len(e) == ret && Unwritten(e) == preIO
    && Run(e).Keys !! before.Keys && now == before + Run(e)
    && m == MapBlocks(lblk, ret, if preIO then 0 else e.pblk, false, true)
  }

  /** mlfs_ext_get_blocks as a change of the block map. */
  ghost predicate MapSpec(before: map<int, Cell>, now: map<int, Cell>, lblk: nat, len: nat, create: bool, preIO: bool,
                          supply: nat, ret: nat, m: MapBlocks, e: Extent) {
    if lblk in before then FoundSpec(before, now, lblk, len, create, ret, m, e)
    else if create then NewSpec(before, now, lblk, len, preIO, supply, ret, m, e)
    else HoleSpec(before, lblk, len, m) && now == before
  }

  /** The map the request starts from: a mapped range that is to be allocated anew goes first. */
  ghost function Dropped(before: map<int, Cell>, lblk: nat, len: nat, logAlloc: bool): map<int, Cell>
    requires len >= 1
  {
    if logAlloc && lblk in before then Without(before, lblk, lblk + len - 1) else before
  }

  /** The path array: index levels from the root down, then the leaf. */
  datatype Path = Path(levels: seq<Step>, leaf: Step)

  ghost predicate PathTo(path: Path, c: Ctx, t: Tree) {
    path.levels == PathOf(c) && path.leaf.loc == t.loc
  }

  /** mlfs_ext_binsearch_idx */
  method BinSearchIdx(xs: seq<Idx>, b: nat) returns (p: nat)
    requires xs != [] && Inc(xs)
    ensures p < |xs|
    ensures forall i :: 0 < i <= p ==> xs[i].key <= b
    ensures forall i :: p < i < |xs| ==> b < xs[i].key
  {
    var l, r := 1, |xs| - 1;
    while l <= r
      invariant 1 <= l <= |xs| && l - 1 <= r < |xs|
      invariant forall i :: 0 < i < l ==> xs[i].key <= b
      invariant forall i :: r < i < |xs| ==> b < xs[i].key
    {
      var m := l + (r - l) / 2;
      if b < xs[m].key { r := m - 1; } else { l := m + 1; }
    }
    p := l - 1;
  }

  /** mlfs_ext_binsearch */
  method BinSearch(xs: seq<Extent>, b: nat) returns (p: int)
    requires Sorted(xs)
    ensures LeafAt(xs, b, p)
    ensures forall i :: 0 < i <= p ==> xs[i].lblk <= b
  {
    if xs == [] { return -1; }
    var l, r := 1, |xs| - 1;
    while l <= r
      invariant 1 <= l <= |xs| && l - 1 <= r < |xs|
      invariant forall i :: 0 < i < l ==> xs[i].lblk <= b
      invariant forall i :: r < i < |xs| ==> b < xs[i].lblk
    {
      var m := l + (r - l) / 2;
      if b < xs[m].lblk {
        forall i | m <= i < |xs| ensures b < xs[i].lblk { if m < i { assert Precedes(xs[m], xs[i]); } }
        r := m - 1;
      } else {
        forall i | 0 < i <= m ensures xs[i].lblk <= b { if i < m { assert Precedes(xs[i], xs[m]); } }
        l := m + 1;
      }
    }
    p := l - 1;
  }

  /** The only position that a route allows. */
  lemma {:induction false} RoutePos(l: seq<Kid>, key: nat, hole: nat, r: seq<Kid>, b: nat, p: nat)
    requires Inc(Entries(l, key, hole, r)) && p < |l| + 1 + |r|
    requires (l == [] || key <= b) && (r == [] || b < r[0].key)
    requires forall i :: 0 < i <= p ==> Entries(l, key, hole, r)[i].key <= b
    requires forall i :: p < i < |l| + 1 + |r| ==> b < Entries(l, key, hole, r)[i].key
    ensures p == |l|
  {
    var es := Entries(l, key, hole, r);
    assert es[|l|].key == key;
    assert r != [] ==> es[|l| + 1].key == r[0].key;
  }

  /** Which blocks the device has handed out, against what the tree and others own. */
  ghost predicate Accounts(cp: Caps, used: set<int>, own: multiset<int>, others: set<int>) {
    && multiset(used) + multiset{INODE} == own + multiset(others)
    && forall b :: b in used ==> b > cp.rootIdx
  }

  lemma {:induction false} Distinct(cp: Caps, used: set<int>, own: multiset<int>, others: set<int>, b: nat)
    requires Accounts(cp, used, own, others)
    ensures own[b] <= 1
  {
    assert (multiset(used) + multiset{INODE})[b] == (own + multiset(others))[b];
  }

  lemma {:induction false} Exchange(a: multiset<int>, m: multiset<int>, p: multiset<int>, x: multiset<int>,
                                    p': multiset<int>, x': multiset<int>)
    requires p + x == p' + x'
    ensures a + (m + p) + x == a + (m + p') + x'
  {
    forall b ensures (a + (m + p) + x)[b] == (a + (m + p') + x')[b] {
      assert (p + x)[b] == (p' + x')[b];
    }
  }

  lemma {:induction false} AccountsFree(cp: Caps, used: set<int>, own: multiset<int>, gone: set<int>, others: set<int>)
    requires Accounts(cp, used, own + multiset(gone), others) && INODE !in gone
    ensures gone <= used && Accounts(cp, used - gone, own, others)
  {
    forall b
      ensures b in gone ==> b in used
      ensures (multiset(used - gone) + multiset{INODE})[b] == (own + multiset(others))[b]
    {
      assert (multiset(used) + multiset{INODE})[b] == (own + multiset(gone) + multiset(others))[b];
    }
  }

  lemma {:induction false} AccountsAlloc(cp: Caps, used: set<int>, own: multiset<int>, more: set<int>, others: set<int>)
    requires Accounts(cp, used, own, others) && more !! used && forall b :: b in more ==> b > cp.rootIdx
    ensures Accounts(cp, used + more, own + multiset(more), others)
  {
    forall b
      ensures (multiset(used + more) + multiset{INODE})[b] == (own + multiset(more) + multiset(others))[b]
    {
      assert (multiset(used) + multiset{INODE})[b] == (own + multiset(others))[b];
    }
  }

  /** What is owned once in one part is not owned in another. */
  lemma {:induction false} Apart(cp: Caps, used: set<int>, a: multiset<int>, m: multiset<int>, rest: multiset<int>,
                                 others: set<int>, b: nat)
    requires Accounts(cp, used, a + m + rest, others) && b in m
    ensures b !in a && b !in rest && m[b] == 1
  {
    Distinct(cp, used, a + m + rest, others, b);
  }

  lemma {:induction false} WriteLeafRepr(cp: Caps, st: Store, used: set<int>, others: set<int>, loc: nat, c: Ctx,
                                         s: seq<Extent>, s': seq<Extent>, x: multiset<int>)
    requires ReprC(cp, st, c, 0, loc) && Repr(cp, st, Leaf(loc, s), 0)
    requires Accounts(cp, used, Own(Plug(c, Leaf(loc, s))) + x, others)
    ensures var st' := st[loc := st[loc].(exts := s')];
            ReprC(cp, st', c, 0, loc) && Repr(cp, st', Leaf(loc, s'), 0)
  {
    PlugOwn(c, Leaf(loc, s));
    Distinct(cp, used, Own(Plug(c, Leaf(loc, s))) + x, others, loc);
    ReprCFrame(cp, st, c, 0, loc, loc, st[loc].(exts := s'));
  }

  lemma {:induction false} WriteLeafOwn(cp: Caps, used: set<int>, others: set<int>, loc: nat, c: Ctx, s: seq<Extent>,
                                        s': seq<Extent>, x: multiset<int>, x': multiset<int>)
    requires Accounts(cp, used, Own(Plug(c, Leaf(loc, s))) + x, others) && PhysAll(s') + x' == PhysAll(s) + x
    ensures Accounts(cp, used, Own(Plug(c, Leaf(loc, s'))) + x', others)
  {
    PlugOwn(c, Leaf(loc, s));
    PlugOwn(c, Leaf(loc, s'));
    Exchange(OwnC(c), multiset{loc}, PhysAll(s), x, PhysAll(s'), x');
  }

  lemma {:induction false} SameOwn(c: Ctx, border: nat, t: Tree)
    requires c.In?
    ensures Own(Plug(c, t)) == Own(Plug(c.(key := border), t))
  {
    PlugOwn(c, t);
    PlugOwn(c.(key := border), t);
  }

  /** A write to the parent of the hole leaves everything around it alone. */
  lemma {:induction false} ParentFrame(cp: Caps, st: Store, used: set<int>, others: set<int>, c: Ctx, t: Tree, d: nat,
                                       x: multiset<int>, n: Node)
    requires c.In? && ReprC(cp, st, c, d, t.loc) && Repr(cp, st, t, d)
             && Accounts(cp, used, OwnC(c) + Own(t) + x, others)
    ensures var st' := st[c.loc := n];
            Repr(cp, st', t, d) && KidsRepr(cp, st', c.left, d) && KidsRepr(cp, st', c.right, d)
                && ReprC(cp, st', c.up, d + 1, c.loc)
  {
    Distinct(cp, used, OwnC(c) + Own(t) + x, others, c.loc);
    ReprFrame(cp, st, t, d, c.loc, n);
    KidsReprFrame(cp, st, c.left, d, c.loc, n);
    KidsReprFrame(cp, st, c.right, d, c.loc, n);
    ReprCFrame(cp, st, c.up, d + 1, c.loc, c.loc, n);
  }

  lemma {:induction false} WriteKeyRepr(cp: Caps, st: Store, used: set<int>, others: set<int>, c: Ctx, t: Tree, d: nat,
                                        x: multiset<int>, border: nat)
    requires c.In? && ReprC(cp, st, c, d, t.loc) && Repr(cp, st, t, d)
             && Accounts(cp, used, OwnC(c) + Own(t) + x, others)
    ensures var n := st[c.loc].(idxs := st[c.loc].idxs[|c.left| := Idx(border, t.loc)]);
            ReprC(cp, st[c.loc := n], c.(key := border), d, t.loc) && Repr(cp, st[c.loc := n], t, d)
  {
    var n := st[c.loc].(idxs := st[c.loc].idxs[|c.left| := Idx(border, t.loc)]);
    ParentFrame(cp, st, used, others, c, t, d, x, n);
    assert n.idxs == Entries(c.left, border, t.loc, c.right);
  }

  lemma {:induction false} SplitDepth(cp: Caps, c: Ctx, border: nat, r: Tree, news: seq<nat>)
    requires CanSplit(cp, c) && |news| == FullLevels(cp, c)
    ensures Depth(SplitLeft(cp, c, border, r, news)) == Depth(c)
  {
    if Full(cp, c) { SplitDepth(cp, c.up, border, Index(news[0], [Kid(border, r)] + c.right), news[1..]); }
  }

  lemma {:induction false} SpareApart(x: multiset<int>, spare: seq<nat>, nb: nat)
    ensures x + multiset(spare + [nb]) == (x + multiset(spare)) + multiset{nb} && nb in spare + [nb]
    ensures INODE !in spare + [nb] ==> INODE !in spare && nb != INODE
  {
    assert (spare + [nb])[|spare|] == nb;
  }

  lemma {:induction false} NoSpare(x: multiset<int>)
    ensures x + multiset([]) == x
  {
  }

  /** What one full level does to the cursor and to the tree that SplitLeft will make. */
  lemma {:induction false} SplitUpStep(cp: Caps, c: Ctx, l: Tree, r: Tree, border: nat, rest: seq<nat>, nb: nat)
    requires CanSplit(cp, c) && FullLevels(cp, c) == |rest| + 1
    ensures Full(cp, c) && CanSplit(cp, c.up) && FullLevels(cp, c.up) == |rest| == |Rev(rest)|
            && |Rev(rest + [nb])| == |rest| + 1
    ensures Plug(SplitLeft(cp, c.up, border, Index(nb, [Kid(border, r)] + c.right), Rev(rest)),
            Index(c.loc, c.left + [Kid(c.key, l)]))
         == Plug(SplitLeft(cp, c, border, r, Rev(rest + [nb])), l)
  {
    RevFacts(rest);
    assert (rest + [nb])[..|rest|] == rest;
    assert Rev(rest + [nb])[1..] == Rev(rest);
    assert c.left + [Kid(c.key, l)] + [] == c.left + [Kid(c.key, l)];
  }

  lemma {:induction false} LinkIdxs(c: Ctx, l: Tree, r: Tree, border: nat)
    requires c.In?
    ensures var es := Entries(c.left, c.key, l.loc, c.right);
            es[..|c.left| + 1] + [Idx(border, r.loc)] + es[|c.left| + 1..]
                == Entries(c.left, c.key, l.loc, [Kid(border, r)] + c.right)
  {
    IdxsConcat([Kid(border, r)], c.right);
    assert Idxs([Kid(border, r)]) == [Idx(border, r.loc)];
  }

  lemma {:induction false} LinkRepr(cp: Caps, st: Store, used: set<int>, others: set<int>, c: Ctx, l: Tree, r: Tree,
                                    border: nat, d: nat, x: multiset<int>)
    requires c.In? && ReprC(cp, st, c, d, l.loc) && Repr(cp, st, l, d) && Repr(cp, st, r, d)
    requires Accounts(cp, used, OwnC(c) + Own(l) + Own(r) + x, others)
    ensures var c' := c.(right := [Kid(border, r)] + c.right);
            var st' := st[c.loc := st[c.loc].(idxs := Entries(c.left, c.key, l.loc, c'.right))];
            ReprC(cp, st', c', d, l.loc) && Repr(cp, st', l, d)
  {
    var n := st[c.loc].(idxs := Entries(c.left, c.key, l.loc, [Kid(border, r)] + c.right));
    assert OwnC(c) + Own(l) + Own(r) + x == OwnC(c) + Own(l) + (Own(r) + x);
    ParentFrame(cp, st, used, others, c, l, d, Own(r) + x, n);
    Distinct(cp, used, OwnC(c) + Own(l) + Own(r) + x, others, c.loc);
    ReprFrame(cp, st, r, d, c.loc, n);
  }

  lemma {:induction false} LinkOwn(c: Ctx, l: Tree, r: Tree, border: nat, x: multiset<int>)
    requires c.In?
    ensures Own(Plug(c.(right := [Kid(border, r)] + c.right), l)) + x == OwnC(c) + Own(l) + Own(r) + x
  {
    PlugOwn(c.(right := [Kid(border, r)] + c.right), l);
    FrontOwn(border, r, c.right);
  }

  lemma {:induction false} RootOwned(cp: Caps, st: Store, c: Ctx, d: nat, hole: nat)
    requires c.In? && ReprC(cp, st, c, d, hole)
    ensures INODE in OwnC(c)
  {
    if c.up.In? { RootOwned(cp, st, c.up, d + 1, c.loc); }
  }

  lemma {:induction false} RootNonEmpty(c: Ctx, t: Tree)
    requires t.Leaf? ==> t.exts != []
    requires t.Index? ==> t.kids != []
    ensures match Plug(c, t) case Leaf(_, exts) => exts != [] case Index(_, kids) => kids != []
  {
    if c.In? { RootNonEmpty(c.up, Index(c.loc, c.left + [Kid(c.key, t)] + c.right)); }
  }

  lemma {:induction false} GrowOwn(t: Tree, nb: nat, x: multiset<int>)
    requires t.loc == INODE
    ensures Own(Index(INODE, [Kid(First(t), Relocated(t, nb))])) + x == Own(t) + (x + multiset{nb})
  {
    var g := Relocated(t, nb);
    assert [Kid(First(t), g)][1..] == [];
    assert KidOwn([Kid(First(t), g)]) == Own(g);
  }

  lemma {:induction false} GrowRepr(cp: Caps, st: Store, used: set<int>, others: set<int>, t: Tree, d: nat, nb: nat,
                                    x: multiset<int>)
    requires Repr(cp, st, t, d) && t.loc == INODE && nb != INODE
             && Accounts(cp, used, Own(t) + (x + multiset{nb}), others)
    requires match t case Leaf(_, exts) => exts != [] case Index(_, kids) => kids != []
    ensures var root := st[INODE];
            var st' := st[nb := InBlock(cp, root)]
                         [INODE := IndexNode(d + 1, cp.rootIdx, [Idx(First(t), nb)])];
            Repr(cp, st', Index(INODE, [Kid(First(t), Relocated(t, nb))]), d + 1)
    ensures First(t) == if st[INODE].LeafNode? then st[INODE].exts[0].lblk else st[INODE].idxs[0].key
  {
    var root := st[INODE];
    var n := InBlock(cp, root);
    var m := IndexNode(d + 1, cp.rootIdx, [Idx(First(t), nb)]);
    Distinct(cp, used, Own(t) + (x + multiset{nb}), others, nb);
    Distinct(cp, used, Own(t) + (x + multiset{nb}), others, INODE);
    var st' := st[nb := n][INODE := m];
    if t.Index? {
      KidsReprFrame(cp, st, t.kids, d - 1, nb, n);
      KidsReprFrame(cp, st[nb := n], t.kids, d - 1, INODE, m);
    }
    var g := Relocated(t, nb);
    assert Repr(cp, st', g, d);
    assert Idxs([Kid(First(t), g)]) == [Idx(First(t), nb)];
  }

  /** Leaf t has become t' by taking in e; the keys above are right except, perhaps, for a
      new first extent. */
  lemma {:induction false} HereGrown(cp: Caps, c: Ctx, t: Tree, e: Extent, pos: int)
    requires Roomy(cp, c, t, e, pos)
    ensures var t', near := WithExtent(t, pos, e), NearPos(t.exts, pos, e);
            && near < |t'.exts| <= |t.exts| + 1 && PhysAll(t'.exts) == PhysAll(t.exts) + Phys(e)
            && Sorted(t'.exts) && Sorted(All(c, t')) && BlockMap(All(c, t')) == BlockMap(All(c, t)) + Run(e)
            && (near == 0 || KeysOk(c, First(t')))
  {
    RoomyFits(cp, c, t, e, pos);
    FitsInsert(c, t, e, NearPos(t.exts, pos, e));
  }

  ghost predicate Within(e: Extent, f: Extent) {
    f.lblk <= e.lblk && End(e) <= End(f)
  }

  ghost predicate Grown(path: Path, near: nat, c: Ctx, t: Tree, t': Tree, e: Extent) {
    && t.Leaf? && t'.Leaf? && t'.loc == t.loc && near < |t'.exts| <= |t.exts| + 1
    && Sorted(t'.exts) && Sorted(All(c, t')) && BlockMap(All(c, t')) == BlockMap(All(c, t)) + Run(e)
    && (path.leaf.pos == 0 || KeysOk(c, First(t'))) && Within(e, t'.exts[near])
  }

  lemma {:induction false} ExtendFacts(c: Ctx, t: Tree, e: Extent, p: nat, i: nat)
    requires Sorted(All(c, t)) && Good(e) && Fits(c, t, e, p) && i < |t.exts|
    requires CanMerge(Inserted(t.exts, p, e)[i], Inserted(t.exts, p, e)[i + 1])
    ensures var s := MergeAt(Inserted(t.exts, p, e), i);
            && Sorted(s) && Sorted(LeftExts(c) + s + RightExts(c))
            && BlockMap(LeftExts(c) + s + RightExts(c)) == BlockMap(All(c, t)) + Run(e)
            && PhysAll(s) == PhysAll(t.exts) + Phys(e)
  {
    var s := Inserted(t.exts, p, e);
    FitsInsert(c, t, e, p);
    MergeAtFacts(s, i);
    assert SameRun(s, MergeAt(s, i));
    SameRunWithin(LeftExts(c), s, MergeAt(s, i), RightExts(c));
  }

  lemma {:induction false} AppendGrown(cp: Caps, path: Path, c: Ctx, t: Tree, e: Extent, i: nat)
    requires Ready(cp, c, t, e, path.leaf.pos) && i < |t.exts| && CanMerge(t.exts[i], e)
    ensures var s := t.exts[i := Merged(t.exts[i], e)];
            Grown(path, i, c, t, Leaf(t.loc, s), e) && PhysAll(s) == PhysAll(t.exts) + Phys(e)
  {
    AppendFits(cp, c, t, e, i);
    MergeInserted(t.exts, i, e);
    ExtendFacts(c, t, e, i + 1, i);
    AllParts(c, t);
    assert Good(t.exts[i]);
    MergedFacts(t.exts[i], e);
  }

  lemma {:induction false} PrependGrown(cp: Caps, path: Path, c: Ctx, t: Tree, e: Extent, i: nat, grown: Extent)
    requires Ready(cp, c, t, e, path.leaf.pos) && i < |t.exts| && CanMerge(e, t.exts[i])
    requires grown == WithLen(t.exts[i].(lblk := e.lblk, pblk := e.pblk), Len(t.exts[i]) + Len(e), Unwritten(t.exts[i]))
    ensures var s := t.exts[i := grown];
            Grown(path, i, c, t, Leaf(t.loc, s), e) && PhysAll(s) == PhysAll(t.exts) + Phys(e)
  {
    assert grown == Merged(e, t.exts[i]);
    PrependFits(cp, c, t, e, i);
    MergeInserted(t.exts, i, e);
    ExtendFacts(c, t, e, i, i);
    AllParts(c, t);
    assert Good(t.exts[i]);
    MergedFacts(e, t.exts[i]);
  }

  lemma {:induction false} TrimShape(l: seq<Extent>, e: Extent, r: seq<Extent>, start: nat, end: nat)
    requires Good(e) && e.lblk <= end && start < End(e)
    ensures var s, num := l + [e] + r, if e.lblk > start then 0 else start - e.lblk;
            && s[|l|] == e && Gone(e, start, end) == Span(e.pblk + num, Len(e) - num)
            && l + TrimOne(e, start, end) + r == if num == 0 then s[..|l|] + s[|l| + 1..]
                else s[|l| := WithLen(e, num, Unwritten(e))]
  {
    var s := l + [e] + r;
    assert s[..|l|] + s[|l| + 1..] == l + [] + r;
    forall y ensures s[|l| := y] == l + [y] + r {}
  }

  lemma {:induction false} TrimEntryPhys(l: seq<Extent>, e: Extent, r: seq<Extent>, start: nat, end: nat,
                                         x: multiset<int>)
    requires Good(e) && End(e) <= end + 1
    ensures PhysAll(l + TrimOne(e, start, end) + r) + (x + multiset(Gone(e, start, end))) == PhysAll(l + [e] + r) + x
  {
    TrimOnePhys(e, start, end);
    PhysConcat(l + TrimOne(e, start, end), r);
    PhysConcat(l, TrimOne(e, start, end));
    PhysConcat(l + [e], r);
    PhysConcat(l, [e]);
    BlockMapOne(e);
  }

  lemma {:induction false} AccountsFree2(cp: Caps, used: set<int>, own: multiset<int>, x: multiset<int>,
                                         gone: set<int>, others: set<int>)
    requires Accounts(cp, used, own + (x + multiset(gone)), others) && INODE in own
    ensures gone <= used && Accounts(cp, used - gone, own + x, others)
  {
    Distinct(cp, used, own + (x + multiset(gone)), others, INODE);
    assert own + (x + multiset(gone)) == own + x + multiset(gone);
    AccountsFree(cp, used, own + x, gone, others);
  }

  ghost predicate CutClean(s: seq<Extent>, b: nat) {
    forall i :: 0 <= i < |s| ==> Good(s[i]) && (End(s[i]) <= b || b <= s[i].lblk)
  }

  ghost predicate Touches(s: seq<Extent>, i: int, end: nat) {
    0 <= i < |s| && s[i].lblk <= end
  }

  /** A leaf whose extents from n on have been trimmed. */
  ghost function TrimFrom(s: seq<Extent>, n: nat, start: nat, end: nat): seq<Extent>
    requires n <= |s|
  {
    s[..n] + Trimmed(s[n..], start, end)
  }

  /** One step of the loop in mlfs_ext_rm_leaf, on sequences. */
  lemma {:induction false} TrimNext(s: seq<Extent>, i: nat, k: nat, start: nat, end: nat)
    requires i < |s| && k == i + 1
    ensures TrimFrom(s, k, start, end)[i] == s[i]
    ensures TrimFrom(s, k, start, end) == s[..i] + [s[i]] + Trimmed(s[i + 1..], start, end)
    ensures TrimFrom(s, i, start, end) == s[..i] + TrimOne(s[i], start, end) + Trimmed(s[i + 1..], start, end)
  {
    assert s[i..][1..] == s[i + 1..] && s[..i + 1] == s[..i] + [s[i]];
  }

  lemma {:induction false} TrimSame(s: seq<Extent>, i: nat, k: nat, start: nat, end: nat)
    requires i < |s| && k == i + 1
    ensures |TrimFrom(s, k, start, end)| > i && TrimFrom(s, k, start, end)[i] == s[i]
  {
  }

  lemma {:induction false} TrimNone(s: seq<Extent>, start: nat, end: nat)
    ensures TrimFrom(s, |s|, start, end) == s
  {
  }

  lemma {:induction false} TrimRest(s: seq<Extent>, n: nat, start: nat, end: nat)
    requires Sorted(s) && n <= |s| && (n > 0 ==> End(TrimFrom(s, n, start, end)[n - 1]) <= start)
    ensures Trimmed(s, start, end) == TrimFrom(s, n, start, end)
    ensures n > 0 ==> TrimFrom(s, n, start, end)[n - 1] == s[n - 1]
    ensures n > 0 ==> End(s[0]) <= start
  {
    assert s == s[..n] + s[n..];
    TrimmedConcat(s[..n], s[n..], start, end);
    forall i | 0 <= i < n ensures End(s[i]) <= start {
      if i < n - 1 { assert Precedes(s[i], s[n - 1]); }
    }
    TrimmedSame(s[..n], start, end);
  }

  lemma {:induction false} TrimKeepsFirst(s: seq<Extent>, start: nat, end: nat)
    requires s != [] && (End(s[0]) <= start || end < s[0].lblk)
    ensures Trimmed(s, start, end) != [] && Trimmed(s, start, end)[0] == s[0]
  {
  }

  lemma {:induction false} LeafSorted(cp: Caps, all: seq<Extent>, c: Ctx, t: Tree, counts: seq<nat>, start: nat,
                                      end: nat)
    requires AtLeaf(cp, all, c, t, counts, start, end)
    ensures Sorted(t.exts) && CutAt(t.exts, end + 1)
  {
    var u := LeftExts(c) + t.exts;
    assert all == u + all[|u|..];
    MiddleSorted(LeftExts(c), t.exts, all[|u|..], end + 1);
  }

  lemma {:induction false} MiddleSorted(a: seq<Extent>, m: seq<Extent>, z: seq<Extent>, b: nat)
    requires Sorted(a + m + z) && CutAt(a + m + z, b)
    ensures Sorted(m) && CutAt(m, b)
  {
    var s := a + m + z;
    assert forall i :: 0 <= i < |m| ==> m[i] == s[|a| + i];
  }

  lemma {:induction false} ReprKid(cp: Caps, st: Store, t: Tree, d: nat, i: nat)
    requires Repr(cp, st, t, d) && t.Index? && i < |t.kids|
    ensures d > 0 && Repr(cp, st, t.kids[i].sub, d - 1) && st[t.loc].idxs[i].blk == t.kids[i].sub.loc
    ensures |st[t.loc].idxs| == |t.kids|
  {
  }

  lemma {:induction false} OwnedIsUsed(cp: Caps, used: set<int>, own: multiset<int>, others: set<int>, b: nat)
    requires Accounts(cp, used, own, others) && b in own && b != INODE
    ensures b in used && b > cp.rootIdx
  {
    assert (multiset(used) + multiset{INODE})[b] == (own + multiset(others))[b];
  }

  lemma {:induction false} RouteBack(c: Ctx, hole: nat, s: seq<Extent>, pos: nat, b: nat)
    requires Route(c, b) && Sorted(s) && pos < |s| && KeysOk(c, s[0].lblk) && OrderedC(c, hole) && s[pos].lblk <= b
    ensures Route(c, s[pos].lblk)
  {
    if pos > 0 { assert Precedes(s[0], s[pos]); }
    RouteDown(c, hole, s[0].lblk, b, s[pos].lblk);
  }

  lemma {:induction false} RouteDown(c: Ctx, hole: nat, k: nat, b: nat, b': nat)
    requires Route(c, b) && KeysOk(c, k) && OrderedC(c, hole) && k <= b' <= b
    ensures Route(c, b')
  {
    if c.In? {
      var es := Entries(c.left, c.key, hole, c.right);
      if c.left != [] { assert es[0].key < es[|c.left|].key; }
      RouteDown(c.up, c.loc, if c.left == [] then k else c.left[0].key, b, b');
    }
  }

  lemma {:induction false} AccountsAlloc2(cp: Caps, used: set<int>, own: multiset<int>, more: set<int>,
                                          others: set<int>)
    requires Accounts(cp, used, own + multiset{}, others) && more !! used && forall b :: b in more ==> b > cp.rootIdx
    ensures Accounts(cp, used + more, own + (multiset{} + multiset(more)), others)
  {
    assert own + multiset{} == own && multiset{} + multiset(more) == multiset(more);
    AccountsAlloc(cp, used, own, more, others);
  }

  /** A run of n blocks that the allocator returned can be inserted where the search ended. */
  lemma {:induction false} NewReady(cp: Caps, c: Ctx, t: Tree, b: nat, pos: int, len: nat, n: nat, p: nat,
                                    preIO: bool)
    requires CapsOk(cp) && Searched(cp, c, t, b, pos) && b < EXT_MAX_BLOCKS && b !in BlockMap(All(c, t))
             && ClearOfFirst(All(c, t), b, len)
    requires 1 <= len <= (if preIO then EXT_UNWRITTEN_MAX_LEN else EXT_INIT_MAX_LEN)
    requires 1 <= n <= Wanted(NextAt(c, t, pos), b, len)
    ensures var e := NewExtent(b, n, p, preIO);
            && Good(e) && e.lblk == b && Len(e) == n && e.pblk == p && Unwritten(e) == preIO
            && (Ready(cp, c, t, e, pos) || (c == Top && t == Leaf(INODE, []) && pos == -1))
            && Run(e).Keys !! BlockMap(All(c, t)).Keys
  {
    var e := NewExtent(b, n, p, preIO);
    NextRange(cp, c, t, b, pos);
    NewExtentFacts(b, n, p, preIO);
    NewIsFree(cp, c, t, b, pos, len, e);
    OverlapKeys(All(c, t), e);
  }

  lemma {:induction false} NewIsFree(cp: Caps, c: Ctx, t: Tree, b: nat, pos: int, len: nat, e: Extent)
    requires Searched(cp, c, t, b, pos) && b < EXT_MAX_BLOCKS && b !in BlockMap(All(c, t)) && 1 <= len
             && ClearOfFirst(All(c, t), b, len)
    requires e.lblk == b && Len(e) <= Wanted(NextAt(c, t, pos), b, len) <= EXT_INIT_MAX_LEN
    ensures NoOverlap(All(c, t), e)
  {
    NextRange(cp, c, t, b, pos);
    var w := Extent(b, Wanted(NextAt(c, t, pos), b, len), e.pblk);
    RoomIsFree(cp, c, t, b, pos, len, w);
    ShorterFree(All(c, t), w, e);
  }

  lemma {:induction false} FoundRest(c: Ctx, t: Tree, b: nat, pos: int)
    requires t.Leaf? && 0 <= pos < |t.exts| && t.exts[pos].lblk <= b < End(t.exts[pos])
    ensures RestLen(All(c, t), b, End(t.exts[pos]) - b)
  {
    AllAround(c, t, pos);
    assert All(c, t)[|Before(c, t, pos)|] == t.exts[pos];
  }

  /** What the allocator is asked for is the room up to the next mapped block. */
  lemma {:induction false} RoomIs(cp: Caps, c: Ctx, t: Tree, b: nat, pos: int, len: nat)
    requires Searched(cp, c, t, b, pos) && b < EXT_MAX_BLOCKS && b !in BlockMap(All(c, t)) && 1 <= len
             && ClearOfFirst(All(c, t), b, len)
    ensures Wanted(NextAt(c, t, pos), b, len) >= 1
    ensures RoomLen(BlockMap(All(c, t)), b, len, Wanted(NextAt(c, t, pos), b, len))
  {
    HoleFacts(cp, c, t, b, pos);
    HoleEnd(cp, c, t, b, pos);
    NextRange(cp, c, t, b, pos);
    if pos >= 0 && b < t.exts[pos].lblk {
      AllAround(c, t, pos);
      BeforeFacts(cp, c, t, b, pos);
      AfterFacts(cp, c, t, b, pos);
      assert Before(c, t, pos) == [] && All(c, t)[0] == t.exts[pos];
      if After(c, t, pos) != [] {
        assert Precedes(All(c, t)[0], All(c, t)[1]);
      }
    }
  }

  lemma {:induction false} FoundGood(cp: Caps, c: Ctx, t: Tree, b: nat, pos: int)
    requires Searched(cp, c, t, b, pos) && pos >= 0
    ensures Good(t.exts[pos])
  {
    SettledOrdered(cp, c, t);
  }

  lemma {:induction false} FoundCell(cp: Caps, c: Ctx, t: Tree, b: nat, pos: int, x: nat)
    requires Searched(cp, c, t, b, pos) && pos >= 0 && t.exts[pos].lblk <= b <= x < End(t.exts[pos])
    ensures var ex, s := t.exts[pos], BlockMap(All(c, t));
            x in s && s[x] == Cell(Initialised(ex, b).pblk + (x - b), Unwritten(ex))
  {
    CoveredRun(cp, c, t, b, pos, x - b);
  }

  lemma {:induction false} FoundRun(cp: Caps, c: Ctx, t: Tree, b: nat, pos: int)
    requires Searched(cp, c, t, b, pos) && pos >= 0 && t.exts[pos].lblk <= b < End(t.exts[pos])
    ensures var ex, s := t.exts[pos], BlockMap(All(c, t));
            var e := Initialised(ex, b);
            && Len(e) == End(ex) - b && !Unwritten(e) && b in s && s[b] == Cell(e.pblk, Unwritten(ex))
            && forall x :: x in Run(e) ==> x in s && s[x] == Cell(Run(e)[x].pblk, Unwritten(ex))
  {
    var ex, s := t.exts[pos], BlockMap(All(c, t));
    var e := Initialised(ex, b);
    FoundGood(cp, c, t, b, pos);
    InitialisedRun(ex, b, b);
    FoundCell(cp, c, t, b, pos, b);
    forall x | x in Run(e) ensures x in s && s[x] == Cell(Run(e)[x].pblk, Unwritten(ex)) {
      FoundCell(cp, c, t, b, pos, x);
    }
  }

  /** Once the range is dropped, a new run over it cannot reach a first extent behind it. */
  lemma {:induction false} ClearAfterRemoval(s: seq<Extent>, b: nat, len: nat)
    requires Sorted(s) && len >= 1 && forall x :: x in BlockMap(s) ==> !Inside(x, b, b + len - 1)
    ensures b !in BlockMap(s) && ClearOfFirst(s, b, len)
  {
    assert Inside(b, b, b + len - 1);
    if s != [] {
      assert Good(s[0]);
      BlockMapAt(s, 0, s[0].lblk);
      assert !Inside(s[0].lblk, b, b + len - 1);
    }
  }

  lemma {:induction false} DropRepr(cp: Caps, st: Store, used: set<int>, others: set<int>, c: Ctx, t: Tree, d: nat,
                                    x: multiset<int>)
    requires c.In? && ReprC(cp, st, c, d, t.loc) && Repr(cp, st, t, d)
             && Accounts(cp, used, OwnC(c) + Own(t) + x, others)
    ensures var n := st[c.loc].(idxs := st[c.loc].idxs[..|c.left|] + st[c.loc].idxs[|c.left| + 1..]);
            ReprC(cp, st[c.loc := n], c.up, d + 1, c.loc) && Repr(cp, st[c.loc := n], Index(c.loc, c.left + c.right), d
                + 1)
  {
    var n := st[c.loc].(idxs := st[c.loc].idxs[..|c.left|] + st[c.loc].idxs[|c.left| + 1..]);
    ParentFrame(cp, st, used, others, c, t, d, x, n);
    IdxsConcat(c.left, c.right);
    assert n.idxs == Idxs(c.left + c.right);
    var ks, st' := c.left + c.right, st[c.loc := n];
    forall i | 0 <= i < |ks| ensures Repr(cp, st', ks[i].sub, d) {
      if i < |c.left| { assert ks[i] == c.left[i]; } else { assert ks[i] == c.right[i - |c.left|]; }
    }
  }

  lemma {:induction false} DropOwn(cp: Caps, used: set<int>, others: set<int>, c: Ctx, t: Tree, x: multiset<int>)
    requires c.In? && Own(t) == multiset{t.loc} && Accounts(cp, used, OwnC(c) + Own(t) + x, others) && t.loc != INODE
    ensures t.loc in used && Accounts(cp, used - {t.loc}, Own(Plug(c.up, Index(c.loc, c.left + c.right))) + x, others)
  {
    var n := Index(c.loc, c.left + c.right);
    PlugOwn(c.up, n);
    KidOwnConcat(c.left, c.right);
    assert OwnC(c) + Own(t) + x == Own(Plug(c.up, n)) + x + multiset({t.loc});
    AccountsFree(cp, used, Own(Plug(c.up, n)) + x, {t.loc}, others);
  }

  lemma {:induction false} RestFirst(c: Ctx)
    requires c.In? && c.left == []
    ensures Idxs(c.left + c.right) == Idxs(c.right) && (c.right != [] ==> Idxs(c.right)[0].key == c.right[0].key)
  {
  }

  lemma {:induction false} SplitLeafOwn(c: Ctx, t: Tree, nb: nat, a: seq<Extent>, b: seq<Extent>, x: multiset<int>)
    requires t.Leaf? && t.exts == a + b
    ensures OwnC(c) + Own(t) + (x + multiset{nb}) == OwnC(c) + Own(Leaf(t.loc, a)) + Own(Leaf(nb, b)) + x
    ensures OwnC(c) + Own(t) + (x + multiset{nb}) == OwnC(c) + multiset{t.loc} + (PhysAll(t.exts) + (x + multiset{nb}))
    ensures OwnC(c) + Own(t) + (x + multiset{nb}) == OwnC(c) + multiset{nb} + (Own(t) + x)
  {
    PhysConcat(a, b);
  }

  lemma {:induction false} SplitLeafRepr(cp: Caps, st: Store, used: set<int>, others: set<int>, c: Ctx, t: Tree,
                                         l: Tree, r: Tree, x: multiset<int>)
    requires ReprC(cp, st, c, 0, t.loc) && Repr(cp, st, t, 0) && t.Leaf?
    requires Accounts(cp, used, OwnC(c) + Own(t) + (x + multiset{r.loc}), others)
    requires l.Leaf? && r.Leaf? && l.loc == t.loc && r.loc != INODE && t.exts == l.exts + r.exts
    ensures var st' := st[r.loc := LeafNode(cp.blkLeaf, r.exts)][l.loc := LeafNode(LeafCap(cp, l.loc), l.exts)];
            ReprC(cp, st', c, 0, l.loc) && Repr(cp, st', l, 0) && Repr(cp, st', r, 0)
    ensures Accounts(cp, used, OwnC(c) + Own(l) + Own(r) + x, others)
  {
    SplitLeafOwn(c, t, r.loc, l.exts, r.exts, x);
    Apart(cp, used, OwnC(c), multiset{t.loc}, PhysAll(t.exts) + (x + multiset{r.loc}), others, t.loc);
    Apart(cp, used, OwnC(c), multiset{r.loc}, Own(t) + x, others, r.loc);
    var right := LeafNode(cp.blkLeaf, r.exts);
    ReprCFrame(cp, st, c, 0, t.loc, r.loc, right);
    ReprCFrame(cp, st[r.loc := right], c, 0, t.loc, t.loc, LeafNode(LeafCap(cp, l.loc), l.exts));
  }

  lemma {:induction false} SplitLevelIdxs(c: Ctx, l: Tree, r: Tree, border: nat)
    requires c.In?
    ensures var es := Entries(c.left, c.key, l.loc, c.right);
            && es[..|c.left| + 1] == Entries(c.left, c.key, l.loc, [])
            && [Idx(border, r.loc)] + es[|c.left| + 1..] == Entries([], border, r.loc, c.right)
  {
    assert Idxs([]) == [];
  }

  lemma {:induction false} SplitLevelApart(cp: Caps, used: set<int>, others: set<int>, c: Ctx, l: Tree, r: Tree,
                                           nb: nat, x: multiset<int>)
    requires c.In? && Accounts(cp, used, OwnC(c) + Own(l) + Own(r) + (x + multiset{nb}), others)
    ensures nb != c.loc
    ensures forall b :: b == nb || b == c.loc ==>
              b !in OwnC(c.up) && b !in KidOwn(c.left) && b !in KidOwn(c.right) && b !in Own(l) && b !in Own(r)
  {
    Distinct(cp, used, OwnC(c) + Own(l) + Own(r) + (x + multiset{nb}), others, nb);
    Distinct(cp, used, OwnC(c) + Own(l) + Own(r) + (x + multiset{nb}), others, c.loc);
  }

  /** Every part of a pair other than the cursor's own parent node survives a write at loc. */
  lemma {:induction false} PairFrame(cp: Caps, st: Store, c: Ctx, l: Tree, r: Tree, d: nat, loc: nat, n: Node)
    requires c.In? && ReprC(cp, st, c.up, d + 1, c.loc) && KidsRepr(cp, st, c.left, d) && KidsRepr(cp, st, c.right, d)
    requires Repr(cp, st, l, d) && Repr(cp, st, r, d)
    requires loc !in OwnC(c.up) && loc !in KidOwn(c.left) && loc !in KidOwn(c.right) && loc !in Own(l) && loc !in Own(r)
    ensures ReprC(cp, st[loc := n], c.up, d + 1, c.loc) && KidsRepr(cp, st[loc := n], c.left, d)
            && KidsRepr(cp, st[loc := n], c.right, d)
    ensures Repr(cp, st[loc := n], l, d) && Repr(cp, st[loc := n], r, d)
  {
    ReprCFrame(cp, st, c.up, d + 1, c.loc, loc, n);
    KidsReprFrame(cp, st, c.left, d, loc, n);
    KidsReprFrame(cp, st, c.right, d, loc, n);
    ReprFrame(cp, st, l, d, loc, n);
    ReprFrame(cp, st, r, d, loc, n);
  }

  lemma {:induction false} SplitLevelNodes(cp: Caps, st: Store, c: Ctx, l: Tree, r: Tree, border: nat, nb: nat, d: nat)
    requires c.In? && nb in st && c.loc in st && nb != INODE
    requires st[nb] == IndexNode(d + 1, cp.blkIdx, Entries([], border, r.loc, c.right))
    requires st[c.loc] == IndexNode(d + 1, IdxCap(cp, c.loc), Entries(c.left, c.key, l.loc, []))
    requires KidsRepr(cp, st, c.left, d) && KidsRepr(cp, st, c.right, d) && Repr(cp, st, l, d) && Repr(cp, st, r, d)
    ensures Repr(cp, st, Index(c.loc, c.left + [Kid(c.key, l)]), d + 1)
    ensures Repr(cp, st, Index(nb, [Kid(border, r)] + c.right), d + 1)
  {
    assert c.left + [Kid(c.key, l)] + [] == c.left + [Kid(c.key, l)];
    assert [] + [Kid(border, r)] + c.right == [Kid(border, r)] + c.right;
    ReprNode(cp, st, c.loc, c.left, c.key, l, [], d);
    ReprNode(cp, st, nb, [], border, r, c.right, d);
  }

  lemma {:induction false} SplitLevelRepr(cp: Caps, st: Store, used: set<int>, others: set<int>, c: Ctx, l: Tree,
                                          r: Tree, border: nat, nb: nat, d: nat, x: multiset<int>)
    requires c.In? && ReprC(cp, st, c, d, l.loc) && Repr(cp, st, l, d) && Repr(cp, st, r, d) && nb != INODE
    requires Accounts(cp, used, OwnC(c) + Own(l) + Own(r) + (x + multiset{nb}), others)
    ensures var l', r' := Index(c.loc, c.left + [Kid(c.key, l)]), Index(nb, [Kid(border, r)] + c.right);
            var st' := st[nb := IndexNode(d + 1, cp.blkIdx, Entries([], border, r.loc, c.right))]
                         [c.loc := IndexNode(d + 1, IdxCap(cp, c.loc), Entries(c.left, c.key, l.loc, []))];
            ReprC(cp, st', c.up, d + 1, c.loc) && Repr(cp, st', l', d + 1) && Repr(cp, st', r', d + 1)
  {
    var right := IndexNode(d + 1, cp.blkIdx, Entries([], border, r.loc, c.right));
    var left := IndexNode(d + 1, IdxCap(cp, c.loc), Entries(c.left, c.key, l.loc, []));
    SplitLevelApart(cp, used, others, c, l, r, nb, x);
    PairFrame(cp, st, c, l, r, d, nb, right);
    PairFrame(cp, st[nb := right], c, l, r, d, c.loc, left);
    SplitLevelNodes(cp, st[nb := right][c.loc := left], c, l, r, border, nb, d);
  }

  lemma {:induction false} SplitLevelOwn(c: Ctx, l: Tree, r: Tree, nb: nat, border: nat, x: multiset<int>)
    requires c.In?
    ensures OwnC(c) + Own(l) + Own(r) + (x + multiset{nb})
         == OwnC(c.up) + Own(Index(c.loc, c.left + [Kid(c.key, l)])) + Own(Index(nb, [Kid(border, r)] + c.right)) + x
  {
    KidOwnConcat(c.left, [Kid(c.key, l)]);
    assert [Kid(c.key, l)][1..] == [];
    FrontOwn(border, r, c.right);
  }

  lemma {:induction false} PathLast(c: Ctx)
    requires PathOf(c) != []
    ensures c.In? && var n := |PathOf(c)| - 1; PathOf(c)[n] == Step(c.loc, |c.left|) && PathOf(c)[..n] == PathOf(c.up)
  {
  }

  /** Cutting an extent after block end: the two parts stand for the same blocks. */
  lemma {:induction false} CutKeepsMap(c: Ctx, t: Tree, pos: nat, ex: Extent, split: nat)
    requires Sorted(All(c, t)) && t.Leaf? && pos < |t.exts| && ex == t.exts[pos] && ex.lblk < split < End(ex)
    ensures BlockMap(All(c, t)) + BlockMap(SplitOf(ex, split, Unwritten(ex), Unwritten(ex))) == BlockMap(All(c, t))
    ensures SecondPart(ex, split, Unwritten(ex)).lblk == split
  {
    var s, i := All(c, t), |LeftExts(c)| + pos;
    AllReplace(c, t, pos, ex);
    SplitSame(s, i, split);
    assert Good(s[i]);
    PartFacts(ex, split, Unwritten(ex), Unwritten(ex));
  }

  lemma {:induction false} NextKeySmall(cp: Caps, c: Ctx, t: Tree)
    requires ShapedC(cp, c, 0) && Sorted(All(c, t)) && t.Leaf?
    ensures HasNext(c) ==> NextKey(c) < EXT_MAX_BLOCKS
  {
    RightFirst(cp, c, 0);
    if HasNext(c) {
      assert All(c, t)[|LeftExts(c) + t.exts|] == RightExts(c)[0];
    }
  }

  lemma {:induction false} ConvertReady(cp: Caps, c: Ctx, t: Tree, pos: nat, lblk: nat)
    requires Searched(cp, c, t, lblk, pos) && t.exts[pos].lblk <= lblk < End(t.exts[pos]) && Unwritten(t.exts[pos])
    ensures Settled(cp, c, t) && Route(c, t.exts[pos].lblk)
    ensures BlockMap(All(c, t)) + BlockMap(SplitOf(t.exts[pos], lblk, true, false))
            == BlockMap(All(c, t)) + Run(Initialised(t.exts[pos], lblk))
  {
    SettledOrdered(cp, c, t);
    AllReplace(c, t, pos, t.exts[pos]);
    ConvertMap(All(c, t), |LeftExts(c)| + pos, lblk);
    RouteBack(c, t.loc, t.exts, pos, lblk);
  }

  lemma {:induction false} AloneEntry(c: Ctx, t: Tree, pos: nat, e: Extent)
    requires t.Leaf? && pos < |t.exts|
    ensures Alone(All(c, WithEntry(t, pos, e)), e.lblk, End(e))
  {
    AllReplace(c, t, pos, e);
    assert All(c, WithEntry(t, pos, e))[|LeftExts(c)| + pos] == e;
  }

  lemma {:induction false} CollapseOwn(c: Ctx, t: Tree, x: multiset<int>)
    requires c.In? && c == In(Top, INODE, [], c.key, []) && t.Leaf?
    ensures OwnC(c) + Own(t) + x == Own(Leaf(INODE, t.exts)) + x + multiset({t.loc})
  {
    assert OwnC(c) == multiset{INODE};
  }

  class ExtentTree {
    const cp: Caps
    var store: Store
    var used: set<int>
    var usedBlocks: int
    ghost var tree: Tree
    ghost const others: set<int>
    ghost const reserved: nat

    /** mlfs_ext_tree_init, on a device where others already hold the used blocks. */
    constructor (cp: Caps, used: set<int>, ghost reserved: nat, usedBlocks: int)
      requires CapsOk(cp) && (forall b :: b in used ==> b > cp.rootIdx)
      requires reserved > 0 && usedBlocks == |used| + reserved
      ensures Valid() && Blocks() == map[] && this.used == used && others == used && this.cp == cp
    {
      this.cp, this.used, this.usedBlocks := cp, used, usedBlocks;
      store := map[INODE := LeafNode(cp.rootLeaf, [])];
      tree := Leaf(INODE, []);
      others, this.reserved := used, reserved;
    }

    /** The store represents `tree`, seen from the cursor (c, t); `x` is owned by the
        operation in progress. */
    ghost predicate Focus(c: Ctx, t: Tree, d: nat, x: multiset<int>)
      reads this
    {
      && CapsOk(cp)
      && tree == Plug(c, t)
      && ReprC(cp, store, c, d, t.loc) && Repr(cp, store, t, d)
      && Accounts(cp, used, Own(tree) + x, others)
      && usedBlocks == |used| + reserved && reserved > 0
    }

    ghost predicate Valid()
      reads this
    {
      && INODE in store
      && Focus(Top, tree, NodeDepth(store[INODE]), multiset{})
      && WellFormed(cp, tree, NodeDepth(store[INODE]))
    }

    ghost function Blocks(): map<int, Cell>
      reads this
    {
      BlockMap(Exts(tree))
    }

    lemma {:induction false} Refocus(c: Ctx, t: Tree, d: nat, c': Ctx, t': Tree, d': nat, x: multiset<int>)
      requires Focus(c, t, d, x) && Plug(c', t') == Plug(c, t) && d + Depth(c) == d' + Depth(c')
      ensures Focus(c', t', d', x)
    {
      ReprPlug(cp, store, c, t, d);
      ReprPlug(cp, store, c', t', d');
    }

    /** The same accounts, with the hole's share set apart. */
    lemma {:induction false} OwnApart(c: Ctx, t: Tree, d: nat, x: multiset<int>)
      requires Focus(c, t, d, x)
      ensures Accounts(cp, used, OwnC(c) + Own(t) + x, others)
    {
      PlugOwn(c, t);
    }

    lemma {:induction false} RootDepth(c: Ctx, t: Tree, d: nat, x: multiset<int>)
      requires Focus(c, t, d, x)
      ensures INODE in store && NodeDepth(store[INODE]) == d + Depth(c) && tree.loc == INODE
    {
      ReprPlug(cp, store, c, t, d);
    }

    lemma {:induction false} Done(c: Ctx, t: Tree, d: nat)
      requires Focus(c, t, d, multiset{}) && ShapedC(cp, c, d) && Shaped(cp, t, d) && KeysOk(c, First(t))
      requires Sorted(LeftExts(c) + Exts(t) + RightExts(c))
      ensures Valid() && Exts(tree) == LeftExts(c) + Exts(t) + RightExts(c)
    {
      RootDepth(c, t, d, multiset{});
      Refocus(c, t, d, Top, tree, d + Depth(c), multiset{});
      PlugShaped(cp, c, t, d);
      PlugExts(c, t);
    }

    lemma {:induction false} Close(c: Ctx, t: Tree)
      requires Focus(c, t, 0, multiset{}) && Settled(cp, c, t)
      ensures Valid() && Exts(tree) == All(c, t)
    {
      Done(c, t, 0);
    }

    lemma {:induction false} Unchanged(c: Ctx, t: Tree, b: nat, pos: int)
      requires Focus(c, t, 0, multiset{}) && Searched(cp, c, t, b, pos)
      ensures Valid() && Exts(tree) == All(c, t)
    {
      if t.exts != [] {
        Close(c, t);
      } else {
        assert All(c, t) == Exts(tree);
      }
    }

    /** mlfs_ext_alloc_blocks: some run of free blocks, as long as asked for unless the allocator has
        only `supply` in a row. */
    method AllocRun(count: nat, supply: nat) returns (p: nat, n: nat)
      requires 1 <= count && 1 <= supply && usedBlocks == |used| + reserved
      modifies this`used, this`usedBlocks
      ensures 1 <= n == Least(count, supply) && p > cp.rootIdx && Span(p, n) !! old(used)
      ensures used == old(used) + Span(p, n)
      ensures usedBlocks == |used| + reserved == old(usedBlocks) + n
    {
      n := Least(count, supply);
      assert exists q: nat :: q > cp.rootIdx && Span(q, n) !! used by {
        var q := FreeBlocks.FreeRunExists(used, cp.rootIdx);
        assert Span(q, n) !! used;
      }
      p :| p > cp.rootIdx && Span(p, n) !! used;
      SpanSize(p, n);
      used := used + Span(p, n);
      usedBlocks := usedBlocks + n;
    }

    /** mlfs_free_blocks */
    method FreeRun(p: nat, n: nat)
      requires Span(p, n) <= used && usedBlocks == |used| + reserved && reserved > 0
      modifies this`used, this`usedBlocks
      ensures used == old(used) - Span(p, n)
      ensures usedBlocks == |used| + reserved == old(usedBlocks) - n
    {
      SpanSize(p, n);
      assert used == (used - Span(p, n)) + Span(p, n);
      assert usedBlocks > n;
      used := used - Span(p, n);
      usedBlocks := usedBlocks - n;
    }

    /** mlfs_find_extent.  (c, t) is where the search must end, because every index on the
        way is in order and c is a route for `block`. */
    method FindExtent(block: nat, ghost c: Ctx, ghost t: Tree) returns (path: Path)
      requires ReprC(cp, store, c, 0, t.loc) && Repr(cp, store, t, 0) && t.Leaf? && Sorted(t.exts)
      requires Route(c, block) && OrderedC(c, t.loc)
      ensures PathTo(path, c, t) && LeafAt(t.exts, block, path.leaf.pos)
    {
      ghost var n := 0;
      ZipAtRepr(cp, store, c, t, 0, 0);
      ZipAtPlug(c, t, 0);
      var loc := INODE;
      var i := NodeDepth(store[loc]);
      var levels := [];
      while i > 0
        invariant n <= Depth(c) && i == Depth(c) - n
        invariant loc == ZipAt(c, t, n).1.loc
        invariant levels == PathOf(ZipAt(c, t, n).0)
      {
        ZipAtRepr(cp, store, c, t, 0, n);
        var node := store[loc];
        ghost var l, k, r := ZipAtStep(c, t, n);
        IdxsAround(l, k.key, k.sub, r);
        ZipAtRoute(c, t, n + 1, block);
        assert node.idxs == Entries(l, k.key, k.sub.loc, r);
        var p := BinSearchIdx(node.idxs, block);
        RoutePos(l, k.key, k.sub.loc, r, block, p);
        levels := levels + [Step(loc, p)];
        loc := node.idxs[p].blk;
        i := i - 1;
        n := n + 1;
      }
      var pos := BinSearch(store[loc].exts, block);
      path := Path(levels, Step(loc, pos));
    }

    /** Every block has its place in the tree. */
    lemma {:induction false} Place(b: nat) returns (c: Ctx, t: Tree)
      requires Valid()
      ensures Focus(c, t, 0, multiset{}) && All(c, t) == Exts(tree) && OrderedC(c, t.loc) && Route(c, b)
      ensures t.Leaf? && Sorted(t.exts) && Spot(cp, c, t, b)
    {
      if tree == Leaf(INODE, []) {
        c, t := Top, tree;
        assert All(c, t) == Exts(tree);
      } else {
        c, t := Locate(cp, Top, tree, NodeDepth(store[INODE]), b);
        Refocus(Top, tree, NodeDepth(store[INODE]), c, t, 0, multiset{});
        PlugExts(c, t);
        SettledOrdered(cp, c, t);
      }
    }

    /** mlfs_find_extent from outside: where in the tree block b belongs. */
    method Find(b: nat) returns (path: Path, ghost c: Ctx, ghost t: Tree)
      requires Valid()
      ensures Focus(c, t, 0, multiset{}) && PathTo(path, c, t) && Searched(cp, c, t, b, path.leaf.pos)
      ensures All(c, t) == Exts(tree)
    {
      c, t := Place(b);
      path := FindExtent(b, c, t);
    }

    // ---------- Leaf level ----------

    /** Replace the extents of the leaf under the cursor. */
    method WriteLeaf(s': seq<Extent>, loc: nat, ghost c: Ctx, ghost s: seq<Extent>, ghost x: multiset<int>,
                     ghost x': multiset<int>)
      requires Focus(c, Leaf(loc, s), 0, x) && PhysAll(s') + x' == PhysAll(s) + x
      modifies this`store, this`tree
      ensures Focus(c, Leaf(loc, s'), 0, x')
      ensures store == old(store)[loc := old(store)[loc].(exts := s')]
    {
      WriteLeafRepr(cp, store, used, others, loc, c, s, s', x);
      WriteLeafOwn(cp, used, others, loc, c, s, s', x, x');
      store := store[loc := store[loc].(exts := s')];
      tree := Plug(c, Leaf(loc, s'));
    }

    /** One turn of the loop: s' is s with some extents joined already, and one more is. */
    method MergeOnce(loc: nat, pos: nat, ghost c: Ctx, ghost s: seq<Extent>, ghost s': seq<Extent>, ghost k: nat,
                     ghost x: multiset<int>)
      returns (ghost m: seq<Extent>, ghost k': nat)
      requires Focus(c, Leaf(loc, s'), 0, x) && SameRun(s, s') && Joins(s, s', pos, k) && !Stops(s', pos)
      modifies this`store, this`tree
      ensures Focus(c, Leaf(loc, m), 0, x) && SameRun(s, m) && Joins(s, m, pos, k') && |m| < |s'|
    {
      MergeAtFacts(s', pos);
      JoinsNext(s, s', pos, k);
      WriteLeaf(MergeAt(store[loc].exts, pos), loc, c, s', x, x);
      m, k' := MergeAt(s', pos), k + 1;
    }

    /** mlfs_ext_try_to_merge_right */
    method MergeRight(loc: nat, pos: nat, ghost c: Ctx, ghost s: seq<Extent>, ghost x: multiset<int>)
      returns (done: bool, ghost s': seq<Extent>, ghost k: nat)
      requires Focus(c, Leaf(loc, s), 0, x) && Sorted(s) && pos < |s|
      modifies this`store, this`tree
      ensures Focus(c, Leaf(loc, s'), 0, x) && SameRun(s, s')
      ensures Joins(s, s', pos, k) && Stops(s', pos) && done == !Stops(s, pos) && (!done ==> s' == s)
    {
      s', k, done := s, pos + 1, false;
      while pos + 1 < |store[loc].exts| && CanMerge(store[loc].exts[pos], store[loc].exts[pos + 1])
        invariant Focus(c, Leaf(loc, s'), 0, x) && SameRun(s, s') && Joins(s, s', pos, k)
        invariant if done then !Stops(s, pos) else s' == s
        decreases |s'|
      {
        s', k := MergeOnce(loc, pos, c, s, s', k, x);
        done := true;
      }
    }

    /** mlfs_ext_try_to_merge_up: a single small leaf moves back into the inode. */
    method MergeUp(path: Path, ghost c: Ctx, ghost t: Tree, ghost x: multiset<int>)
      returns (path': Path, ghost c': Ctx, ghost t': Tree)
      requires Focus(c, t, 0, x) && t.Leaf? && PathTo(path, c, t)
      modifies this
      ensures Focus(c', t', 0, x) && PathTo(path', c', t') && path'.leaf.pos == path.leaf.pos
      ensures if Collapsible(cp, c, t) then c' == Top && t' == Leaf(INODE, t.exts) && used == old(used) - {t.loc}
              else (c', t') == (c, t) && used == old(used)
    {
      path', c', t' := path, c, t;
      RootDepth(c, t, 0, x);
      PathLen(c);
      if |path.levels| != 1 { return; }
      assert ReprC(cp, store, c.up, 1, c.loc);
      assert c.In? && c.up.Top? && c.loc == INODE;
      if |store[INODE].idxs| != 1 || |store[path.leaf.loc].exts| > cp.rootLeaf { return; }
      assert c.left == [] && c.right == [];
      var blk := store[INODE].idxs[path.levels[0].pos].blk;
      assert blk == t.loc;
      OwnApart(c, t, 0, x);
      CollapseOwn(c, t, x);
      Distinct(cp, used, OwnC(c) + Own(t) + x, others, INODE);
      AccountsFree(cp, used, Own(Leaf(INODE, t.exts)) + x, {blk}, others);
      store := store[INODE := LeafNode(cp.rootLeaf, store[path.leaf.loc].exts)];
      assert Span(blk, 1) == {blk};
      FreeRun(blk, 1);
      path' := Path([], Step(INODE, path.leaf.pos));
      c', t' := Top, Leaf(INODE, t.exts);
      tree := t';
    }

    /** mlfs_ext_try_to_merge */
    method TryToMerge(path: Path, pos: nat, ghost c: Ctx, ghost t: Tree, ghost x: multiset<int>)
      returns (path': Path, ghost c': Ctx, ghost t': Tree, ghost i: nat, ghost k: nat)
      requires Focus(c, t, 0, x) && t.Leaf? && PathTo(path, c, t) && Sorted(t.exts) && pos < |t.exts|
      modifies this
      ensures PathTo(path', c', t') && path'.leaf.pos == path.leaf.pos && used <= old(used)
      ensures Focus(c', t', 0, x) && t'.Leaf? && SameRun(t.exts, t'.exts) && MergedAround(t.exts, t'.exts, pos, i, k)
      ensures if Collapsible(cp, c, Leaf(t.loc, t'.exts)) then c' == Top && t'.loc == INODE
              else c' == c && t'.loc == t.loc
    {
      var loc := path.leaf.loc;
      var done := false;
      ghost var s;
      if pos > 0 {
        done, s, k := MergeRight(loc, pos - 1, c, t.exts, x);
      }
      i := if done then pos - 1 else pos;
      if !done {
        var _, s', k' := MergeRight(loc, pos, c, t.exts, x);
        s, k := s', k';
      }
      path', c', t' := MergeUp(path, c, Leaf(loc, s), x);
    }

    // ---------- Index level ----------

    /** Overwrite the key of the entry that leads to the hole. */
    method WriteKey(border: nat, loc: nat, pos: nat, ghost c: Ctx, ghost t: Tree, ghost d: nat, ghost x: multiset<int>)
      requires Focus(c, t, d, x) && c.In? && loc == c.loc && pos == |c.left|
      modifies this`store, this`tree
      ensures Focus(c.(key := border), t, d, x)
    {
      var node := store[loc];
      OwnApart(c, t, d, x);
      WriteKeyRepr(cp, store, used, others, c, t, d, x, border);
      store := store[loc := node.(idxs := node.idxs[pos := node.idxs[pos].(key := border)])];
      tree := Plug(c.(key := border), t);
      SameOwn(c, border, t);
    }

    /** One level of key correction; the cursor moves up to the rewritten node. */
    method CorrectLevel(border: nat, step: Step, ghost c: Ctx, ghost t: Tree, ghost d: nat, ghost x: multiset<int>)
      returns (ghost n: Tree)
      requires Focus(c, t, d, x) && c.In? && step == Step(c.loc, |c.left|)
      modifies this`store, this`tree
      ensures n == Index(c.loc, c.left + [Kid(border, t)] + c.right) && Focus(c.up, n, d + 1, x)
    {
      WriteKey(border, step.loc, step.pos, c, t, d, x);
      n := Index(c.loc, c.left + [Kid(border, t)] + c.right);
      Refocus(c.(key := border), t, d, c.up, n, d + 1, x);
    }

    method FixTurn(step: Step, border: nat, ghost c: Ctx, ghost t: Tree, ghost d: nat, ghost d': nat, ghost w: Tree,
                   ghost x: multiset<int>)
      returns (more: bool, ghost n: Tree)
      requires Focus(c, t, d, x) && c.In? && step == Step(c.loc, |c.left|) && w == Plug(FixKeys(c, border), t)
      requires d' == d + 1
      modifies this`store, this`tree
      ensures Focus(c.up, n, d', x) && w == Plug(if more then FixKeys(c.up, border) else c.up, n)
    {
      n := CorrectLevel(border, step, c, t, d, x);
      more := step.pos == 0;
    }

    /** Set the key of the entry leading to the hole, and of every entry above for as long as
        the path goes through first entries. */
    method FixUp(path: seq<Step>, border: nat, ghost c: Ctx, ghost t: Tree, ghost d: nat, ghost x: multiset<int>)
      requires Focus(c, t, d, x) && path == PathOf(c)
      modifies this`store, this`tree
      ensures Focus(FixKeys(c, border), t, d, x)
    {
      var levels, more := path, true;
      ghost var cur, sub, h: nat := c, t, d;
      ghost var w := Plug(FixKeys(c, border), t);
      while levels != [] && more
        invariant levels == PathOf(cur) && h + Depth(cur) == d + Depth(c)
        invariant Focus(cur, sub, h, x) && w == Plug(if more then FixKeys(cur, border) else cur, sub)
        decreases |levels|
      {
        PathLast(cur);
        ghost var up: nat := h + 1;
        more, sub := FixTurn(levels[|levels| - 1], border, cur, sub, h, up, w, x);
        cur, h := cur.up, up;
        levels := levels[..|levels| - 1];
      }
      PathLen(cur);
      FixKeysDepth(c, border);
      Refocus(cur, sub, h, FixKeys(c, border), t, d, x);
    }

    /** mlfs_ext_correct_indexes */
    method CorrectIndexes(path: Path, ghost c: Ctx, ghost t: Tree, ghost x: multiset<int>)
      returns (ghost c': Ctx)
      requires Focus(c, t, 0, x) && t.Leaf? && t.exts != [] && PathTo(path, c, t)
      requires path.leaf.pos == 0 || KeysOk(c, First(t))
      modifies this`store, this`tree
      ensures c' == FixKeys(c, First(t)) && Focus(c', t, 0, x)
    {
      c' := FixKeys(c, First(t));
      if path.levels == [] || path.leaf.pos != 0 {
        PathLen(c);
        if path.levels != [] { FixKeysSame(c, First(t)); }
        return;
      }
      FixUp(path.levels, store[path.leaf.loc].exts[0].lblk, c, t, 0, x);
    }

    // ---------- Splitting and growing ----------

    /** mlfs_ext_insert_index: the error checks, then the shifted insertion. */
    method InsertIndex(step: Step, logical: nat, ptr: nat) returns (ok: bool)
      requires step.loc in store && store[step.loc].IndexNode? && 0 <= step.pos < |store[step.loc].idxs|
      modifies this`store
      ensures var n := old(store)[step.loc];
              && ok == (n.idxs[step.pos].key != logical && |n.idxs| < n.max)
              && var p := if logical > n.idxs[step.pos].key then step.pos + 1 else step.pos;
                 store == if ok then old(store)[step.loc := n.(idxs := n.idxs[..p] + [Idx(logical, ptr)] + n.idxs[p..])]
                          else old(store)
    {
      var node := store[step.loc];
      if logical == node.idxs[step.pos].key || |node.idxs| >= node.max { return false; }
      var p := if logical > node.idxs[step.pos].key then step.pos + 1 else step.pos;
      store := store[step.loc := node.(idxs := node.idxs[..p] + [Idx(logical, ptr)] + node.idxs[p..])];
      ok := true;
    }

    /** A split in progress: l under the cursor, r not yet linked in, `spare` still unused. */
    ghost predicate Pair(c: Ctx, l: Tree, r: Tree, d: nat, spare: seq<nat>, x: multiset<int>)
      reads this
    {
      && CapsOk(cp) && INODE !in spare
      && ReprC(cp, store, c, d, l.loc) && Repr(cp, store, l, d) && Repr(cp, store, r, d)
      && Accounts(cp, used, OwnC(c) + Own(l) + Own(r) + (x + multiset(spare)), others)
      && usedBlocks == |used| + reserved && reserved > 0
    }

    /** mlfs_ext_new_meta_block */
    method AllocMeta(ghost spare: seq<nat>, ghost c: Ctx, ghost t: Tree, ghost x: multiset<int>) returns (b: nat)
      requires Focus(c, t, 0, x + multiset(spare))
      modifies this`used, this`usedBlocks
      ensures Focus(c, t, 0, x + multiset(spare + [b])) && b != INODE
    {
      var n;
      b, n := AllocRun(1, 1);
      assert Span(b, 1) == {b};
      AccountsAlloc(cp, used - {b}, Own(tree) + (x + multiset(spare)), {b}, others);
      assert Own(tree) + (x + multiset(spare)) + multiset({b}) == Own(tree) + (x + multiset(spare + [b]));
      assert used - {b} + {b} == used;
    }

    /** One block for each index level to be split, and a last one for the new leaf. */
    method AllocMetas(count: nat, ghost c: Ctx, ghost t: Tree, ghost x: multiset<int>) returns (blocks: seq<nat>,
                      last: nat)
      requires Focus(c, t, 0, x)
      modifies this`used, this`usedBlocks
      ensures Focus(c, t, 0, x + multiset(blocks + [last]))
      ensures |blocks| == count && INODE !in blocks && last != INODE
    {
      blocks := [];
      assert x + multiset(blocks) == x;
      while |blocks| < count
        invariant |blocks| <= count && INODE !in blocks
        invariant Focus(c, t, 0, x + multiset(blocks))
      {
        var b := AllocMeta(blocks, c, t, x);
        blocks := blocks + [b];
      }
      last := AllocMeta(blocks, c, t, x);
    }

    /** The leaf step of mlfs_ext_split: extents after `pos` move to the new leaf. */
    method SplitLeaf(step: Step, nb: nat, ghost spare: seq<nat>, ghost c: Ctx, ghost t: Tree, ghost x: multiset<int>)
      returns (ghost l: Tree, ghost r: Tree)
      requires Focus(c, t, 0, x + multiset(spare + [nb])) && t.Leaf? && INODE !in spare && nb != INODE
      requires step.loc == t.loc && 0 <= step.pos < |t.exts|
      modifies this`store
      ensures l == LeftHalf(t, step.pos) && r == RightHalf(t, step.pos, nb)
      ensures Pair(c, l, r, 0, spare, x)
    {
      var node := store[step.loc];
      l, r := LeftHalf(t, step.pos), RightHalf(t, step.pos, nb);
      OwnApart(c, t, 0, x + multiset(spare + [nb]));
      assert x + multiset(spare + [nb]) == x + multiset(spare) + multiset{nb};
      SplitLeafRepr(cp, store, used, others, c, t, l, r, x + multiset(spare));
      store := store[nb := LeafNode(cp.blkLeaf, node.exts[step.pos + 1..])];
      store := store[step.loc := node.(exts := node.exts[..step.pos + 1])];
    }

    /** One full index level of mlfs_ext_split. */
    method SplitLevel(step: Step, border: nat, rloc: nat, nb: nat, ghost spare: seq<nat>, ghost c: Ctx, ghost l: Tree,
                      ghost r: Tree, ghost d: nat, ghost x: multiset<int>)
      returns (ghost l': Tree, ghost r': Tree)
      requires Pair(c, l, r, d, spare + [nb], x) && c.In? && step == Step(c.loc, |c.left|) && rloc == r.loc
      modifies this`store
      ensures l' == Index(c.loc, c.left + [Kid(c.key, l)]) && r' == Index(nb, [Kid(border, r)] + c.right)
      ensures Pair(c.up, l', r', d + 1, spare, x)
    {
      var node := store[step.loc];
      l', r' := Index(c.loc, c.left + [Kid(c.key, l)]), Index(nb, [Kid(border, r)] + c.right);
      SpareApart(x, spare, nb);
      SplitLevelIdxs(c, l, r, border);
      SplitLevelOwn(c, l, r, nb, border, x + multiset(spare));
      SplitLevelRepr(cp, store, used, others, c, l, r, border, nb, d, x + multiset(spare));
      store := store[nb := IndexNode(node.depth, cp.blkIdx, [Idx(border, rloc)] + node.idxs[step.pos + 1..])];
      store := store[step.loc := node.(idxs := node.idxs[..step.pos + 1])];
    }

    /** The last step of mlfs_ext_split: enter the new subtree after the hole. */
    method LinkRight(step: Step, border: nat, rloc: nat, ghost c: Ctx, ghost l: Tree, ghost r: Tree, ghost d: nat,
                     ghost x: multiset<int>)
      requires Pair(c, l, r, d, [], x) && c.In? && !Full(cp, c) && step == Step(c.loc, |c.left|) && rloc == r.loc
               && c.key < border
      modifies this`store, this`tree
      ensures Focus(c.(right := [Kid(border, r)] + c.right), l, d, x)
    {
      LinkIdxs(c, l, r, border);
      NoSpare(x);
      LinkRepr(cp, store, used, others, c, l, r, border, d, x);
      LinkOwn(c, l, r, border, x);
      var ok := InsertIndex(step, border, rloc);
      assert ok;
      tree := Plug(c.(right := [Kid(border, r)] + c.right), l);
    }

    /** The index levels of mlfs_ext_split: full nodes give up their right part to a new
        node each, then the first node with a free entry takes the new subtree. */
    method SplitUp(levels: seq<Step>, border: nat, blocks: seq<nat>, rloc: nat, ghost c: Ctx, ghost l: Tree,
                   ghost r: Tree, ghost x: multiset<int>)
      requires Pair(c, l, r, 0, blocks, x) && r.loc == rloc
      requires CanSplit(cp, c) && FullLevels(cp, c) == |blocks|
      requires levels == PathOf(c) && PathBelow(c, border)
      modifies this`store, this`tree
      ensures |Rev(blocks)| == |blocks| && Focus(SplitLeft(cp, c, border, r, Rev(blocks)), l, 0, x)
    {
      var newblock, left, up := rloc, blocks, levels;
      ghost var cur, tl, tr, d := c, l, r, 0;
      RevFacts(blocks);
      while left != []
        invariant up == PathOf(cur) && d + Depth(cur) == Depth(c)
        invariant Pair(cur, tl, tr, d, left, x) && tr.loc == newblock
        invariant CanSplit(cp, cur) && FullLevels(cp, cur) == |left| == |Rev(left)| && PathBelow(cur, border)
        invariant Plug(SplitLeft(cp, cur, border, tr, Rev(left)), tl)
                  == Plug(SplitLeft(cp, c, border, r, Rev(blocks)), l)
        decreases |left|
      {
        var nb, rest := left[|left| - 1], left[..|left| - 1];
        PathLast(cur);
        assert left == rest + [nb];
        SplitUpStep(cp, cur, tl, tr, border, rest, nb);
        ghost var tl', tr' := SplitLevel(up[|up| - 1], border, newblock, nb, rest, cur, tl, tr, d, x);
        cur, tl, tr, d := cur.up, tl', tr', d + 1;
        newblock, left, up := nb, rest, up[..|up| - 1];
      }
      PathLast(cur);
      LinkRight(up[|up| - 1], border, newblock, cur, tl, tr, d, x);
      SplitDepth(cp, c, border, r, Rev(blocks));
      Refocus(cur.(right := [Kid(border, tr)] + cur.right), tl, d, SplitLeft(cp, c, border, r, Rev(blocks)), l, 0, x);
    }

    /** mlfs_ext_split: a new leaf right after the current one, under the first index node
        with a free entry, which is `count` levels above the leaf. */
    method Split(path: Path, count: nat, e: Extent, ghost c: Ctx, ghost t: Tree, ghost x: multiset<int>)
      returns (ghost news: seq<nat>, nb: nat)
      requires Focus(c, t, 0, x) && t.Leaf? && PathTo(path, c, t) && 0 <= path.leaf.pos < |t.exts|
      requires CanSplit(cp, c) && FullLevels(cp, c) + 1 == count
      requires PathBelow(c, Border(t.exts, path.leaf.pos, e))
      modifies this
      ensures |news| == FullLevels(cp, c) && INODE !in news && nb != INODE
      ensures Focus(SplitLeft(cp, c, Border(t.exts, path.leaf.pos, e), RightHalf(t, path.leaf.pos, nb), news),
              LeftHalf(t, path.leaf.pos), 0, x)
    {
      var border := Border(store[path.leaf.loc].exts, path.leaf.pos, e);
      var rest;
      rest, nb := AllocMetas(count - 1, c, t, x);
      news := Rev(rest);
      RevFacts(rest);
      ghost var l, r := SplitLeaf(path.leaf, nb, rest, c, t, x);
      SplitUp(path.levels, border, rest, nb, c, l, r, x);
    }

    /** mlfs_ext_grow_indepth: the root's content moves to a new block below a new root. */
    method GrowInDepth(ghost c: Ctx, ghost t: Tree, ghost x: multiset<int>) returns (nb: nat)
      requires Focus(c, t, 0, x) && t.Leaf? && t.exts != [] && KeysOk(c, First(t))
      modifies this
      ensures nb != INODE && Focus(GrowC(c, nb, First(t)), GrowT(c, t, nb), 0, x)
    {
      assert x + multiset([]) == x;
      nb := AllocMeta([], c, t, x);
      assert x + multiset([] + [nb]) == x + multiset{nb};
      RootDepth(c, t, 0, x + multiset{nb});
      ReprPlug(cp, store, c, t, 0);
      RootEntries(c, t);
      GrowRepr(cp, store, used, others, tree, Depth(c), nb, x);
      GrowOwn(tree, nb, x);
      GrowPlug(c, t, nb);
      var root := store[INODE];
      var key := if root.LeafNode? then root.exts[0].lblk else root.idxs[0].key;
      store := store[nb := InBlock(cp, root)];
      store := store[INODE := IndexNode(NodeDepth(root) + 1, cp.rootIdx, [Idx(key, nb)])];
      tree := Index(INODE, [Kid(First(tree), Relocated(tree, nb))]);
      ReprPlug(cp, store, GrowC(c, nb, First(t)), GrowT(c, t, nb), 0);
    }

    /** The upward scan of mlfs_ext_create_new_leaf for a node with a free entry. */
    method FindFree(path: Path, ghost c: Ctx, ghost t: Tree) returns (found: bool, count: nat)
      requires ReprC(cp, store, c, 0, t.loc) && PathTo(path, c, t)
      ensures found == CanSplit(cp, c) && (found ==> count == FullLevels(cp, c) + 1)
    {
      var levels := path.levels;
      ghost var cur, d, hole := c, 0, t.loc;
      count, found := 0, false;
      while levels != [] && !found
        invariant levels == PathOf(cur) && ReprC(cp, store, cur, d, hole)
        invariant !found ==> CanSplit(cp, c) == CanSplit(cp, cur) && FullLevels(cp, c) == count + FullLevels(cp, cur)
        invariant found ==> CanSplit(cp, c) && count == FullLevels(cp, c) + 1
        decreases |levels|, !found
      {
        PathLast(cur);
        var node := store[levels[|levels| - 1].loc];
        if |node.idxs| < node.max { found := true; }
        count := count + 1;
        levels := levels[..|levels| - 1];
        hole, d, cur := cur.loc, d + 1, cur.up;
      }
      if !found { PathLen(cur); }
    }

    /** mlfs_ext_create_new_leaf: ends with room for e, after growing at most once. */
    method CreateNewLeaf(path0: Path, e: Extent, ghost c0: Ctx, ghost t0: Tree, ghost x: multiset<int>)
      returns (path: Path, ghost c: Ctx, ghost t: Tree)
      requires Focus(c0, t0, 0, x) && PathTo(path0, c0, t0)
      requires Ready(cp, c0, t0, e, path0.leaf.pos) && |t0.exts| == LeafCap(cp, t0.loc)
      modifies this
      ensures Focus(c, t, 0, x) && PathTo(path, c, t)
      ensures Roomy(cp, c, t, e, path.leaf.pos) && All(c, t) == All(c0, t0)
      ensures Depth(c) == Depth(c0) + if CanSplit(cp, c0) then 0 else 1
    {
      path, c, t := path0, c0, t0;
      while |store[path.leaf.loc].exts| == store[path.leaf.loc].max
        invariant Focus(c, t, 0, x) && PathTo(path, c, t) && All(c, t) == All(c0, t0) && t.Leaf?
        invariant Ready(cp, c, t, e, path.leaf.pos)
        invariant (c == c0 && t == t0) || (Depth(c) == Depth(c0) + 1 && CanSplit(cp, c) && !CanSplit(cp, c0))
        decreases !CanSplit(cp, c)
      {
        var found, count := FindFree(path, c, t);
        if found {
          path, c, t := SplitAndFind(path, count, e, c, t, x);
          return;
        }
        ghost var c1, t1 := c, t;
        var nb := GrowInDepth(c1, t1, x);
        c, t := GrowC(c1, nb, First(t1)), GrowT(c1, t1, nb);
        AfterGrow(cp, c1, t1, e, path.leaf.pos, nb);
        ReadyOrdered(cp, c, t, e, path.leaf.pos);
        AllParts(c, t);
        path := FindExtent(e.lblk, c, t);
        GrowPlug(c1, t1, nb);
      }
      ReadyRoomy(cp, c, t, e, path.leaf.pos);
    }

    /** Split under the node that FindFree found, and search again. */
    method SplitAndFind(path0: Path, count: nat, e: Extent, ghost c0: Ctx, ghost t0: Tree, ghost x: multiset<int>)
      returns (path: Path, ghost c: Ctx, ghost t: Tree)
      requires Focus(c0, t0, 0, x) && PathTo(path0, c0, t0)
      requires Ready(cp, c0, t0, e, path0.leaf.pos) && |t0.exts| == LeafCap(cp, t0.loc)
      requires CanSplit(cp, c0) && count == FullLevels(cp, c0) + 1
      modifies this
      ensures Focus(c, t, 0, x) && PathTo(path, c, t)
      ensures Roomy(cp, c, t, e, path.leaf.pos) && All(c, t) == All(c0, t0) && Depth(c) == Depth(c0)
    {
      ghost var pos := path0.leaf.pos;
      BelowRoot(c0, t0, 0, x);
      ReadyOrdered(cp, c0, t0, e, pos);
      BorderAbove(cp, c0, t0, e, pos);
      PathKeysBelow(c0, First(t0), t0.loc, Border(t0.exts, pos, e));
      ghost var news;
      var nb;
      news, nb := Split(path0, count, e, c0, t0, x);
      c, t := AfterSplit(cp, c0, t0, e, pos, nb, news);
      SplitDepth(cp, c0, Border(t0.exts, pos, e), RightHalf(t0, pos, nb), news);
      Refocus(SplitLeft(cp, c0, Border(t0.exts, pos, e), RightHalf(t0, pos, nb), news), LeftHalf(t0, pos), 0, c, t, 0,
          x);
      AllParts(c, t);
      path := FindExtent(e.lblk, c, t);
    }

    /** A leaf below an index node is not in the inode. */
    lemma {:induction false} BelowRoot(c: Ctx, t: Tree, d: nat, x: multiset<int>)
      requires Focus(c, t, d, x) && c.In?
      ensures t.loc != INODE
    {
      OwnApart(c, t, d, x);
      RootOwned(cp, store, c, d, t.loc);
      Distinct(cp, used, OwnC(c) + Own(t) + x, others, INODE);
    }

    lemma {:induction false} RootEntries(c: Ctx, t: Tree)
      requires KeysOk(c, First(t)) && t.Leaf? && t.exts != [] && tree == Plug(c, t)
      ensures match tree case Leaf(_, exts) => exts != [] case Index(_, kids) => kids != []
    {
      RootNonEmpty(c, t);
    }

    // ---------- Insertion ----------

    /** mlfs_ext_next_leaf_block */
    method NextLeafBlock(path: Path, ghost c: Ctx, ghost t: Tree) returns (lb: nat)
      requires ReprC(cp, store, c, 0, t.loc) && PathTo(path, c, t)
      ensures lb == if HasNext(c) then NextKey(c) else EXT_MAX_BLOCKS
    {
      var levels := path.levels;
      ghost var cur, d, hole := c, 0, t.loc;
      while levels != []
        invariant levels == PathOf(cur) && ReprC(cp, store, cur, d, hole)
        invariant HasNext(c) == HasNext(cur) && (HasNext(c) ==> NextKey(c) == NextKey(cur))
        decreases |levels|
      {
        PathLast(cur);
        var step := levels[|levels| - 1];
        var node := store[step.loc];
        if step.pos != |node.idxs| - 1 { return node.idxs[step.pos + 1].key; }
        levels := levels[..|levels| - 1];
        hole, d, cur := cur.loc, d + 1, cur.up;
      }
      PathLen(cur);
      lb := EXT_MAX_BLOCKS;
    }

    /** "Try to append newex to the ex" and "Try to prepend newex to the ex". */
    method TryExtend(path: Path, e: Extent, ghost c: Ctx, ghost t: Tree, ghost x: multiset<int>)
      returns (done: bool, near: nat, ghost t': Tree)
      requires Focus(c, t, 0, x + Phys(e)) && PathTo(path, c, t) && Ready(cp, c, t, e, path.leaf.pos)
      modifies this`store, this`tree
      ensures done == Extends(t.exts, path.leaf.pos, e) && used == old(used)
      ensures !done ==> t' == t && Focus(c, t, 0, x + Phys(e))
      ensures done ==> Grown(path, near, c, t, t', e) && |t'.exts| == |t.exts| && Focus(c, t', 0, x)
    {
      done, near, t' := false, 0, t;
      var loc, pos := path.leaf.loc, path.leaf.pos;
      var exts := store[loc].exts;
      var i, append := pos, true;
      if pos < |exts| - 1 && End(exts[pos]) < e.lblk {
        i, append := pos + 1, false;
      } else if pos > 0 && End(e) < exts[pos].lblk {
        i := pos - 1;
      }
      if append && CanMerge(exts[i], e) {
        t' := AppendAt(path, i, e, c, t, x);
        done, near := true, i;
      } else if CanMerge(e, exts[i]) {
        t' := PrependAt(path, i, e, c, t, x);
        done, near := true, i;
      }
    }

    method AppendAt(path: Path, i: nat, e: Extent, ghost c: Ctx, ghost t: Tree, ghost x: multiset<int>)
      returns (ghost t': Tree)
      requires Focus(c, t, 0, x + Phys(e)) && PathTo(path, c, t) && Ready(cp, c, t, e, path.leaf.pos)
      requires i < |t.exts| && CanMerge(t.exts[i], e)
      modifies this`store, this`tree
      ensures Grown(path, i, c, t, t', e) && |t'.exts| == |t.exts| && Focus(c, t', 0, x)
    {
      var exts := store[path.leaf.loc].exts;
      AppendGrown(cp, path, c, t, e, i);
      WriteLeaf(exts[i := Merged(exts[i], e)], path.leaf.loc, c, t.exts, x + Phys(e), x);
      t' := Leaf(t.loc, t.exts[i := Merged(t.exts[i], e)]);
    }

    method PrependAt(path: Path, i: nat, e: Extent, ghost c: Ctx, ghost t: Tree, ghost x: multiset<int>)
      returns (ghost t': Tree)
      requires Focus(c, t, 0, x + Phys(e)) && PathTo(path, c, t) && Ready(cp, c, t, e, path.leaf.pos)
      requires i < |t.exts| && CanMerge(e, t.exts[i])
      modifies this`store, this`tree
      ensures Grown(path, i, c, t, t', e) && |t'.exts| == |t.exts| && Focus(c, t', 0, x)
    {
      var exts := store[path.leaf.loc].exts;
      var grown := WithLen(exts[i].(lblk := e.lblk, pblk := e.pblk), Len(exts[i]) + Len(e), Unwritten(exts[i]));
      PrependGrown(cp, path, c, t, e, i, grown);
      WriteLeaf(exts[i := grown], path.leaf.loc, c, t.exts, x + Phys(e), x);
      t' := Leaf(t.loc, t.exts[i := grown]);
    }

    /** From label has_space on: shift the tail of the leaf and store e. */
    method InsertHere(path: Path, e: Extent, ghost c: Ctx, ghost t: Tree, ghost x: multiset<int>)
      returns (path': Path, ghost t': Tree)
      requires Focus(c, t, 0, x + Phys(e)) && PathTo(path, c, t) && Roomy(cp, c, t, e, path.leaf.pos)
      modifies this`store, this`tree
      ensures PathTo(path', c, t') && Focus(c, t', 0, x) && t' == WithExtent(t, path.leaf.pos, e)
      ensures 0 <= path'.leaf.pos < |t'.exts| && Grown(path', path'.leaf.pos, c, t, t', e)
    {
      var loc, exts := path.leaf.loc, store[path.leaf.loc].exts;
      var near := NearPos(exts, path.leaf.pos, e);
      HereGrown(cp, c, t, e, path.leaf.pos);
      WriteLeaf(Inserted(exts, near, e), loc, c, t.exts, x + Phys(e), x);
      path' := path.(leaf := Step(loc, near));
      t' := WithExtent(t, path.leaf.pos, e);
    }

    /** From label merge on: merge with the neighbours, then correct the keys above. */
    method FinishInsert(path: Path, near: nat, preIO: bool, ghost c: Ctx, ghost t: Tree, ghost k0: nat,
                        ghost e: Extent, ghost x: multiset<int>)
      returns (ghost c': Ctx, ghost t': Tree)
      requires Focus(c, t, 0, x) && PathTo(path, c, t) && t.Leaf? && near < |t.exts| <= LeafCap(cp, t.loc)
      requires Sorted(t.exts) && Sorted(All(c, t)) && ShapedC(cp, c, 0) && KeysOk(c, k0)
      requires path.leaf.pos == 0 || KeysOk(c, First(t))
      requires Within(e, t.exts[near])
      modifies this
      ensures Focus(c', t', 0, x) && Settled(cp, c', t') && BlockMap(All(c', t')) == BlockMap(All(c, t))
      ensures preIO ==> t' == t && c' == FixKeys(c, First(t))
      ensures !preIO ==> Joined(t'.exts, e.lblk, End(e)) && !Collapsible(cp, c', t')
      ensures used <= old(used)
    {
      var path';
      ghost var c1;
      if preIO {
        path', c1, t' := path, c, t;
      } else {
        ghost var i, k;
        path', c1, t', i, k := TryToMerge(path, near, c, t, x);
        MergeJoins(t.exts, t'.exts, near, i, k, e.lblk, End(e));
        SameRunWithin(LeftExts(c), t.exts, t'.exts, RightExts(c));
      }
      c' := CorrectIndexes(path', c1, t', x);
      FixKeysFacts(cp, c1, First(t'));
      assert All(c', t') == All(c1, t');
    }

    /** Insertion into a leaf known to have room. */
    method InsertRoomy(path: Path, e: Extent, preIO: bool, ghost c: Ctx, ghost t: Tree, ghost x: multiset<int>)
      returns (path': Path, ghost c': Ctx, ghost t': Tree)
      requires Focus(c, t, 0, x + Phys(e)) && PathTo(path, c, t) && Roomy(cp, c, t, e, path.leaf.pos)
      modifies this
      ensures Focus(c', t', 0, x) && Settled(cp, c', t') && BlockMap(All(c', t')) == BlockMap(All(c, t)) + Run(e)
      ensures preIO ==> PathTo(path', c', t') && t' == WithExtent(t, path.leaf.pos, e) && c' == FixKeys(c, First(t'))
      ensures !preIO ==> Joined(t'.exts, e.lblk, End(e)) && !Collapsible(cp, c', t')
      ensures used <= old(used)
    {
      ghost var t1;
      path', t1 := InsertHere(path, e, c, t, x);
      c', t' := FinishInsert(path', path'.leaf.pos, preIO, c, t1, if t.exts == [] then e.lblk else First(t), e, x);
      FixKeysPath(c, First(t1));
    }

    /** The "next leaf has space for us" case. */
    method InsertNext(next: nat, path0: Path, e: Extent, preIO: bool, ghost c0: Ctx, ghost t0: Tree, ghost cn: Ctx,
                      ghost tn: Tree, ghost x: multiset<int>)
      returns (done: bool, ghost c: Ctx, ghost t: Tree)
      requires Focus(c0, t0, 0, x + Phys(e)) && PathTo(path0, c0, t0) && Ready(cp, c0, t0, e, path0.leaf.pos)
      requires HasNext(c0) && next == NextKey(c0) && e.lblk > t0.exts[|t0.exts| - 1].lblk
               && (cn, tn) == NextLeaf(c0, t0)
      modifies this
      ensures !done ==> Focus(c0, t0, 0, x + Phys(e)) && c == c0 && t == t0
      ensures done ==> Focus(c, t, 0, x) && Settled(cp, c, t) && BlockMap(All(c, t)) == BlockMap(All(c0, t0)) + Run(e)
      ensures done && preIO ==> PathTo(path0, c, t) && Around(c, t, e)
      ensures done && !preIO ==> Joined(t.exts, e.lblk, End(e)) && !Collapsible(cp, c, t)
      ensures done == HasRoom(cp, tn) && used <= old(used)
    {
      done, c, t := false, c0, t0;
      NextRoomy(cp, c0, t0, e, path0.leaf.pos);
      Refocus(c0, t0, 0, cn, tn, 0, x + Phys(e));
      var npath := FindExtent(next, cn, tn);
      var node := store[npath.leaf.loc];
      if |node.exts| >= node.max { return; }
      ghost var cN, tN;
      npath, cN, tN := InsertRoomy(npath, e, preIO, cn, tn, x);
      done, c, t := true, cN, tN;
      if preIO {
        NextLeft(cp, c0, t0, e, path0.leaf.pos);
        c := BackFromNext(cp, c0, t0, e, path0.leaf.pos, tN);
        t := t0;
        NextDepth(cp, c0, t0, e, path0.leaf.pos, First(tN));
        Refocus(cN, tN, 0, c, t, 0, x);
      }
    }

    /** "probably next leaf has space for us?" */
    method TryNext(path0: Path, e: Extent, preIO: bool, ghost c0: Ctx, ghost t0: Tree, ghost x: multiset<int>)
      returns (done: bool, ghost c: Ctx, ghost t: Tree)
      requires Focus(c0, t0, 0, x + Phys(e)) && PathTo(path0, c0, t0) && Ready(cp, c0, t0, e, path0.leaf.pos)
      modifies this
      ensures done == NextHasRoom(cp, c0, t0, e) && used <= old(used)
      ensures !done ==> Focus(c0, t0, 0, x + Phys(e))
      ensures done ==> Focus(c, t, 0, x) && Settled(cp, c, t) && BlockMap(All(c, t)) == BlockMap(All(c0, t0)) + Run(e)
      ensures done && preIO ==> PathTo(path0, c, t) && Around(c, t, e)
      ensures done && !preIO ==> Joined(t.exts, e.lblk, End(e)) && !Collapsible(cp, c, t)
    {
      done, c, t := false, c0, t0;
      var node := store[path0.leaf.loc];
      if e.lblk <= node.exts[|node.exts| - 1].lblk { return; }
      var next := NextLeafBlock(path0, c0, t0);
      NextKeySmall(cp, c0, t0);
      if next != EXT_MAX_BLOCKS {
        ghost var (cn, tn) := NextLeaf(c0, t0);
        done, c, t := InsertNext(next, path0, e, preIO, c0, t0, cn, tn, x);
      }
    }

    /** In a new leaf. */
    method InsertNew(path0: Path, e: Extent, preIO: bool, ghost c0: Ctx, ghost t0: Tree, ghost x: multiset<int>)
      returns (path: Path, ghost c: Ctx, ghost t: Tree)
      requires Focus(c0, t0, 0, x + Phys(e)) && PathTo(path0, c0, t0) && Ready(cp, c0, t0, e, path0.leaf.pos)
      requires |t0.exts| == LeafCap(cp, t0.loc)
      modifies this
      ensures Focus(c, t, 0, x) && Settled(cp, c, t) && BlockMap(All(c, t)) == BlockMap(All(c0, t0)) + Run(e)
      ensures preIO ==> PathTo(path, c, t) && Around(c, t, e)
      ensures !preIO ==> Joined(t.exts, e.lblk, End(e)) && !Collapsible(cp, c, t)
    {
      ghost var c1, t1;
      path, c1, t1 := CreateNewLeaf(path0, e, c0, t0, x + Phys(e));
      AroundInserted(cp, c1, t1, e, path.leaf.pos);
      path, c, t := InsertRoomy(path, e, preIO, c1, t1, x);
    }

    /** From the test of the next leaf on, when the leaf is full. */
    method InsertFull(path0: Path, e: Extent, preIO: bool, ghost c0: Ctx, ghost t0: Tree, ghost x: multiset<int>)
      returns (path: Path, ghost c: Ctx, ghost t: Tree)
      requires Focus(c0, t0, 0, x + Phys(e)) && PathTo(path0, c0, t0) && Ready(cp, c0, t0, e, path0.leaf.pos)
      requires |t0.exts| == LeafCap(cp, t0.loc)
      modifies this
      ensures Focus(c, t, 0, x) && Settled(cp, c, t) && BlockMap(All(c, t)) == BlockMap(All(c0, t0)) + Run(e)
      ensures preIO ==> PathTo(path, c, t) && Around(c, t, e)
      ensures !preIO ==> Joined(t.exts, e.lblk, End(e)) && !Collapsible(cp, c, t)
      ensures NextHasRoom(cp, c0, t0, e) ==> used <= old(used)
    {
      path := path0;
      var done;
      done, c, t := TryNext(path0, e, preIO, c0, t0, x);
      if !done {
        path, c, t := InsertNew(path0, e, preIO, c0, t0, x);
      }
    }

    /** mlfs_ext_insert_extent.  With MLFS_GET_BLOCKS_PRE_IO nothing is merged, and `path` is
        the caller's path afterwards.  No node is added while e continues an extent or there is room for it. */
    method InsertExtent(path0: Path, e: Extent, preIO: bool, ghost c0: Ctx, ghost t0: Tree, ghost x: multiset<int>)
      returns (path: Path, ghost c: Ctx, ghost t: Tree)
      requires Focus(c0, t0, 0, x + Phys(e)) && PathTo(path0, c0, t0)
      requires Ready(cp, c0, t0, e, path0.leaf.pos) || (Good(e) && c0 == Top && t0 == Leaf(INODE, [])
               && path0.leaf.pos == -1)
      modifies this
      ensures Focus(c, t, 0, x) && Settled(cp, c, t) && BlockMap(All(c, t)) == BlockMap(All(c0, t0)) + Run(e)
      ensures preIO ==> PathTo(path, c, t) && Around(c, t, e)
      ensures !preIO ==> Joined(t.exts, e.lblk, End(e)) && !Collapsible(cp, c, t)
      ensures !preIO && path0.leaf.pos >= 0 && Extends(t0.exts, path0.leaf.pos, e) ==> used <= old(used)
      ensures HasRoom(cp, t0) || NextHasRoom(cp, c0, t0, e) ==> used <= old(used)
    {
      path := path0;
      if path0.leaf.pos >= 0 && !preIO {
        var done, near;
        ghost var t1;
        done, near, t1 := TryExtend(path0, e, c0, t0, x);
        if done {
          c, t := FinishInsert(path0, near, preIO, c0, t1, First(t0), e, x);
          return;
        }
      }
      var node := store[path0.leaf.loc];
      if |node.exts| < node.max {
        if t0.exts != [] { ReadyRoomy(cp, c0, t0, e, path0.leaf.pos); }
        AroundInserted(cp, c0, t0, e, path0.leaf.pos);
        path, c, t := InsertRoomy(path0, e, preIO, c0, t0, x);
      } else {
        path, c, t := InsertFull(path0, e, preIO, c0, t0, x);
      }
    }

    // ---------- Cutting an extent in two ----------

    /** Case b of mlfs_split_extent_at: the extent starts at the cut and only changes state. */
    method MarkExtent(path: Path, unwritten: bool, preIO: bool, ghost c: Ctx, ghost t: Tree, ghost x: multiset<int>)
      returns (ghost c': Ctx, ghost t': Tree)
      requires Focus(c, t, 0, x) && Settled(cp, c, t) && PathTo(path, c, t) && 0 <= path.leaf.pos < |t.exts|
      requires unwritten ==> Len(t.exts[path.leaf.pos]) <= EXT_UNWRITTEN_MAX_LEN
      modifies this
      ensures Focus(c', t', 0, x) && Settled(cp, c', t')
      ensures BlockMap(All(c', t')) == BlockMap(All(c, t)) + BlockMap([Marked(t.exts[path.leaf.pos], unwritten)])
      ensures if preIO then Alone(All(c', t'), t.exts[path.leaf.pos].lblk, End(t.exts[path.leaf.pos]))
              else Joined(t'.exts, t.exts[path.leaf.pos].lblk, End(t.exts[path.leaf.pos])) && !Collapsible(cp, c', t')
    {
      var loc, pos := path.leaf.loc, path.leaf.pos;
      var exts := store[loc].exts;
      SettledOrdered(cp, c, t);
      MarkedFacts(exts[pos], unwritten);
      MarkedMap(c, t, pos, unwritten);
      SettledReplace(cp, c, t, pos, Marked(exts[pos], unwritten));
      ReplacePhys(exts, pos, Marked(exts[pos], unwritten), x, multiset{});
      assert x + multiset{} == x;
      WriteLeaf(exts[pos := Marked(exts[pos], unwritten)], loc, c, exts, x, x);
      ghost var t1 := WithEntry(t, pos, Marked(exts[pos], unwritten));
      if preIO {
        AloneEntry(c, t, pos, Marked(exts[pos], unwritten));
        c', t' := c, t1;
      } else {
        SettledOrdered(cp, c, t1);
        var path';
        ghost var i, k;
        path', c', t', i, k := TryToMerge(path, pos, c, t1, x);
        MergeJoins(t1.exts, t'.exts, pos, i, k, exts[pos].lblk, End(exts[pos]));
        SameRunWithin(LeftExts(c), t1.exts, t'.exts, RightExts(c));
      }
    }

    /** mlfs_split_extent_at */
    method SplitExtentAt(path: Path, split: nat, unw1: bool, unw2: bool, preIO: bool, ghost c: Ctx, ghost t: Tree,
                         ghost x: multiset<int>)
      returns (path': Path, ghost c': Ctx, ghost t': Tree)
      requires Focus(c, t, 0, x) && Settled(cp, c, t) && PathTo(path, c, t) && 0 <= path.leaf.pos < |t.exts|
      requires var e := t.exts[path.leaf.pos];
               e.lblk <= split < End(e) && Route(c, e.lblk) && (split == e.lblk && unw2
                   ==> Len(e) <= EXT_UNWRITTEN_MAX_LEN)
      modifies this
      ensures Focus(c', t', 0, x) && Settled(cp, c', t')
      ensures BlockMap(All(c', t')) == BlockMap(All(c, t)) + BlockMap(SplitOf(t.exts[path.leaf.pos], split, unw1, unw2))
      ensures preIO && t.exts[path.leaf.pos].lblk < split ==>
                PathTo(path', c', t') && Around(c', t', SecondPart(t.exts[path.leaf.pos], split, unw2))
      ensures if preIO then Alone(All(c', t'), split, End(t.exts[path.leaf.pos]))
              else Joined(t'.exts, split, End(t.exts[path.leaf.pos])) && !Collapsible(cp, c', t')
    {
      var loc, pos := path.leaf.loc, path.leaf.pos;
      var exts := store[loc].exts;
      var ex := exts[pos];
      if split == ex.lblk {
        path' := path;
        c', t' := MarkExtent(path, unw2, preIO, c, t, x);
        return;
      }
      var ex2 := SecondPart(ex, split, unw2);
      ReadySecond(cp, c, t, pos, split, unw1, unw2);
      SettledOrdered(cp, c, t);
      SecondMap(c, t, pos, split, unw1, unw2);
      PartFacts(ex, split, unw1, unw2);
      ReplacePhys(exts, pos, FirstPart(ex, split, unw1), x, Phys(ex2));
      WriteLeaf(exts[pos := FirstPart(ex, split, unw1)], loc, c, exts, x, x + Phys(ex2));
      path', c', t' := InsertExtent(path, ex2, preIO, c, WithEntry(t, pos, FirstPart(ex, split, unw1)), x);
    }

    // ---------- Removal ----------

    /** Give back a run that the operation in progress owns. */
    method GiveBack(p: nat, n: nat, ghost c: Ctx, ghost t: Tree, ghost d: nat, ghost x: multiset<int>)
      requires Focus(c, t, d, x + multiset(Span(p, n)))
      modifies this`used, this`usedBlocks
      ensures Focus(c, t, d, x)
    {
      RootDepth(c, t, d, x + multiset(Span(p, n)));
      AccountsFree2(cp, used, Own(tree), x, Span(p, n), others);
      FreeRun(p, n);
    }

    /** A leaf is rewritten and the blocks it lost are given back. */
    method WriteAndFree(s': seq<Extent>, loc: nat, p: nat, n: nat, ghost c: Ctx, ghost s: seq<Extent>,
                        ghost x: multiset<int>)
      requires Focus(c, Leaf(loc, s), 0, x) && PhysAll(s') + (x + multiset(Span(p, n))) == PhysAll(s) + x
      modifies this
      ensures Focus(c, Leaf(loc, s'), 0, x)
    {
      WriteLeaf(s', loc, c, s, x, x + multiset(Span(p, n)));
      GiveBack(p, n, c, Leaf(loc, s'), 0, x);
    }

    /** One extent of mlfs_ext_rm_leaf: shorten or drop it and give its blocks back. */
    method TrimEntry(i: nat, start: nat, end: nat, loc: nat, ghost c: Ctx, ghost l: seq<Extent>, ghost e: Extent,
                     ghost r: seq<Extent>, ghost x: multiset<int>)
      requires Focus(c, Leaf(loc, l + [e] + r), 0, x) && i == |l| && Good(e) && e.lblk <= end
               && start < End(e) <= end + 1
      modifies this
      ensures Focus(c, Leaf(loc, l + TrimOne(e, start, end) + r), 0, x)
    {
      var exts := store[loc].exts;
      TrimShape(l, e, r, start, end);
      TrimEntryPhys(l, e, r, start, end, x);
      var ex := exts[i];
      var a := if ex.lblk > start then ex.lblk else start;
      var num := a - ex.lblk;
      var rest := if num == 0 then exts[..i] + exts[i + 1..] else exts[i := WithLen(ex, num, Unwritten(ex))];
      assert rest == l + TrimOne(e, start, end) + r && Span(ex.pblk + num, End(ex) - a) == Gone(e, start, end);
      WriteAndFree(rest, loc, ex.pblk + num, End(ex) - a, c, l + [e] + r, x);
    }

    /** The body of the loop in mlfs_ext_rm_leaf: extents beyond `end` are passed over. */
    method TrimStep(i: nat, start: nat, end: nat, loc: nat, ghost c: Ctx, ghost s: seq<Extent>, ghost k: nat,
                    ghost x: multiset<int>)
      returns (touched: bool)
      requires i < |s| && k == i + 1 && Focus(c, Leaf(loc, TrimFrom(s, k, start, end)), 0, x)
      requires CutClean(s, end + 1) && start < End(s[i])
      modifies this
      ensures Focus(c, Leaf(loc, TrimFrom(s, i, start, end)), 0, x) && touched == Touches(s, i, end)
    {
      TrimNext(s, i, k, start, end);
      touched := end >= store[loc].exts[i].lblk;
      if touched {
        TrimEntry(i, start, end, loc, c, s[..i], s[i], Trimmed(s[i + 1..], start, end), x);
      }
    }

    /** The loop of mlfs_ext_rm_leaf, from the last extent towards the first.  It stops at `i`;
        `touched` says whether the extent after that one was changed. */
    method TrimLeaf(start: nat, end: nat, loc: nat, ghost c: Ctx, ghost s: seq<Extent>, ghost x: multiset<int>)
      returns (i: int, touched: bool, ghost k: nat)
      requires Focus(c, Leaf(loc, s), 0, x) && CutClean(s, end + 1)
      modifies this
      ensures k <= |s| && i == k - 1 && Focus(c, Leaf(loc, TrimFrom(s, k, start, end)), 0, x)
      ensures i >= 0 ==> End(store[loc].exts[i]) <= start
      ensures touched == Touches(s, k, end)
    {
      i := |store[loc].exts| - 1;
      touched := false;
      TrimNone(s, start, end);
      k := |s|;
      while i >= 0 && End(store[loc].exts[i]) > start
        invariant k <= |s| && i == k - 1
        invariant Focus(c, Leaf(loc, TrimFrom(s, k, start, end)), 0, x)
        invariant touched == Touches(s, k, end)
      {
        TrimSame(s, i, k, start, end);
        touched := TrimStep(i, start, end, loc, c, s, k, x);
        k := i;
        i := i - 1;
      }
    }

    /** The first half of mlfs_ext_rm_idx: the parent loses the entry of an emptied child. */
    method DropEntry(step: Step, ghost c: Ctx, ghost t: Tree, ghost d: nat, ghost x: multiset<int>)
      requires Focus(c, t, d, x) && c.In? && step == Step(c.loc, |c.left|) && Own(t) == multiset{t.loc}
      modifies this
      ensures Focus(c.up, Index(c.loc, c.left + c.right), d + 1, x)
    {
      var node := store[step.loc];
      var blk := node.idxs[step.pos].blk;
      BelowRoot(c, t, d, x);
      OwnApart(c, t, d, x);
      DropRepr(cp, store, used, others, c, t, d, x);
      DropOwn(cp, used, others, c, t, x);
      store := store[step.loc := node.(idxs := node.idxs[..step.pos] + node.idxs[step.pos + 1..])];
      assert Span(blk, 1) == {blk};
      FreeRun(blk, 1);
      tree := Plug(c.up, Index(c.loc, c.left + c.right));
    }

    /** mlfs_ext_rm_idx */
    method RmIdx(path: seq<Step>, ghost c: Ctx, ghost t: Tree, ghost d: nat, ghost x: multiset<int>)
      requires Focus(c, t, d, x) && c.In? && path == PathOf(c) && Own(t) == multiset{t.loc}
      modifies this
      ensures Focus(RestCtx(c), Index(c.loc, c.left + c.right), d + 1, x)
    {
      PathLast(c);
      var step := path[|path| - 1];
      var key := store[step.loc].idxs[step.pos].key;
      DropEntry(step, c, t, d, x);
      if step.pos == 0 {
        var rest := store[step.loc].idxs;
        RestFirst(c);
        FixUp(path[..|path| - 1], if rest != [] then rest[0].key else key, c.up, Index(c.loc, c.left + c.right), d
            + 1, x);
      }
    }

    /** The leaf part of mlfs_ext_rm_leaf. */
    method TrimWhole(start: nat, end: nat, loc: nat, ghost c: Ctx, ghost s: seq<Extent>, ghost x: multiset<int>)
      returns (correctIndex: bool)
      requires Focus(c, Leaf(loc, s), 0, x) && s != [] && Sorted(s) && CutAt(s, end + 1)
      modifies this
      ensures Focus(c, Leaf(loc, Trimmed(s, start, end)), 0, x)
      ensures correctIndex || (Trimmed(s, start, end) != [] && Trimmed(s, start, end)[0].lblk == s[0].lblk)
    {
      var i, touched;
      ghost var k;
      i, touched, k := TrimLeaf(start, end, loc, c, s, x);
      correctIndex := i < 0 && touched;
      TrimRest(s, k, start, end);
      if !correctIndex { TrimKeepsFirst(s, start, end); }
    }

    /** The index part of mlfs_ext_rm_leaf. */
    method FixLeaf(levels: seq<Step>, loc: nat, correctIndex: bool, ghost c: Ctx, ghost s: seq<Extent>,
                   ghost x: multiset<int>)
      requires Focus(c, Leaf(loc, s), 0, x) && levels == PathOf(c)
      requires correctIndex || (s != [] && KeysOk(c, s[0].lblk))
      modifies this
      ensures var (c', t', d') := AfterLeaf(c, loc, s); Focus(c', t', d', x)
    {
      PathLen(c);
      var empty := store[loc].exts == [];
      if correctIndex && !empty {
        ghost var _ := CorrectIndexes(Path(levels, Step(loc, 0)), c, Leaf(loc, s), x);
      } else if !empty {
        FixKeysSame(c, s[0].lblk);
      }
      if empty && levels != [] {
        RmIdx(levels, c, Leaf(loc, s), 0, x);
      }
    }

    /** mlfs_ext_rm_leaf */
    method RmLeaf(levels: seq<Step>, start: nat, end: nat, loc: nat, ghost c: Ctx, ghost t: Tree,
                  ghost x: multiset<int>)
      requires Focus(c, t, 0, x) && t.Leaf? && t.exts != [] && KeysOk(c, First(t)) && levels == PathOf(c)
               && loc == t.loc
      requires Sorted(t.exts) && CutAt(t.exts, end + 1)
      modifies this
      ensures var (c', t', d') := AfterLeaf(c, loc, Trimmed(t.exts, start, end)); Focus(c', t', d', x)
    {
      var correctIndex := TrimWhole(start, end, loc, c, t.exts, x);
      FixLeaf(levels, loc, correctIndex, c, Trimmed(t.exts, start, end), x);
    }

    /** The leaf step of the walk in mlfs_ext_remove_space, below the root. */
    method WalkLeaf(w: Walk, start: nat, end: nat, ghost all: seq<Extent>, ghost c: Ctx, ghost t: Tree, ghost k: nat,
                    ghost x: multiset<int>)
      returns (w': Walk, ghost c': Ctx, ghost t': Tree, ghost k': nat)
      requires Focus(c, t, 0, x) && WalkAt(cp, all, w, c, t, 0, k, start, end) && c.In?
      modifies this
      ensures Focus(c', t', 1, x) && WalkAt(cp, all, w', c', t', 1, k', start, end)
      ensures Depth(c') + 1 == Depth(c) && TodoAt(w', c', t') == TodoAt(w, c, t)
    {
      LeafSorted(cp, all, c, t, w.counts, start, end);
      RmLeaf(w.levels, start, end, w.loc, c, t, x);
      c', t', k' := LeafUp(cp, all, w, c, t, k, start, end);
      ghost var (c1, t1, d1) := AfterLeaf(c, w.loc, Trimmed(t.exts, start, end));
      Refocus(c1, t1, d1, c', t', 1, x);
      w' := Popped(w);
    }

    /** An index node that is done goes from its parent if it is empty. */
    method LeaveNode(levels: seq<Step>, loc: nat, ghost c: Ctx, ghost t: Tree, ghost d: nat, ghost c': Ctx,
                     ghost t': Tree, ghost x: multiset<int>)
      requires Focus(c, t, d, x) && t.Index? && c.In? && levels == PathOf(c) && loc == t.loc
      requires c' == (if t.kids != [] then c.up else RestCtx(c))
      requires t' == if t.kids != [] then Parent(c, t) else Index(c.loc, c.left + c.right)
      modifies this
      ensures Focus(c', t', d + 1, x)
    {
      if store[loc].idxs == [] {
        RmIdx(levels, c, t, d, x);
      } else {
        Refocus(c, t, d, c', t', d + 1, x);
      }
    }

    /** Going up from an index node that is done. */
    method WalkUp(w: Walk, start: nat, end: nat, ghost all: seq<Extent>, ghost c: Ctx, ghost t: Tree, ghost d: nat,
                  ghost k: nat, ghost x: multiset<int>)
      returns (w': Walk, ghost c': Ctx, ghost t': Tree, ghost k': nat)
      requires d > 0 && Focus(c, t, d, x) && WalkAt(cp, all, w, c, t, d, k, start, end) && c.In?
      requires w.p == 0 || w.count == |t.kids|
      modifies this
      ensures Focus(c', t', d + 1, x) && WalkAt(cp, all, w', c', t', d + 1, k', start, end)
      ensures Depth(c') + 1 == Depth(c) && TodoAt(w', c', t') <= TodoAt(w, c, t)
    {
      c', t', k' := IndexUp(cp, all, w, c, t, d, k, start, end);
      LeaveNode(w.levels, w.loc, c, t, d, c', t', x);
      w' := Popped(w);
    }

    /** The child at index p and its entry count, if it is an index node. */
    method ChildAt(loc: nat, p: nat, ghost t: Tree, ghost d: nat) returns (blk: nat, n: nat)
      requires d > 0 && Repr(cp, store, t, d) && t.Index? && loc == t.loc && p < |t.kids|
      ensures loc in store && store[loc].IndexNode? && |store[loc].idxs| == |t.kids|
      ensures blk == t.kids[p].sub.loc && (t.kids[p].sub.Index? ==> n == |t.kids[p].sub.kids|)
    {
      ReprKid(cp, store, t, d, p);
      blk := store[loc].idxs[p].blk;
      n := match store[blk] case LeafNode(_, _) => 0 case IndexNode(_, _, idxs) => |idxs|;
    }

    /** Going down to the next child on the left. */
    method WalkDown(w: Walk, start: nat, end: nat, ghost all: seq<Extent>, ghost c: Ctx, ghost t: Tree, ghost d: nat,
                    ghost k: nat, ghost x: multiset<int>)
      returns (w': Walk, ghost c': Ctx, ghost t': Tree, ghost k': nat)
      requires d > 0 && Focus(c, t, d, x) && WalkAt(cp, all, w, c, t, d, k, start, end)
      requires 0 < w.p && w.count != |t.kids|
      ensures Focus(c', t', d - 1, x) && WalkAt(cp, all, w', c', t', d - 1, k', start, end)
      ensures Depth(c') == Depth(c) + 1 && TodoAt(w', c', t') < TodoAt(w, c, t)
    {
      var blk, n := ChildAt(w.loc, w.p - 1, t, d);
      w' := Pushed(w, |store[w.loc].idxs|, blk, n);
      c', t', k' := IndexDown(cp, all, w, w', n, c, t, d, k, start, end);
      Refocus(c, t, d, c', t', d - 1, x);
    }

    /** One turn of the walk at an index node, short of leaving the root. */
    method WalkIndex(w: Walk, start: nat, end: nat, ghost all: seq<Extent>, ghost c: Ctx, ghost t: Tree, ghost d: nat,
                     ghost k: nat, ghost x: multiset<int>)
      returns (w': Walk, ghost c': Ctx, ghost t': Tree, ghost d': nat, ghost k': nat)
      requires d > 0 && Focus(c, t, d, x) && WalkAt(cp, all, w, c, t, d, k, start, end)
      requires c.In? || (w.p != 0 && w.count != |t.kids|)
      modifies this
      ensures Focus(c', t', d', x) && WalkAt(cp, all, w', c', t', d', k', start, end) && d' + Depth(c') == d + Depth(c)
      ensures TodoAt(w', c', t') < TodoAt(w, c, t) || (TodoAt(w', c', t') == TodoAt(w, c, t) && Depth(c') < Depth(c))
    {
      var up := w.p == 0 || w.count == |store[w.loc].idxs|;
      d' := if up then d + 1 else d - 1;
      if up {
        w', c', t', k' := WalkUp(w, start, end, all, c, t, d, k, x);
      } else {
        w', c', t', k' := WalkDown(w, start, end, all, c, t, d, k, x);
      }
    }

    /** One turn of the walk, short of leaving the root. */
    method WalkStep(w: Walk, leaf: bool, start: nat, end: nat, ghost all: seq<Extent>, ghost c: Ctx, ghost t: Tree,
                    ghost d: nat, ghost k: nat, ghost x: multiset<int>)
      returns (w': Walk, ghost c': Ctx, ghost t': Tree, ghost d': nat, ghost k': nat)
      requires Focus(c, t, d, x) && WalkAt(cp, all, w, c, t, d, k, start, end) && leaf == (d == 0)
      requires c.In? || (t.Index? && w.p != 0 && w.count != |t.kids|)
      modifies this
      ensures Focus(c', t', d', x) && WalkAt(cp, all, w', c', t', d', k', start, end) && d' + Depth(c') == d + Depth(c)
      ensures TodoAt(w', c', t') < TodoAt(w, c, t) || (TodoAt(w', c', t') == TodoAt(w, c, t) && Depth(c') < Depth(c))
    {
      if leaf {
        d' := 1;
        w', c', t', k' := WalkLeaf(w, start, end, all, c, t, k, x);
      } else {
        w', c', t', d', k' := WalkIndex(w, start, end, all, c, t, d, k, x);
      }
    }

    /** The walk of mlfs_ext_remove_space over the tree, from the leaf the path leads to
        towards the left, until it is done with the root. */
    method WalkTree(w0: Walk, start: nat, end: nat, ghost all: seq<Extent>, ghost c0: Ctx, ghost t0: Tree,
                    ghost x: multiset<int>)
      requires Focus(c0, t0, 0, x) && WalkAt(cp, all, w0, c0, t0, 0, 0, start, end)
      modifies this
      ensures Focus(Top, tree, Depth(c0), x) && Finished(cp, all, tree, Depth(c0), start, end)
    {
      PathLen(c0);
      var w, depth := w0, |w0.levels|;
      ghost var c, t, d: nat, k: nat := c0, t0, 0, 0;
      while w.levels != [] || (depth > 0 && w.p != 0 && w.count != |store[w.loc].idxs|)
        invariant Focus(c, t, d, x) && d + Depth(c) == depth && |w.levels| == Depth(c)
        invariant WalkAt(cp, all, w, c, t, d, k, start, end)
        decreases TodoAt(w, c, t), Depth(c)
      {
        w, c, t, d, k := WalkStep(w, |w.levels| == depth, start, end, all, c, t, d, k, x);
        PathLen(c);
      }
      if depth == 0 {
        LeafTop(cp, all, w, t, k, start, end);
        LeafSorted(cp, all, c, t, w.counts, start, end);
        RmLeaf([], start, end, w.loc, c, t, x);
      } else {
        IndexTop(cp, all, w, t, d, k, start, end);
      }
    }

    lemma {:induction false} NodeBlock(c: Ctx, t: Tree, d: nat, x: multiset<int>)
      requires Focus(c, t, d, x) && c.In?
      ensures t.loc > cp.rootIdx
    {
      BelowRoot(c, t, d, x);
      OwnApart(c, t, d, x);
      OwnedIsUsed(cp, used, OwnC(c) + Own(t) + x, others, t.loc);
    }

    /** The p_block fields when the walk starts: one more than the entry count, except on the
        root level, where the search has left the child's block number. */
    method StartCounts(levels: seq<Step>, ghost c: Ctx, ghost t: Tree,
                       ghost x: multiset<int>) returns (counts: seq<nat>)
      requires Focus(c, t, 0, x) && ShapedC(cp, c, 0) && levels == PathOf(c)
      ensures Fresh(c, counts)
    {
      counts := [];
      var k := 0;
      ZipAtPath(c, t, 0);
      ZipAtPlug(c, t, 0);
      while k < |levels|
        invariant k <= |levels| == Depth(c) && Fresh(ZipAt(c, t, k).0, counts)
      {
        ghost var l, kid, r := ZipAtStep(c, t, k);
        ghost var (ck, tk) := ZipAt(c, t, k + 1);
        ZipAtRepr(cp, store, c, t, 0, k + 1);
        ZipAtPath(c, t, k + 1);
        ZipAtPlug(c, t, k + 1);
        ZipAtShaped(cp, c, t, k + 1, 0);
        Refocus(c, t, 0, ck, tk, Depth(c) - k - 1, x);
        NodeBlock(ck, tk, Depth(c) - k - 1, x);
        PathLast(ck);
        assert levels[k] == levels[..k + 1][k];
        var node := store[levels[k].loc];
        ghost var old_ := counts;
        counts := counts + [if k == 0 then node.idxs[levels[k].pos].blk else |node.idxs| + 1];
        assert counts[..|counts| - 1] == old_;
        k := k + 1;
      }
    }

    /** mlfs_force_split_extent_at right after block `end`, which the extent at the path holds. */
    method CutHere(path: Path, end: nat, ghost c: Ctx, ghost t: Tree)
      returns (path': Path, ghost c': Ctx, ghost t': Tree)
      requires Focus(c, t, 0, multiset{}) && Settled(cp, c, t) && PathTo(path, c, t) && 0 <= path.leaf.pos < |t.exts|
      requires var e := t.exts[path.leaf.pos]; e.lblk <= end && end + 1 < End(e) && Route(c, e.lblk)
      modifies this
      ensures Focus(c', t', 0, multiset{}) && Settled(cp, c', t') && PathTo(path', c', t') && CutReady(c', t', end)
      ensures BlockMap(All(c', t')) == BlockMap(All(c, t))
    {
      var pos := path.leaf.pos;
      var ex := store[path.leaf.loc].exts[pos];
      CutKeepsMap(c, t, pos, ex, end + 1);
      path', c', t' := SplitExtentAt(path, end + 1, Unwritten(ex), Unwritten(ex), true, c, t, multiset{});
      CutAround(cp, c', t', SecondPart(ex, end + 1, Unwritten(ex)), end);
    }

    /** The first half of mlfs_ext_remove_space: cut the extent that reaches beyond block `end`. */
    method CutEnd(path0: Path, end: nat, ghost c0: Ctx, ghost t0: Tree) returns (path: Path, ghost c: Ctx,
                  ghost t: Tree)
      requires Focus(c0, t0, 0, multiset{}) && PathTo(path0, c0, t0) && Searched(cp, c0, t0, end, path0.leaf.pos)
               && path0.leaf.pos >= 0
      modifies this
      ensures Focus(c, t, 0, multiset{}) && Settled(cp, c, t) && PathTo(path, c, t) && CutReady(c, t, end)
      ensures BlockMap(All(c, t)) == BlockMap(All(c0, t0))
    {
      path, c, t := path0, c0, t0;
      var ex := store[path.leaf.loc].exts[path.leaf.pos];
      if ex.lblk <= end && end < End(ex) - 1 {
        SettledOrdered(cp, c, t);
        RouteBack(c, t.loc, t.exts, path.leaf.pos, end);
        path, c, t := CutHere(path, end, c, t);
      } else {
        CutFound(cp, c, t, path.leaf.pos, end);
      }
    }

    /** The end of mlfs_ext_remove_space: an emptied root becomes an empty leaf again. */
    method ResetRoot(ghost d: nat)
      requires Focus(Top, tree, d, multiset{}) && (tree.Leaf? || tree.kids == [])
      requires Exts(tree) == []
      modifies this`store, this`tree
      ensures tree == Leaf(INODE, []) && Valid()
    {
      store := store[INODE := LeafNode(cp.rootLeaf, [])];
      tree := Leaf(INODE, []);
    }

    /** mlfs_ext_remove_space and mlfs_ext_truncate: exactly the blocks start, ..., end go. */
    method RemoveSpace(start: nat, end: nat)
      requires Valid() && end < EXT_MAX_BLOCKS - 1
      modifies this
      ensures Valid() && Blocks() == Without(old(Blocks()), start, end)
    {
      var path;
      ghost var c, t;
      path, c, t := Find(end);
      if path.leaf.pos < 0 { return; }
      path, c, t := CutEnd(path, end, c, t);
      var counts := StartCounts(path.levels, c, t, multiset{});
      ghost var all := All(c, t);
      var w := Walk(path.levels, counts, path.leaf.loc, 0, 0);
      WalkStart(cp, w, c, t, start, end);
      WalkTree(w, start, end, all, c, t, multiset{});
      TrimmedMap(all, start, end);
      TrimmedOrder(all, start, end);
      if EntryCount(store[INODE]) == 0 {
        ResetRoot(Depth(c));
      }
    }

    // ---------- Mapping blocks ----------

    /** mlfs_ext_next_allocated_block */
    method NextAllocatedBlock(path: Path, ghost c: Ctx, ghost t: Tree) returns (next: nat)
      requires ReprC(cp, store, c, 0, t.loc) && Repr(cp, store, t, 0) && t.Leaf? && PathTo(path, c, t)
      requires -1 <= path.leaf.pos < |t.exts|
      ensures next == NextAt(c, t, path.leaf.pos)
    {
      var pos, exts := path.leaf.pos, store[path.leaf.loc].exts;
      if 0 <= pos && pos != |exts| - 1 { return exts[pos + 1].lblk; }
      next := NextLeafBlock(path, c, t);
    }

    /** The test that decides whether the block is mapped. */
    method InRange(path: Path, lblk: nat, ghost c: Ctx, ghost t: Tree) returns (mapped: bool)
      requires Focus(c, t, 0, multiset{}) && PathTo(path, c, t) && Searched(cp, c, t, lblk, path.leaf.pos)
               && lblk < EXT_MAX_BLOCKS
      ensures mapped == (lblk in BlockMap(All(c, t)))
      ensures mapped ==> path.leaf.pos >= 0 && t.exts[path.leaf.pos].lblk <= lblk < End(t.exts[path.leaf.pos])
    {
      Covered(cp, c, t, lblk, path.leaf.pos);
      if path.leaf.pos < 0 { return false; }
      var ex := store[path.leaf.loc].exts[path.leaf.pos];
      mapped := ex.lblk <= lblk < End(ex);
    }

    /** mlfs_ext_convert_to_initialized, from block lblk to the end of the unwritten extent. */
    method Convert(path: Path, lblk: nat, preIO: bool, ghost c: Ctx, ghost t: Tree)
      returns (ghost c': Ctx, ghost t': Tree)
      requires Focus(c, t, 0, multiset{}) && PathTo(path, c, t) && Searched(cp, c, t, lblk, path.leaf.pos)
               && path.leaf.pos >= 0
      requires var ex := t.exts[path.leaf.pos]; ex.lblk <= lblk < End(ex) && Unwritten(ex)
      modifies this
      ensures Focus(c', t', 0, multiset{}) && Settled(cp, c', t')
      ensures BlockMap(All(c', t')) == BlockMap(All(c, t)) + Run(Initialised(t.exts[path.leaf.pos], lblk))
      ensures if preIO then Alone(All(c', t'), lblk, End(t.exts[path.leaf.pos]))
              else Joined(t'.exts, lblk, End(t.exts[path.leaf.pos])) && !Collapsible(cp, c', t')
    {
      ConvertReady(cp, c, t, path.leaf.pos, lblk);
      var path';
      path', c', t' := SplitExtentAt(path, lblk, true, false, preIO, c, t, multiset{});
    }

    method ConvertFiled(path: Path, lblk: nat, preIO: bool, ghost c: Ctx, ghost t: Tree)
      requires Focus(c, t, 0, multiset{}) && PathTo(path, c, t) && Searched(cp, c, t, lblk, path.leaf.pos)
               && path.leaf.pos >= 0
      requires var ex := t.exts[path.leaf.pos]; ex.lblk <= lblk < End(ex) && Unwritten(ex)
      modifies this
      ensures Valid() && Blocks() == BlockMap(All(c, t)) + Run(Initialised(t.exts[path.leaf.pos], lblk))
      ensures Filed(cp, tree, preIO, lblk, End(t.exts[path.leaf.pos]))
    {
      ghost var c', t' := Convert(path, lblk, preIO, c, t);
      Close(c', t');
      FiledAt(cp, tree, preIO, c', t', lblk, End(t.exts[path.leaf.pos]));
    }

    method ConvertIf(path: Path, lblk: nat, needed: bool, preIO: bool, ghost c: Ctx, ghost t: Tree)
      requires Focus(c, t, 0, multiset{}) && PathTo(path, c, t) && Searched(cp, c, t, lblk, path.leaf.pos)
               && path.leaf.pos >= 0
      requires var ex := t.exts[path.leaf.pos]; ex.lblk <= lblk < End(ex) && (needed ==> Unwritten(ex))
      modifies this
      ensures Valid()
      ensures Blocks() == if needed then BlockMap(All(c, t)) + Run(Initialised(t.exts[path.leaf.pos], lblk))
              else BlockMap(All(c, t))
      ensures needed ==> Filed(cp, tree, preIO, lblk, End(t.exts[path.leaf.pos]))
    {
      if needed {
        ConvertFiled(path, lblk, preIO, c, t);
      } else {
        Close(c, t);
      }
    }

    /** mlfs_ext_get_blocks when the search finds the block mapped. */
    method MapFound(path: Path, lblk: nat, len: nat, create: bool, preIO: bool, ghost c: Ctx, ghost t: Tree)
      returns (ret: nat, m: MapBlocks, ghost e: Extent)
      requires Focus(c, t, 0, multiset{}) && PathTo(path, c, t) && Searched(cp, c, t, lblk, path.leaf.pos)
               && path.leaf.pos >= 0
      requires t.exts[path.leaf.pos].lblk <= lblk < End(t.exts[path.leaf.pos]) && 1 <= len
      modifies this
      ensures Valid() && FoundSpec(BlockMap(All(c, t)), Blocks(), lblk, len, create, ret, m, e)
      ensures RestLen(All(c, t), lblk, Len(e))
      ensures create && BlockMap(All(c, t))[lblk].unwritten ==> Filed(cp, tree, preIO, lblk, End(e))
    {
      var ex := store[path.leaf.loc].exts[path.leaf.pos];
      FoundRest(c, t, lblk, path.leaf.pos);
      e := Initialised(ex, lblk);
      FoundRun(cp, c, t, lblk, path.leaf.pos);
      assert End(e) == End(ex);
      var newblock := lblk - ex.lblk + ex.pblk;
      if Unwritten(ex) && !create { newblock := 0; }
      ConvertIf(path, lblk, create && Unwritten(ex), preIO, c, t);
      ret := if End(ex) - lblk > len then len else End(ex) - lblk;
      m := MapBlocks(lblk, ret, newblock, true, false);
    }

    /** mlfs_ext_get_blocks without the create flag, in a hole. */
    method MapHole(path: Path, lblk: nat, len: nat, ghost c: Ctx, ghost t: Tree) returns (m: MapBlocks)
      requires Focus(c, t, 0, multiset{}) && PathTo(path, c, t) && Searched(cp, c, t, lblk, path.leaf.pos)
      requires lblk < EXT_MAX_BLOCKS && lblk !in BlockMap(All(c, t)) && 1 <= len
      ensures HoleSpec(BlockMap(All(c, t)), lblk, len, m)
    {
      var next := NextAllocatedBlock(path, c, t);
      HoleFacts(cp, c, t, lblk, path.leaf.pos);
      HoleEnd(cp, c, t, lblk, path.leaf.pos);
      var hole := HoleLen(store[path.leaf.loc].exts, path.leaf.pos, next, lblk);
      m := MapBlocks(lblk, if len < hole then len else hole, 0, false, false);
    }

    /** mlfs_new_data_blocks */
    method NewBlocks(count: nat, supply: nat, ghost c: Ctx, ghost t: Tree) returns (p: nat, n: nat)
      requires Focus(c, t, 0, multiset{}) && 1 <= count && 1 <= supply
      modifies this`used, this`usedBlocks
      ensures 1 <= n == Least(count, supply) && Focus(c, t, 0, multiset{} + multiset(Span(p, n)))
              && Span(p, n) !! old(used)
    {
      p, n := AllocRun(count, supply);
      AccountsAlloc2(cp, old(used), Own(tree), Span(p, n), others);
    }

    /** mlfs_ext_get_blocks with the create flag, in a hole. */
    method MapNew(path: Path, lblk: nat, len0: nat, preIO: bool, supply: nat, ghost c: Ctx, ghost t: Tree)
      returns (ret: nat, m: MapBlocks, ghost e: Extent)
      requires Focus(c, t, 0, multiset{}) && PathTo(path, c, t) && Searched(cp, c, t, lblk, path.leaf.pos)
      requires lblk < EXT_MAX_BLOCKS && lblk !in BlockMap(All(c, t)) && 1 <= len0 && 1 <= supply
      requires Capped(len0, preIO) <= EXT_INIT_MAX_LEN && ClearOfFirst(All(c, t), lblk, Capped(len0, preIO))
      modifies this
      ensures Valid() && NewSpec(BlockMap(All(c, t)), Blocks(), lblk, len0, preIO, supply, ret, m, e)
      ensures Span(e.pblk, ret) !! old(used) && Filed(cp, tree, preIO, lblk, End(e))
    {
      var next := NextAllocatedBlock(path, c, t);
      var len := if preIO && len0 > EXT_UNWRITTEN_MAX_LEN then EXT_UNWRITTEN_MAX_LEN else len0;
      NextRange(cp, c, t, lblk, path.leaf.pos);
      RoomIs(cp, c, t, lblk, path.leaf.pos, len);
      var p, n := NewBlocks(Wanted(next, lblk, len), supply, c, t);
      var newex := WithLen(Extent(lblk, 0, p), n, preIO);
      e := newex;
      NewReady(cp, c, t, lblk, path.leaf.pos, len, n, p, preIO);
      ghost var c', t';
      var path';
      path', c', t' := InsertExtent(path, newex, preIO, c, t, multiset{});
      Close(c', t');
      FiledAt(cp, tree, preIO, c', t', lblk, End(newex));
      ret := n;
      m := MapBlocks(lblk, n, if Unwritten(newex) then 0 else newex.pblk, false, true);
    }

    /** From the search on, without log-structured allocation. */
    method MapAt(path: Path, lblk: nat, len: nat, create: bool, preIO: bool, rest: nat, supply: nat, ghost c: Ctx,
                 ghost t: Tree)
      returns (ret: nat, m: MapBlocks, ghost e: Extent)
      requires Focus(c, t, 0, multiset{}) && PathTo(path, c, t) && Searched(cp, c, t, lblk, path.leaf.pos)
      requires 1 <= len && lblk < EXT_MAX_BLOCKS && 1 <= supply
      requires create && lblk !in BlockMap(All(c, t)) ==>
                 Capped(len, preIO) <= EXT_INIT_MAX_LEN && ClearOfFirst(All(c, t), lblk, Capped(len, preIO))
      modifies this
      ensures Valid() && MapSpec(BlockMap(All(c, t)), Blocks(), lblk, len, create, preIO, supply, ret, m, e)
      ensures lblk in BlockMap(All(c, t)) ==> RestLen(All(c, t), lblk, Len(e))
      ensures create && (lblk in BlockMap(All(c, t)) ==> BlockMap(All(c, t))[lblk].unwritten) ==>
                Filed(cp, tree, preIO, lblk, End(e))
      ensures lblk !in BlockMap(All(c, t)) && !create ==> ret == rest
      ensures m.isNew ==> Span(e.pblk, ret) !! old(used)
    {
      var mapped := InRange(path, lblk, c, t);
      if mapped {
        ret, m, e := MapFound(path, lblk, len, create, preIO, c, t);
      } else if create {
        ret, m, e := MapNew(path, lblk, len, preIO, supply, c, t);
      } else {
        m := MapHole(path, lblk, len, c, t);
        Unchanged(c, t, lblk, path.leaf.pos);
        ret, e := rest, Extent(0, 0, 0);
      }
    }

    method DropRange(lblk: nat, len: nat)
      requires Valid() && 1 <= len && lblk + len < EXT_MAX_BLOCKS
      modifies this
      ensures Valid() && Blocks() == Without(old(Blocks()), lblk, lblk + len - 1) && ClearOfFirst(Exts(tree), lblk, len)
    {
      RemoveSpace(lblk, lblk + len - 1);
      ClearAfterRemoval(Exts(tree), lblk, len);
    }

    /** Whether the block is mapped, and how much of its extent is left. */
    method RestAt(lblk: nat) returns (rest: nat)
      requires Valid() && lblk < EXT_MAX_BLOCKS
      ensures rest > 0 <==> lblk in Blocks()
      ensures lblk in Blocks() ==> RestLen(Exts(tree), lblk, rest)
    {
      var path;
      ghost var c, t;
      path, c, t := Find(lblk);
      var mapped := InRange(path, lblk, c, t);
      if !mapped { return 0; }
      FoundRest(c, t, lblk, path.leaf.pos);
      var ex := store[path.leaf.loc].exts[path.leaf.pos];
      rest := End(ex) - lblk;
    }

    /** With MLFS_MAP_LOG_ALLOC a mapped range is dropped before it is mapped again. */
    method DropMapped(lblk: nat, len: nat) returns (rest: nat)
      requires Valid() && 1 <= len && lblk + len < EXT_MAX_BLOCKS
      modifies this
      ensures Valid() && Blocks() == Dropped(old(Blocks()), lblk, len, true)
      ensures if lblk in old(Blocks()) then ClearOfFirst(Exts(tree), lblk, len) && RestLen(old(Exts(tree)), lblk, rest)
              else tree == old(tree) && used == old(used) && rest == 0
    {
      rest := RestAt(lblk);
      if rest > 0 {
        DropRange(lblk, len);
      }
    }

    /** mlfs_ext_get_blocks.  `supply` is the longest run that the allocator has. */
    method GetBlocks(lblk: nat, len: nat, create: bool, preIO: bool, logAlloc: bool, supply: nat)
      returns (ret: nat, m: MapBlocks, ghost e: Extent)
      requires Valid() && 1 <= len && lblk < EXT_MAX_BLOCKS && (logAlloc ==> lblk + len < EXT_MAX_BLOCKS) && 1 <= supply
      requires create && (logAlloc || lblk !in Blocks()) ==> Capped(len, preIO) <= EXT_INIT_MAX_LEN
      requires create && lblk !in Blocks() ==> ClearOfFirst(Exts(tree), lblk, Capped(len, preIO))
      modifies this
      ensures Valid()
      ensures m.isNew && !(logAlloc && lblk in old(Blocks())) ==> Span(e.pblk, ret) !! old(used)
      ensures MapSpec(Dropped(old(Blocks()), lblk, len, logAlloc), Blocks(), lblk, len, create, preIO, supply, ret, m,
              e)
      ensures lblk in old(Blocks()) && !logAlloc ==> RestLen(old(Exts(tree)), lblk, Len(e))
      ensures create && (lblk in old(Blocks()) ==> logAlloc || old(Blocks())[lblk].unwritten) ==>
                Filed(cp, tree, preIO, lblk, End(e))
      ensures !create && (lblk !in old(Blocks()) || logAlloc) ==>
                if lblk in old(Blocks()) then RestLen(old(Exts(tree)), lblk, ret) else ret == 0
    {
      var rest := 0;
      if logAlloc { rest := DropMapped(lblk, len); }
      var path;
      ghost var c, t;
      path, c, t := Find(lblk);
      ret, m, e := MapAt(path, lblk, len, create, preIO, rest, supply, c, t);
    }
  }
}
