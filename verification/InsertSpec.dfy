/** What an insertion may assume about the cursor at each of its stages, and why the
    tree edits lead from one stage to the next. */
module InsertSpec {
  import opened Extents
  import opened ExtentTrees
  import opened TreeEdits

  /** A position found by binary search: -1 in an empty leaf, else the last extent at or
      below b, or the first one. */
  ghost predicate LeafAt(exts: seq<Extent>, b: nat, pos: int) {
    if exts == [] then pos == -1 else
      && 0 <= pos < |exts|
      && (pos == 0 || exts[pos].lblk <= b)
      && (pos + 1 == |exts| || b < exts[pos + 1].lblk)
  }

  /** All extents of the file, the hole holding leaf t. */
  ghost function All(c: Ctx, t: Tree): seq<Extent> {
    LeftExts(c) + Exts(t) + RightExts(c)
  }

  /** The cursor (c, t) is where extent e belongs. */
  ghost predicate Placed(cp: Caps, c: Ctx, t: Tree, e: Extent) {
    && CapsOk(cp) && Good(e) && t.Leaf?
    && ShapedC(cp, c, 0) && Route(c, e.lblk)
    && Sorted(All(c, t)) && NoOverlap(All(c, t), e)
  }

  /** ... in a leaf that is part of a well-formed tree. */
  ghost predicate Ready(cp: Caps, c: Ctx, t: Tree, e: Extent, pos: int) {
    && Placed(cp, c, t, e)
    && Shaped(cp, t, 0) && KeysOk(c, First(t))
    && LeafAt(t.exts, e.lblk, pos)
  }

  /** Leaf t has room for e and e fits between its neighbours; t may be a new, still empty leaf. */
  ghost predicate Roomy(cp: Caps, c: Ctx, t: Tree, e: Extent, pos: int) {
    && CapsOk(cp) && Good(e) && t.Leaf? && ShapedC(cp, c, 0) && Sorted(All(c, t))
    && |t.exts| < LeafCap(cp, t.loc) && KeysOk(c, if t.exts == [] then e.lblk else First(t))
    && LeafAt(t.exts, e.lblk, pos)
    && Below(LeftExts(c), e.lblk) && NoOverlap(t.exts, e) && Above(RightExts(c), End(e))
  }

  /** e belongs behind all of its leaf, and the next leaf has room. */
  ghost predicate NextHasRoom(cp: Caps, c: Ctx, t: Tree, e: Extent) {
    t.Leaf? && t.exts != [] && HasNext(c) && t.exts[|t.exts| - 1].lblk < e.lblk && HasRoom(cp, NextLeaf(c, t).1)
  }

  ghost predicate HasRoom(cp: Caps, t: Tree) {
    t.Leaf? && |t.exts| < LeafCap(cp, t.loc)
  }

  /** Where mlfs_ext_split cuts: the first block that goes to the new leaf. */
  function Border(exts: seq<Extent>, pos: nat, e: Extent): nat {
    if pos + 1 < |exts| then exts[pos + 1].lblk else e.lblk
  }

  ghost function LeftHalf(t: Tree, pos: nat): Tree
    requires t.Leaf? && pos < |t.exts|
  {
    Leaf(t.loc, t.exts[..pos + 1])
  }

  ghost function RightHalf(t: Tree, pos: nat, nb: nat): Tree
    requires t.Leaf? && pos < |t.exts|
  {
    Leaf(nb, t.exts[pos + 1..])
  }

  lemma {:induction false} AllParts(c: Ctx, t: Tree)
    requires Sorted(All(c, t))
    ensures Sorted(LeftExts(c)) && Sorted(Exts(t)) && Sorted(RightExts(c))
    ensures forall i, j :: 0 <= i < |LeftExts(c)| && 0 <= j < |Exts(t)| ==> End(LeftExts(c)[i]) <= Exts(t)[j].lblk
    ensures forall i, j :: 0 <= i < |Exts(t)| && 0 <= j < |RightExts(c)| ==> End(Exts(t)[i]) <= RightExts(c)[j].lblk
  {
    SortedParts(LeftExts(c) + Exts(t), RightExts(c));
    SortedParts(LeftExts(c), Exts(t));
    assert forall i :: 0 <= i < |Exts(t)| ==> (LeftExts(c) + Exts(t))[|LeftExts(c)| + i] == Exts(t)[i];
  }

  lemma {:induction false} SortedLeaf(c: Ctx, t: Tree)
    requires Sorted(All(c, t))
    ensures Sorted(Exts(t))
  {
    AllParts(c, t);
  }

  lemma {:induction false} LeafApart(c: Ctx, t: Tree, e: Extent)
    requires NoOverlap(All(c, t), e)
    ensures NoOverlap(LeftExts(c), e) && NoOverlap(Exts(t), e) && NoOverlap(RightExts(c), e)
  {
    var s := All(c, t);
    assert forall i :: 0 <= i < |LeftExts(c)| ==> s[i] == LeftExts(c)[i];
    assert forall i :: 0 <= i < |Exts(t)| ==> s[|LeftExts(c)| + i] == Exts(t)[i];
    assert forall i :: 0 <= i < |RightExts(c)| ==> s[|LeftExts(c)| + |Exts(t)| + i] == RightExts(c)[i];
  }

  /** Everything left of the cursor ends before e, everything right of it starts after e. */
  lemma {:induction false} PlacedBetween(cp: Caps, c: Ctx, t: Tree, e: Extent)
    requires Placed(cp, c, t, e) && Shaped(cp, t, 0) && KeysOk(c, First(t))
    ensures Below(LeftExts(c), e.lblk) && NoOverlap(t.exts, e) && Above(RightExts(c), End(e))
  {
    AllParts(c, t);
    LeafApart(c, t, e);
    RouteRight(cp, c, 0, e.lblk);
    if LeftExts(c) != [] {
      RouteLeft(c, First(t), e.lblk);
      assert Below(LeftExts(c), t.exts[0].lblk);
    }
  }

  lemma {:induction false} ReadyRoomy(cp: Caps, c: Ctx, t: Tree, e: Extent, pos: int)
    requires Ready(cp, c, t, e, pos) && |t.exts| < LeafCap(cp, t.loc)
    ensures Roomy(cp, c, t, e, pos)
  {
    PlacedBetween(cp, c, t, e);
  }

  // ---------- The extent goes into the leaf ----------

  /** e belongs between t.exts[..p] and t.exts[p..]. */
  ghost predicate Fits(c: Ctx, t: Tree, e: Extent, p: nat) {
    && t.Leaf? && p <= |t.exts|
    && Below(LeftExts(c), e.lblk) && Below(t.exts[..p], e.lblk)
    && Above(t.exts[p..], End(e)) && Above(RightExts(c), End(e))
  }

  function Inserted(s: seq<Extent>, p: nat, e: Extent): seq<Extent>
    requires p <= |s|
  {
    s[..p] + [e] + s[p..]
  }

  lemma {:induction false} FitsInsert(c: Ctx, t: Tree, e: Extent, p: nat)
    requires Sorted(All(c, t)) && Good(e) && Fits(c, t, e, p)
    ensures var s := Inserted(t.exts, p, e);
            && Sorted(LeftExts(c) + s + RightExts(c)) && Sorted(s)
            && BlockMap(LeftExts(c) + s + RightExts(c)) == BlockMap(All(c, t)) + Run(e)
            && PhysAll(s) == PhysAll(t.exts) + Phys(e)
  {
    var s := Inserted(t.exts, p, e);
    var a, b := LeftExts(c) + t.exts[..p], t.exts[p..] + RightExts(c);
    assert All(c, t) == a + b;
    assert LeftExts(c) + s + RightExts(c) == a + [e] + b;
    InsertBetween(a, e, b);
    assert t.exts == t.exts[..p] + t.exts[p..];
    AllParts(c, t);
    InsertBetween(t.exts[..p], e, t.exts[p..]);
  }

  /** The position the code picks after a search. */
  function NearPos(s: seq<Extent>, pos: int, e: Extent): nat
    requires -1 <= pos < |s|
    ensures NearPos(s, pos, e) <= |s|
  {
    if pos < 0 then 0 else if e.lblk > s[pos].lblk then pos + 1 else pos
  }

  /** Leaf t after taking e in where a search left it. */
  ghost function WithExtent(t: Tree, pos: int, e: Extent): Tree
    requires t.Leaf? && -1 <= pos < |t.exts|
  {
    Leaf(t.loc, Inserted(t.exts, NearPos(t.exts, pos, e), e))
  }

  lemma {:induction false} RoomyFits(cp: Caps, c: Ctx, t: Tree, e: Extent, pos: int)
    requires Roomy(cp, c, t, e, pos)
    ensures NearPos(t.exts, pos, e) <= |t.exts| && Fits(c, t, e, NearPos(t.exts, pos, e))
  {
    AllParts(c, t);
    var p := NearPos(t.exts, pos, e);
    forall i | 0 <= i < p ensures End(t.exts[i]) <= e.lblk {
      assert i < pos ==> Precedes(t.exts[i], t.exts[pos]);
    }
    forall i | p <= i < |t.exts| ensures End(e) <= t.exts[i].lblk {
      assert pos < i ==> Precedes(t.exts[pos], t.exts[i]);
      assert pos + 1 < i ==> Precedes(t.exts[pos + 1], t.exts[i]);
    }
  }

  lemma {:induction false} MergeInserted(s: seq<Extent>, i: nat, e: Extent)
    requires i < |s|
    ensures s[i := Merged(s[i], e)] == MergeAt(Inserted(s, i + 1, e), i)
    ensures s[i := Merged(e, s[i])] == MergeAt(Inserted(s, i, e), i)
  {
    assert Inserted(s, i, e)[i + 1] == s[i] && Inserted(s, i, e)[i + 2..] == s[i + 1..];
    assert Inserted(s, i + 1, e)[i + 1] == e && Inserted(s, i + 1, e)[i + 2..] == s[i + 1..];
  }

  /** Growing a neighbour by e is the same as inserting e and merging. */
  lemma {:induction false} AppendFits(cp: Caps, c: Ctx, t: Tree, e: Extent, i: nat)
    requires Placed(cp, c, t, e) && Shaped(cp, t, 0) && KeysOk(c, First(t))
    requires i < |t.exts| && CanMerge(t.exts[i], e)
    ensures Fits(c, t, e, i + 1)
  {
    PlacedBetween(cp, c, t, e);
    AllParts(c, t);
    assert forall j :: 0 <= j < i ==> Precedes(t.exts[j], t.exts[i]);
    assert forall j :: i < j < |t.exts| ==> Precedes(t.exts[i], t.exts[j]);
  }

  lemma {:induction false} PrependFits(cp: Caps, c: Ctx, t: Tree, e: Extent, i: nat)
    requires Placed(cp, c, t, e) && Shaped(cp, t, 0) && KeysOk(c, First(t))
    requires i < |t.exts| && CanMerge(e, t.exts[i])
    ensures Fits(c, t, e, i)
  {
    PlacedBetween(cp, c, t, e);
    AllParts(c, t);
    assert forall j :: 0 <= j < i ==> Precedes(t.exts[j], t.exts[i]);
    assert forall j :: i < j < |t.exts| ==> Precedes(t.exts[i], t.exts[j]);
  }

  /** In a full leaf the cut lies strictly above the leaf's first block. */
  lemma {:induction false} BorderAbove(cp: Caps, c: Ctx, t: Tree, e: Extent, pos: int)
    requires Ready(cp, c, t, e, pos) && |t.exts| >= 2
    ensures First(t) < Border(t.exts, pos, e)
    ensures pos + 1 < |t.exts| ==> e.lblk < Border(t.exts, pos, e)
  {
    AllParts(c, t);
    LeafApart(c, t, e);
    if pos + 1 < |t.exts| {
      assert Precedes(t.exts[0], t.exts[pos + 1]);
    } else {
      assert Precedes(t.exts[0], t.exts[pos]);
    }
  }

  /** Splitting leaves room for e where a new search for it will lead. */
  lemma {:induction false} AfterSplit(cp: Caps, c: Ctx, t: Tree, e: Extent, pos: int, nb: nat, news: seq<nat>)
    returns (c': Ctx, t': Tree)
    requires Ready(cp, c, t, e, pos) && |t.exts| == LeafCap(cp, t.loc) >= 2
    requires CanSplit(cp, c) && |news| == FullLevels(cp, c) && INODE !in news && nb != INODE
    ensures var b, l, r := Border(t.exts, pos, e), LeftHalf(t, pos), RightHalf(t, pos, nb);
            Plug(c', t') == Plug(SplitLeft(cp, c, b, r, news), l)
    ensures Depth(c') == Depth(c) && All(c', t') == All(c, t) && OrderedC(c', t'.loc) && Route(c', e.lblk)
    ensures Roomy(cp, c', t', e, if pos + 1 < |t.exts| then pos else -1)
  {
    SplitSameTree(cp, c, LeftHalf(t, pos), Border(t.exts, pos, e), RightHalf(t, pos, nb), news);
    if pos + 1 < |t.exts| {
      c', t' := SplitLeft(cp, c, Border(t.exts, pos, e), RightHalf(t, pos, nb), news), LeftHalf(t, pos);
      AfterSplitLeft(cp, c, t, e, pos, nb, news);
    } else {
      c', t' := SplitRight(cp, c, LeftHalf(t, pos), Border(t.exts, pos, e), news), RightHalf(t, pos, nb);
      AfterSplitRight(cp, c, t, e, pos, nb, news);
    }
  }

  lemma {:induction false} AfterSplitLeft(cp: Caps, c: Ctx, t: Tree, e: Extent, pos: int, nb: nat, news: seq<nat>)
    requires Ready(cp, c, t, e, pos) && |t.exts| == LeafCap(cp, t.loc) && pos + 1 < |t.exts|
    requires CanSplit(cp, c) && |news| == FullLevels(cp, c) && INODE !in news && nb != INODE
    ensures var b, l, r := Border(t.exts, pos, e), LeftHalf(t, pos), RightHalf(t, pos, nb);
            var c' := SplitLeft(cp, c, b, r, news);
            Roomy(cp, c', l, e, pos) && All(c', l) == All(c, t) && OrderedC(c', l.loc) && Route(c', e.lblk)
  {
    var b, l, r := Border(t.exts, pos, e), LeftHalf(t, pos), RightHalf(t, pos, nb);
    var c' := SplitLeft(cp, c, b, r, news);
    PlacedBetween(cp, c, t, e);
    BorderAbove(cp, c, t, e, pos);
    SplitExts(cp, c, b, r, news);
    assert t.exts == l.exts + r.exts;
    assert LeftExts(c) + l.exts + (r.exts + RightExts(c)) == All(c, t);
    SplitLeftShaped(cp, c, b, r, news, 0);
    SplitLeftRoute(cp, c, b, r, news, e.lblk);
    PlugExts(c', l);
    PlugOrdered(cp, c', l, 0);
    PlacedBetween(cp, c', l, e);
  }

  lemma {:induction false} AfterSplitRight(cp: Caps, c: Ctx, t: Tree, e: Extent, pos: int, nb: nat, news: seq<nat>)
    requires Ready(cp, c, t, e, pos) && |t.exts| == LeafCap(cp, t.loc) >= 2 && pos + 1 == |t.exts|
    requires CanSplit(cp, c) && |news| == FullLevels(cp, c) && INODE !in news && nb != INODE
    ensures var b, l, r := Border(t.exts, pos, e), LeftHalf(t, pos), RightHalf(t, pos, nb);
            var c' := SplitRight(cp, c, l, b, news);
            Roomy(cp, c', r, e, -1) && All(c', r) == All(c, t) && OrderedC(c', r.loc) && Route(c', e.lblk)
  {
    var b, l, r := Border(t.exts, pos, e), LeftHalf(t, pos), RightHalf(t, pos, nb);
    assert l == t && r.exts == [];
    PlacedBetween(cp, c, t, e);
    BorderAbove(cp, c, t, e, pos);
    PlugExts(c, t);
    PlugOrdered(cp, c, t, 0);
    SplitRightShaped(cp, c, t, b, news, 0, nb);
    SplitRightExts(cp, c, t, b, news);
    SortedLeaf(c, t);
    assert All(SplitRight(cp, c, t, b, news), r) == All(c, t);
    forall i | 0 <= i < |t.exts| ensures End(t.exts[i]) <= e.lblk {
      assert i < pos ==> Precedes(t.exts[i], t.exts[pos]);
    }
  }

  lemma {:induction false} AfterGrow(cp: Caps, c: Ctx, t: Tree, e: Extent, pos: int, nb: nat)
    requires Ready(cp, c, t, e, pos) && nb != INODE
    ensures var c', t' := GrowC(c, nb, First(t)), GrowT(c, t, nb);
            Ready(cp, c', t', e, pos) && All(c', t') == All(c, t) && CanSplit(cp, c')
  {
    GrowFacts(cp, c, nb, First(t), 0);
  }

  lemma {:induction false} ReadyOrdered(cp: Caps, c: Ctx, t: Tree, e: Extent, pos: int)
    requires Ready(cp, c, t, e, pos)
    ensures OrderedC(c, t.loc)
  {
    PlugExts(c, t);
    PlugOrdered(cp, c, t, 0);
  }

  /** The next leaf, when it has room, can take an extent that lies after this leaf. */
  lemma {:induction false} NextRoomy(cp: Caps, c: Ctx, t: Tree, e: Extent, pos: int)
    requires Ready(cp, c, t, e, pos) && HasNext(c) && e.lblk > t.exts[|t.exts| - 1].lblk
    ensures var (c', t') := NextLeaf(c, t);
            && Plug(c', t') == Plug(c, t) && Depth(c') == Depth(c) && All(c', t') == All(c, t) && t'.Leaf?
            && OrderedC(c', t'.loc) && Route(c', NextKey(c)) && Sorted(t'.exts)
            && (|t'.exts| < LeafCap(cp, t'.loc) ==> Roomy(cp, c', t', e, 0))
            && forall p :: LeafAt(t'.exts, NextKey(c), p) ==> p == 0
  {
    var (c', t') := NextLeaf(c, t);
    PlugExts(c, t);
    NextLeafFacts(cp, c, t, 0, e.lblk);
    PlugExts(c', t');
    PlugOrdered(cp, c', t', 0);
    PlacedBetween(cp, c, t, e);
    AllParts(c, t);
    AllParts(c', t');
    LeafApart(c', t', e);
    forall i | 0 <= i < |t.exts| ensures End(t.exts[i]) <= e.lblk {
      assert i < |t.exts| - 1 ==> Precedes(t.exts[i], t.exts[|t.exts| - 1]);
    }
    var s, k := t'.exts, NextKey(c);
    assert s[0].lblk == k;
    forall i | 0 < i < |s| ensures k < s[i].lblk { assert Precedes(s[0], s[i]); }
    forall i | 0 <= i < |RightExts(c')| ensures End(e) <= RightExts(c')[i].lblk {
      assert End(s[0]) <= RightExts(c')[i].lblk;
    }
  }

  /** The cursor stands on a leaf of a well-formed tree. */
  ghost predicate Settled(cp: Caps, c: Ctx, t: Tree) {
    t.Leaf? && ShapedC(cp, c, 0) && Shaped(cp, t, 0) && KeysOk(c, First(t)) && Sorted(All(c, t))
  }

  lemma {:induction false} SettledOrdered(cp: Caps, c: Ctx, t: Tree)
    requires Settled(cp, c, t)
    ensures OrderedC(c, t.loc) && Sorted(t.exts)
  {
    PlugExts(c, t);
    PlugOrdered(cp, c, t, 0);
    AllParts(c, t);
  }

  /** e is in the tree, and the cursor stands on the last leaf that starts before e or holds it. */
  ghost predicate Around(c: Ctx, t: Tree, e: Extent) {
    e in All(c, t) && Below(LeftExts(c), e.lblk) && Above(RightExts(c), e.lblk)
  }

  lemma {:induction false} NextLeft(cp: Caps, c: Ctx, t: Tree, e: Extent, pos: int)
    requires Ready(cp, c, t, e, pos) && HasNext(c)
    ensures LeftExts(NextLeaf(c, t).0) == LeftExts(c) + t.exts && NextLeaf(c, t).1.Leaf? && NextLeaf(c, t).1.exts != []
    ensures e.lblk < First(NextLeaf(c, t).1)
  {
    PlugExts(c, t);
    NextLeafFacts(cp, c, t, 0, e.lblk);
  }

  lemma {:induction false} NextDepth(cp: Caps, c: Ctx, t: Tree, e: Extent, pos: int, k: nat)
    requires Ready(cp, c, t, e, pos) && HasNext(c)
    ensures Depth(FixKeys(NextLeaf(c, t).0, k)) == Depth(c)
  {
    PlugExts(c, t);
    NextLeafFacts(cp, c, t, 0, e.lblk);
    FixKeysDepth(NextLeaf(c, t).0, k);
  }

  /** After e went into the next leaf, the old cursor still leads to the same leaf, and what
      lies to its right starts no earlier than e. */
  lemma {:induction false} BackFromNext(cp: Caps, c: Ctx, t: Tree, e: Extent, pos: int, t': Tree) returns (cb: Ctx)
    requires Ready(cp, c, t, e, pos) && HasNext(c) && e.lblk > t.exts[|t.exts| - 1].lblk
    requires var (cn, tn) := NextLeaf(c, t);
             tn.Leaf? && tn.exts != [] && t' == WithExtent(tn, 0, e) && e.lblk < First(tn)
             && Settled(cp, FixKeys(cn, First(t')), t') && LeftExts(cn) == LeftExts(c) + t.exts
    ensures var cn := FixKeys(NextLeaf(c, t).0, First(t'));
            Plug(cb, t) == Plug(cn, t') && Depth(cb) == Depth(c) && PathOf(cb) == PathOf(c)
            && Settled(cp, cb, t) && All(cb, t) == All(cn, t') && Around(cb, t, e)
  {
    var (cn, tn) := NextLeaf(c, t);
    var cf := FixKeys(cn, First(t'));
    FixKeysFacts(cp, cn, First(t'));
    cb := NextBack(cp, c, t, 0, First(t'), t');
    PlacedBetween(cp, c, t, e);
    PlugExts(cb, t);
    PlugExts(cf, t');
    var a := LeftExts(c) + t.exts;
    assert All(cb, t) == a + RightExts(cb) && All(cf, t') == a + (t'.exts + RightExts(cn));
    assert RightExts(cb) == All(cb, t)[|a|..] == t'.exts + RightExts(cn);
    assert t'.exts[0] == e && RightExts(cb)[0] == e;
    AllParts(cb, t);
    SortedRest(RightExts(cb));
    assert All(cb, t)[|a|] == e;
  }

  /** What an insertion without merging leaves around its own cursor. */
  lemma {:induction false} AroundInserted(cp: Caps, c: Ctx, t: Tree, e: Extent, pos: int)
    requires Roomy(cp, c, t, e, pos)
    ensures var t' := WithExtent(t, pos, e);
            var c' := FixKeys(c, First(t'));
            Around(c', t', e)
  {
    var t' := WithExtent(t, pos, e);
    var c' := FixKeys(c, First(t'));
    FixKeysFacts(cp, c, First(t'));
    assert t'.exts[NearPos(t.exts, pos, e)] == e;
    assert All(c', t')[|LeftExts(c)| + NearPos(t.exts, pos, e)] == e;
  }
}
