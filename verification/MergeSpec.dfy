/** Merging neighbouring extents of a leaf: what is joined, and what is left that could still be. */
module MergeSpec {
  import opened Extents
  import opened ExtentTrees
  import opened InsertSpec

  /** Two non-empty runs that map the same blocks over the same interval. */
  ghost predicate SameRun(s: seq<Extent>, s': seq<Extent>) {
    && s != [] && s' != [] && Sorted(s) && Sorted(s')
    && BlockMap(s) == BlockMap(s') && PhysAll(s) == PhysAll(s')
    && s[0].lblk == s'[0].lblk && End(s[|s| - 1]) == End(s'[|s'| - 1])
  }

  lemma {:induction false} SameRunWithin(a: seq<Extent>, s: seq<Extent>, s': seq<Extent>, b: seq<Extent>)
    requires SameRun(s, s') && Sorted(a + s + b)
    ensures Sorted(a + s' + b) && BlockMap(a + s' + b) == BlockMap(a + s + b)
  {
    forall i | 0 <= i < |s'| ensures s[0].lblk <= s'[i].lblk && End(s'[i]) <= End(s[|s| - 1]) {
      assert i > 0 ==> Precedes(s'[0], s'[i]);
      assert i < |s'| - 1 ==> Precedes(s'[i], s'[|s'| - 1]);
    }
    SortedReplace(a, s, s', b);
    SameSegment(a, s, s', b);
  }

  /** One extent that can be stored maps what the two map. */
  ghost predicate OneExtent(a: Extent, b: Extent) {
    exists e :: Good(e) && Run(e) == Run(a) + Run(b)
  }

  /** An extent that maps what a and b map in a row. */
  lemma {:induction false} OneRun(a: Extent, b: Extent, e: Extent)
    requires Good(a) && Good(b) && Precedes(a, b) && Good(e) && Run(e) == Run(a) + Run(b)
    ensures CanMerge(a, b)
  {
    var m := Run(a) + Run(b);
    assert a.lblk in Run(a) && a.lblk in m && a.lblk in Run(e);
    assert End(b) - 1 in Run(b) && End(b) - 1 in m && End(b) - 1 in Run(e);
    assert e.lblk in Run(e) && e.lblk in m;
    assert End(e) - 1 in Run(e) && End(e) - 1 in m;
    assert End(a) in Run(e) && End(a) in m && End(a) !in Run(a);
    assert b.lblk in Run(b) && m[b.lblk] == Run(b)[b.lblk] == Run(e)[b.lblk];
    assert m[a.lblk] == Run(a)[a.lblk] == Run(e)[a.lblk];
  }

  /** mlfs_can_extents_be_merged is right: it allows a merge exactly when there is an extent to merge into. */
  lemma {:induction false} CanMergeExactly(a: Extent, b: Extent)
    requires Good(a) && Good(b) && Precedes(a, b)
    ensures CanMerge(a, b) <==> OneExtent(a, b)
  {
    if CanMerge(a, b) {
      MergedFacts(a, b);
      assert Good(Merged(a, b)) && Run(Merged(a, b)) == Run(a) + Run(b);
    }
    if OneExtent(a, b) {
      var e :| Good(e) && Run(e) == Run(a) + Run(b);
      OneRun(a, b, e);
    }
  }

  /** r is s with the extents from i to k - 1 joined into one. */
  ghost predicate Joins(s: seq<Extent>, r: seq<Extent>, i: nat, k: nat) {
    && i < k <= |s| && |r| == |s| - (k - i - 1) && r[..i] == s[..i] && r[i + 1..] == s[k..]
    && r[i].lblk == s[i].lblk && r[i].pblk == s[i].pblk && Unwritten(r[i]) == Unwritten(s[i])
    && End(r[i]) == End(s[k - 1])
  }

  /** The extent at i cannot be merged with the one after it. */
  ghost predicate Stops(s: seq<Extent>, i: nat) {
    i + 1 < |s| ==> !CanMerge(s[i], s[i + 1])
  }

  lemma {:induction false} JoinsNext(s: seq<Extent>, r: seq<Extent>, i: nat, k: nat)
    requires Joins(s, r, i, k) && Sorted(r) && i + 1 < |r| && CanMerge(r[i], r[i + 1])
    ensures Joins(s, MergeAt(r, i), i, k + 1)
  {
    var m := MergeAt(r, i);
    MergedFacts(r[i], r[i + 1]);
    assert r[i + 1..][0] == r[i + 1] && s[k..][0] == s[k];
    assert m[i + 1..] == r[i + 2..] == r[i + 1..][1..] == s[k..][1..] == s[k + 1..];
    assert m[..i] == r[..i];
    WithLenReads(r[i], Len(r[i]) + Len(r[i + 1]), Unwritten(r[i]));
  }

  lemma {:induction false} JoinsAt(s: seq<Extent>, r: seq<Extent>, i: nat, k: nat, j: nat)
    requires Joins(s, r, i, k) && j < |r|
    ensures j < i ==> r[j] == s[j]
    ensures i < j ==> r[j] == s[j + (k - i - 1)]
  {
    if j < i {
      assert r[..i][j] == s[..i][j];
    } else if i < j {
      assert r[i + 1..][j - i - 1] == s[k..][j - i - 1];
    }
  }

  /** A neighbour on the left that could not be merged with the first of the joined extents cannot be
      merged with all of them. */
  lemma {:induction false} LeftStops(s: seq<Extent>, r: seq<Extent>, i: nat, k: nat)
    requires Sorted(s) && Joins(s, r, i, k) && 0 < i && Stops(s, i - 1)
    ensures Stops(r, i - 1)
  {
    JoinsAt(s, r, i, k, i - 1);
    assert i < k - 1 ==> Precedes(s[i], s[k - 1]);
    assert Len(s[i]) <= Len(r[i]);
  }

  /** No two neighbours of a leaf can be merged. */
  ghost predicate Coalesced(s: seq<Extent>) {
    forall i: nat :: i < |s| ==> Stops(s, i)
  }

  /** mlfs_ext_try_to_merge on a leaf: which extents it joins. */
  ghost predicate MergedAround(s: seq<Extent>, r: seq<Extent>, pos: nat, i: nat, k: nat) {
    && pos < |s| && i == (if pos > 0 && !Stops(s, pos - 1) then pos - 1 else pos)
    && Joins(s, r, i, k) && Stops(r, i)
  }

  /** If no neighbours but those around pos could be merged, none can be afterwards. */
  lemma {:induction false} MergeCoalesces(s: seq<Extent>, r: seq<Extent>, pos: nat, i: nat, k: nat)
    requires Sorted(s) && MergedAround(s, r, pos, i, k)
    requires forall j: nat :: j < |s| && j + 1 != pos && j != pos ==> Stops(s, j)
    ensures Coalesced(r)
  {
    forall j: nat | j < |r| ensures Stops(r, j) {
      JoinsAt(s, r, i, k, j);
      if j + 1 < |r| { JoinsAt(s, r, i, k, j + 1); }
      if j + 1 == i {
        LeftStops(s, r, i, k);
      } else if j < i {
        assert Stops(s, j);
      } else if j > i {
        assert Stops(s, j + (k - i - 1));
      }
    }
  }

  /** The blocks from `from` to `to` - 1 lie in one extent, which cannot be merged with the one after it; nor with the
      one before it, unless they have been merged to the left already. */
  ghost predicate Joined(s: seq<Extent>, from: nat, to: nat) {
    exists q: nat ::
      && q < |s| && s[q].lblk <= from && to <= End(s[q]) && Stops(s, q)
      && (q > 0 && s[q].lblk == from ==> Stops(s, q - 1))
  }

  lemma {:induction false} MergeJoins(s: seq<Extent>, r: seq<Extent>, pos: nat, i: nat, k: nat, from: nat, to: nat)
    requires Sorted(s) && MergedAround(s, r, pos, i, k) && s[pos].lblk <= from && to <= End(s[pos])
    ensures Joined(r, from, to)
  {
    assert pos < k - 1 ==> Precedes(s[pos], s[k - 1]);
    if i < pos {
      assert Precedes(s[i], s[pos]);
    } else if i > 0 {
      LeftStops(s, r, i, k);
    }
    assert r[i].lblk <= from && to <= End(r[i]);
  }

  /** e continues the extent found before it, or runs up to the next one or the one found behind it. */
  ghost predicate Extends(s: seq<Extent>, pos: nat, e: Extent) {
    pos < |s| && (CanMerge(s[pos], e) || if pos + 1 < |s| && End(s[pos]) < e.lblk then CanMerge(e, s[pos + 1])
                                         else CanMerge(e, s[pos]))
  }

  /** A leaf that is the only one, below the root, and fits into the inode. */
  ghost predicate Collapsible(cp: Caps, c: Ctx, t: Tree) {
    t.Leaf? && c.In? && c.up.Top? && c.left == [] && c.right == [] && |t.exts| <= cp.rootLeaf
  }

  /** An extent of its own covers exactly the blocks from `from` to `to` - 1. */
  ghost predicate Alone(s: seq<Extent>, from: nat, to: nat) {
    exists q :: 0 <= q < |s| && s[q].lblk == from && End(s[q]) == to
  }

  /** The blocks are in a leaf of the tree where they have been merged with their neighbours. */
  ghost predicate Neat(cp: Caps, tree: Tree, from: nat, to: nat) {
    exists c, t :: tree == Plug(c, t) && t.Leaf? && Joined(t.exts, from, to) && !Collapsible(cp, c, t)
  }

  /** With MLFS_GET_BLOCKS_PRE_IO blocks get an extent of their own, otherwise they are merged. */
  ghost predicate Filed(cp: Caps, tree: Tree, preIO: bool, from: nat, to: nat) {
    if preIO then Alone(Exts(tree), from, to) else Neat(cp, tree, from, to)
  }

  lemma {:induction false} FiledAt(cp: Caps, tree: Tree, preIO: bool, c: Ctx, t: Tree, from: nat, to: nat)
    requires tree == Plug(c, t) && Exts(tree) == All(c, t) && t.Leaf?
    requires if preIO then Alone(All(c, t), from, to) else Joined(t.exts, from, to) && !Collapsible(cp, c, t)
    ensures Filed(cp, tree, preIO, from, to)
  {
  }
}
