/** mlfs_ext_get_blocks in plain create mode, as its callers use it: seen as a map from file
    blocks to device blocks. */
module PlainCreate {
  import opened Extents
  import opened LookupSpec
  import opened KernfsExtents
  import ExtentTrees
  import ExtentLedger

  /** Where the file's blocks are, written or not. */
  ghost function Places(m: map<int, Cell>): map<int, int> {
    map x | x in m :: m[x].pblk
  }

  /** The same, as a relation. */
  ghost predicate PlacesOf(b: map<int, int>, m: map<int, Cell>) {
    forall x {:trigger x in m} :: (x in m <==> x in b) && (x in m ==> b[x] == m[x].pblk)
  }

  lemma {:induction false} PlacesAre(m: map<int, Cell>)
    ensures PlacesOf(Places(m), m)
  {
    forall x ensures (x in m <==> x in Places(m)) && (x in m ==> Places(m)[x] == m[x].pblk) {}
  }

  lemma {:induction false} PlacesUnique(b: map<int, int>, m: map<int, Cell>)
    requires PlacesOf(b, m)
    ensures b == Places(m)
  {
    forall x ensures x in b <==> x in Places(m) { assert x in m <==> x in b; }
    forall x | x in b ensures b[x] == Places(m)[x] { assert x in m; }
  }

  /** The request reaches into no extent behind it unless the file has a block at or before it. */
  ghost predicate Clear(keys: set<int>, x: nat, len: nat) {
    (exists y :: y in keys && y <= x) || (forall y :: y in keys ==> x + len <= y)
  }

  /** That is what ClearOfFirst says of the extents. */
  lemma {:induction false} ClearIsClear(s: seq<Extent>, x: nat, len: nat)
    requires Sorted(s)
    ensures ClearOfFirst(s, x, len) <==> Clear(BlockMap(s).Keys, x, len)
  {
    if s != [] {
      FirstKey(s);
    }
  }

  lemma {:induction false} FirstKey(s: seq<Extent>)
    requires Sorted(s) && s != []
    ensures s[0].lblk in BlockMap(s) && forall y :: y in BlockMap(s) ==> s[0].lblk <= y
  {
    BlockMapAt(s, 0, s[0].lblk);
    SortedRest(s);
    KeysAbove(s, s[0].lblk);
  }

  /** File blocks x, ..., x + n - 1 are device blocks p, ..., p + n - 1: they were before, or are all
      new to the file and come from blocks that were free; and no other block moves. */
  ghost predicate Mapped(b0: map<int, int>, b: map<int, int>, used0: set<int>, x: nat, p: nat, n: nat) {
    && (forall y :: y in b <==> y in b0 || x <= y < x + n)
    && (forall y :: y in b0 ==> b[y] == b0[y])
    && (forall y :: x <= y < x + n ==> b[y] == p + (y - x))
    && (if x in b0 then forall y :: x <= y < x + n ==> y in b0
        else Span(p, n) !! used0 && forall y :: x <= y < x + n ==> y !in b0)
  }

  lemma {:induction false} RunAt(e: Extent, y: nat)
    requires e.lblk <= y < End(e)
    ensures y in Run(e) && Run(e)[y] == Cell(e.pblk + (y - e.lblk), Unwritten(e))
  {
    assert CellAt(e, y) == Cell(e.pblk + (y - e.lblk), Unwritten(e));
  }

  lemma {:induction false} FoundIsMapped(before: map<int, Cell>, now: map<int, Cell>, used0: set<int>, x: nat,
                                         len: nat, n: nat, m: MapBlocks, e: Extent)
    requires FoundSpec(before, now, x, len, true, n, m, e)
    ensures Mapped(Places(before), Places(now), used0, x, m.pblk, n)
  {
    forall y | x <= y < x + n ensures y in before && y in now && now[y].pblk == before[y].pblk == m.pblk + (y - x) {
      RunAt(e, y);
    }
  }

  lemma {:induction false} NewIsMapped(before: map<int, Cell>, now: map<int, Cell>, used0: set<int>, x: nat, len: nat,
                                       supply: nat, n: nat, m: MapBlocks, e: Extent)
    requires NewSpec(before, now, x, len, false, supply, n, m, e) && Span(e.pblk, n) !! used0
    ensures Mapped(Places(before), Places(now), used0, x, m.pblk, n)
  {
    assert e.lblk == x;
    forall y ensures y in Run(e) <==> x <= y < x + n { if x <= y < x + n { RunAt(e, y); } }
    forall y | x <= y < x + n ensures y in now && now[y].pblk == m.pblk + (y - x) { RunAt(e, y); }
  }

  /** How long the run is: the rest of the block's extent, or the room that there is, as far as asked for and, for
      new blocks, as far as the allocator has them. */
  ghost predicate Answered(s: seq<Extent>, before: map<int, Cell>, x: nat, len: nat, supply: nat, n: nat) {
    if x in before then exists r :: RestLen(s, x, r) && n == Least(len, r) else Granted(before, x, len, supply, n)
  }

  /** mlfs_ext_get_blocks with MLFS_GET_BLOCKS_CREATE and no other flag. */
  method GetRun(tree: ExtentTree, x: nat, len: nat, supply: nat) returns (p: nat, n: nat)
    requires tree.Valid() && 1 <= len && 1 <= supply && x < EXT_MAX_BLOCKS
    requires x !in tree.Blocks() ==> len <= EXT_INIT_MAX_LEN && Clear(tree.Blocks().Keys, x, len)
    modifies tree
    ensures tree.Valid() && 1 <= n <= len
    ensures Answered(old(ExtentTrees.Exts(tree.tree)), old(tree.Blocks()), x, len, supply, n)
    ensures Mapped(Places(old(tree.Blocks())), Places(tree.Blocks()), old(tree.used), x, p, n)
  {
    ghost var before, used0 := tree.Blocks(), tree.used;
    ClearIsClear(ExtentTrees.Exts(tree.tree), x, len);
    var m;
    ghost var e;
    n, m, e := tree.GetBlocks(x, len, true, false, false, supply);
    p := m.pblk;
    if x in before {
      FoundIsMapped(before, tree.Blocks(), used0, x, len, n, m, e);
    } else {
      NewIsMapped(before, tree.Blocks(), used0, x, len, supply, n, m, e);
    }
  }

  /** The file's blocks are its own: each used, no two the same, none anyone else's. */
  lemma {:induction false} PlacesOwned(tree: ExtentTree)
    requires tree.Valid()
    ensures var b := Places(tree.Blocks());
            && (forall x :: x in b ==> b[x] >= 0 && b[x] in tree.used && b[x] !in tree.others)
            && (forall x, y :: x in b && y in b && x != y ==> b[x] != b[y])
  {
    var m := tree.Blocks();
    forall x, y | x in m && y in m ensures m[x].pblk in tree.used && m[x].pblk !in tree.others
        && (x != y ==> m[x].pblk != m[y].pblk) {
      ExtentLedger.NoSharing(tree, x, y);
    }
  }
}
