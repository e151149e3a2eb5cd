/** Tree nodes as they sit in memory: one node per location, index entries holding
    block numbers, and how such a store represents a tree around a cursor. */
module ExtentStore {
  import opened Extents
  import opened ExtentTrees

  /** A node with its header fields; eh_entries is the length of the sequence. */
  datatype Node =
    | LeafNode(max: nat, exts: seq<Extent>)
    | IndexNode(depth: nat, max: nat, idxs: seq<Idx>)

  type Store = map<int, Node>

  function NodeDepth(n: Node): nat {
    if n.LeafNode? then 0 else n.depth
  }

  function EntryCount(n: Node): nat {
    if n.LeafNode? then |n.exts| else |n.idxs|
  }

  /** A root node's content with the capacity of a whole block. */
  function InBlock(cp: Caps, n: Node): Node {
    match n
    case LeafNode(_, exts) => LeafNode(cp.blkLeaf, exts)
    case IndexNode(depth, _, idxs) => IndexNode(depth, cp.blkIdx, idxs)
  }

  ghost predicate Repr(cp: Caps, st: Store, t: Tree, d: nat) {
    match t
    case Leaf(loc, exts) => d == 0 && loc in st && st[loc] == LeafNode(LeafCap(cp, loc), exts)
    case Index(loc, kids) =>
      && d > 0 && loc in st
      && st[loc] == IndexNode(d, IdxCap(cp, loc), Idxs(kids))
      && forall i :: 0 <= i < |kids| ==> Repr(cp, st, kids[i].sub, d - 1)
  }

  ghost predicate KidsRepr(cp: Caps, st: Store, ks: seq<Kid>, d: nat) {
    forall i :: 0 <= i < |ks| ==> Repr(cp, st, ks[i].sub, d)
  }

  /** The store around a hole of height d whose node is at location `hole`. */
  ghost predicate ReprC(cp: Caps, st: Store, c: Ctx, d: nat, hole: nat) {
    match c
    case Top => hole == INODE
    case In(up, loc, l, key, r) =>
      && loc in st
      && st[loc] == IndexNode(d + 1, IdxCap(cp, loc), Entries(l, key, hole, r))
      && KidsRepr(cp, st, l, d) && KidsRepr(cp, st, r, d)
      && ReprC(cp, st, up, d + 1, loc)
  }

  lemma {:induction false} ReprNode(cp: Caps, st: Store, loc: nat, l: seq<Kid>, k: nat, t: Tree, r: seq<Kid>, d: nat)
    ensures Repr(cp, st, Index(loc, l + [Kid(k, t)] + r), d + 1)
            <==> && loc in st
                 && st[loc] == IndexNode(d + 1, IdxCap(cp, loc), Entries(l, k, t.loc, r))
                 && KidsRepr(cp, st, l, d) && KidsRepr(cp, st, r, d) && Repr(cp, st, t, d)
  {
    var ks := l + [Kid(k, t)] + r;
    IdxsAround(l, k, t, r);
    assert forall i :: 0 <= i < |l| ==> ks[i] == l[i];
    assert ks[|l|] == Kid(k, t);
    assert forall i :: 0 <= i < |r| ==> ks[|l| + 1 + i] == r[i];
    assert forall i :: |l| + 1 <= i < |ks| ==> ks[i] == r[i - |l| - 1];
  }

  /** Moving the cursor does not change what is represented. */
  lemma {:induction false} ReprPlug(cp: Caps, st: Store, c: Ctx, t: Tree, d: nat)
    ensures ReprC(cp, st, c, d, t.loc) && Repr(cp, st, t, d)
            <==> Repr(cp, st, Plug(c, t), d + Depth(c)) && Plug(c, t).loc == INODE
  {
    match c
    case Top =>
    case In(up, loc, l, k, r) =>
      ReprNode(cp, st, loc, l, k, t, r, d);
      ReprPlug(cp, st, up, Index(loc, l + [Kid(k, t)] + r), d + 1);
  }

  lemma {:induction false} ZipAtRepr(cp: Caps, st: Store, c: Ctx, t: Tree, d: nat, n: nat)
    requires n <= Depth(c) && ReprC(cp, st, c, d, t.loc) && Repr(cp, st, t, d)
    ensures var z := ZipAt(c, t, n);
            Repr(cp, st, z.1, d + Depth(c) - n) && ReprC(cp, st, z.0, d + Depth(c) - n, z.1.loc)
  {
    if n < Depth(c) {
      ReprNode(cp, st, c.loc, c.left, c.key, t, c.right, d);
      ZipAtRepr(cp, st, c.up, Index(c.loc, c.left + [Kid(c.key, t)] + c.right), d + 1, n);
    }
  }

  // ---------- Writes elsewhere leave a represented part alone ----------

  lemma {:induction false} ReprFrame(cp: Caps, st: Store, t: Tree, d: nat, loc: nat, n: Node)
    requires Repr(cp, st, t, d) && loc !in Own(t)
    ensures Repr(cp, st[loc := n], t, d)
    decreases t
  {
    match t
    case Leaf(_, _) =>
    case Index(_, kids) =>
      forall i | 0 <= i < |kids| ensures Repr(cp, st[loc := n], kids[i].sub, d - 1) {
        KidOwnIn(kids, i);
        ReprFrame(cp, st, kids[i].sub, d - 1, loc, n);
      }
  }

  lemma {:induction false} KidsReprFrame(cp: Caps, st: Store, ks: seq<Kid>, d: nat, loc: nat, n: Node)
    requires KidsRepr(cp, st, ks, d) && loc !in KidOwn(ks)
    ensures KidsRepr(cp, st[loc := n], ks, d)
  {
    forall i | 0 <= i < |ks| ensures Repr(cp, st[loc := n], ks[i].sub, d) {
      KidOwnIn(ks, i);
      ReprFrame(cp, st, ks[i].sub, d, loc, n);
    }
  }

  lemma {:induction false} ReprCFrame(cp: Caps, st: Store, c: Ctx, d: nat, hole: nat, loc: nat, n: Node)
    requires ReprC(cp, st, c, d, hole) && loc !in OwnC(c)
    ensures ReprC(cp, st[loc := n], c, d, hole)
  {
    match c
    case Top =>
    case In(up, _, l, _, r) =>
      KidsReprFrame(cp, st, l, d, loc, n);
      KidsReprFrame(cp, st, r, d, loc, n);
      ReprCFrame(cp, st, up, d + 1, c.loc, loc, n);
  }
}
