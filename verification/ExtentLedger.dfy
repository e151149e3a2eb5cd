/** What a valid extent tree says about the device: every used block has one owner, no two
    file blocks share a physical block, and the block counter adds up. */
module ExtentLedger {
  import opened Extents
  import opened ExtentTrees
  import opened TreeEdits
  import opened RemoveSpec
  import opened ExtentStore
  import opened KernfsExtents

  /** Where the nodes of a tree live. */
  ghost function NodeLocs(t: Tree): multiset<int>
    decreases t, 0
  {
    match t
    case Leaf(loc, _) => multiset{loc}
    case Index(loc, kids) => multiset{loc} + KidLocs(kids)
  }

  ghost function KidLocs(ks: seq<Kid>): multiset<int>
    decreases ks, 1
  {
    if ks == [] then multiset{} else SubLocs(ks[0]) + KidLocs(ks[1..])
  }

  ghost function SubLocs(k: Kid): multiset<int>
    decreases k, 0
  {
    match k case Kid(_, t) => NodeLocs(t)
  }

  lemma {:induction false} OwnSplit(t: Tree)
    ensures Own(t) == NodeLocs(t) + PhysAll(Exts(t)) && |NodeLocs(t)| == Nodes(t)
    decreases t, 0
  {
    match t
    case Leaf(_, _) =>
    case Index(_, kids) => KidOwnSplit(kids);
  }

  lemma {:induction false} KidOwnSplit(ks: seq<Kid>)
    ensures KidOwn(ks) == KidLocs(ks) + PhysAll(KidExts(ks)) && |KidLocs(ks)| == KidNodes(ks)
    decreases ks, 1
  {
    if ks != [] {
      SubOwnSplit(ks[0]);
      KidOwnSplit(ks[1..]);
      PhysConcat(SubExts(ks[0]), KidExts(ks[1..]));
    }
  }

  lemma {:induction false} SubOwnSplit(k: Kid)
    ensures SubOwn(k) == SubLocs(k) + PhysAll(SubExts(k)) && |SubLocs(k)| == SubNodes(k)
    decreases k, 0
  {
    match k case Kid(_, t) => OwnSplit(t);
  }

  // ---------- Physical blocks of a sorted run ----------

  /** As many physical blocks as mapped ones. */
  lemma {:induction false} PhysSize(s: seq<Extent>)
    requires Sorted(s)
    ensures |PhysAll(s)| == |BlockMap(s)|
  {
    if s != [] {
      SortedRest(s);
      PhysSize(s[1..]);
      SpanSize(s[0].pblk, Len(s[0]));
      RunSize(s[0]);
      KeysAbove(s[1..], End(s[0]));
      DisjointSize(Run(s[0]), BlockMap(s[1..]));
    }
  }

  lemma {:induction false} RunSize(e: Extent)
    ensures |Run(e)| == Len(e)
  {
    SpanSize(e.lblk, Len(e));
    assert Run(e).Keys == Span(e.lblk, Len(e)) by {
      forall b ensures b in Run(e) <==> b in Span(e.lblk, Len(e)) {
        if e.lblk <= b < End(e) { assert InSpan(b, e.lblk, Len(e)); }
      }
    }
  }

  lemma {:induction false} DisjointSize(a: map<int, Cell>, b: map<int, Cell>)
    requires a.Keys !! b.Keys
    ensures |a + b| == |a| + |b|
  {
    assert (a + b).Keys == a.Keys + b.Keys;
  }

  lemma {:induction false} MappedIsPhys(s: seq<Extent>, b: int)
    requires Sorted(s) && b in BlockMap(s)
    ensures BlockMap(s)[b].pblk in PhysAll(s)
  {
    if b in BlockMap(s[1..]) {
      MappedIsPhys(s[1..], b);
    } else {
      assert InSpan(BlockMap(s)[b].pblk, s[0].pblk, Len(s[0]));
    }
  }

  /** Two file blocks on one physical block would make it count twice. */
  lemma {:induction false} SharedCountsTwice(s: seq<Extent>, a: int, b: int)
    requires Sorted(s) && a in BlockMap(s) && b in BlockMap(s) && a != b && BlockMap(s)[a].pblk == BlockMap(s)[b].pblk
    ensures PhysAll(s)[BlockMap(s)[a].pblk] >= 2
  {
    var r, p := s[1..], BlockMap(s)[a].pblk;
    SortedRest(s);
    KeysAbove(r, End(s[0]));
    if a in BlockMap(r) && b in BlockMap(r) {
      SharedCountsTwice(r, a, b);
    } else if a in BlockMap(r) {
      MappedIsPhys(r, a);
      assert InSpan(p, s[0].pblk, Len(s[0]));
    } else if b in BlockMap(r) {
      MappedIsPhys(r, b);
      assert InSpan(p, s[0].pblk, Len(s[0]));
    }
  }

  // ---------- The device ----------

  /** The used set is the disjoint sum of node blocks, data blocks and other files' blocks, and
      the counter is its size. */
  lemma {:induction false} Ledger(m: ExtentTree)
    requires m.Valid()
    ensures multiset(m.used) + multiset{INODE} == NodeLocs(m.tree) + PhysAll(Exts(m.tree)) + multiset(m.others)
    ensures m.usedBlocks == m.reserved + (Nodes(m.tree) - 1) + |m.Blocks()| + |m.others|
  {
    OwnSplit(m.tree);
    PhysSize(Exts(m.tree));
    assert Own(m.tree) + multiset{} == Own(m.tree);
    var own, data, rest := NodeLocs(m.tree), PhysAll(Exts(m.tree)), multiset(m.others);
    assert |multiset(m.used) + multiset{INODE}| == |own + data + rest|;
  }

  /** Distinct file blocks live on distinct physical blocks, none of which is a node of the
      tree or belongs to anyone else. */
  lemma {:induction false} NoSharing(m: ExtentTree, a: int, b: int)
    requires m.Valid() && a in m.Blocks() && b in m.Blocks()
    ensures var p := m.Blocks()[a].pblk;
            && p in m.used && p !in m.others && p !in NodeLocs(m.tree)
            && (a != b ==> p != m.Blocks()[b].pblk)
  {
    var s, p := Exts(m.tree), m.Blocks()[a].pblk;
    Ledger(m);
    RootLoc(m.tree);
    MappedIsPhys(s, a);
    assert (multiset(m.used) + multiset{INODE})[p] == (NodeLocs(m.tree) + PhysAll(s) + multiset(m.others))[p];
    assert (multiset(m.used) + multiset{INODE})[INODE] == (NodeLocs(m.tree) + PhysAll(s) + multiset(m.others))[INODE];
    if a != b && p == m.Blocks()[b].pblk {
      SharedCountsTwice(s, a, b);
    }
  }

  lemma {:induction false} RootLoc(t: Tree)
    ensures t.loc in NodeLocs(t)
  {
  }
}
