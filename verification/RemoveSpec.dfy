/** What removing the blocks [start, end] does to a run of extents, and what the
    right-to-left walk over the tree keeps true at every step. */
module RemoveSpec {
  import opened Extents
  import opened ExtentTrees
  import opened TreeEdits
  import opened InsertSpec

  // ---------- Runs of extents ----------

  /** No extent of s crosses the boundary between blocks b - 1 and b. */
  ghost predicate CutAt(s: seq<Extent>, b: nat) {
    forall i :: 0 <= i < |s| ==> End(s[i]) <= b || b <= s[i].lblk
  }

  /** What mlfs_ext_rm_leaf leaves of one extent. */
  function TrimOne(e: Extent, start: nat, end: nat): seq<Extent> {
    if End(e) <= start || e.lblk > end then [e]
    else if e.lblk < start then [WithLen(e, start - e.lblk, Unwritten(e))]
    else []
  }

  function Trimmed(s: seq<Extent>, start: nat, end: nat): seq<Extent> {
    if s == [] then [] else TrimOne(s[0], start, end) + Trimmed(s[1..], start, end)
  }

  ghost function Gone(e: Extent, start: nat, end: nat): set<int> {
    if End(e) <= start || e.lblk > end then {}
    else if e.lblk < start then Span(e.pblk + (start - e.lblk), End(e) - start)
    else Span(e.pblk, Len(e))
  }

  ghost predicate Inside(b: int, start: nat, end: nat) {
    start <= b <= end
  }

  ghost function Without(m: map<int, Cell>, start: nat, end: nat): map<int, Cell> {
    map b | b in m && !Inside(b, start, end) :: m[b]
  }

  lemma {:induction false} TrimmedConcat(a: seq<Extent>, b: seq<Extent>, start: nat, end: nat)
    ensures Trimmed(a + b, start, end) == Trimmed(a, start, end) + Trimmed(b, start, end)
  {
    if a == [] {
      assert a + b == b;
    } else {
      assert (a + b)[1..] == a[1..] + b;
      TrimmedConcat(a[1..], b, start, end);
    }
  }

  lemma {:induction false} TrimmedSame(s: seq<Extent>, start: nat, end: nat)
    requires forall i :: 0 <= i < |s| ==> End(s[i]) <= start || s[i].lblk > end
    ensures Trimmed(s, start, end) == s
  {
    if s != [] {
      TrimmedSame(s[1..], start, end);
      assert s == [s[0]] + s[1..];
    }
  }

  lemma {:induction false} TrimOneOrder(e: Extent, start: nat, end: nat)
    requires Good(e) && (End(e) <= end + 1 || end + 1 <= e.lblk)
    ensures Sorted(TrimOne(e, start, end))
    ensures Above(TrimOne(e, start, end), e.lblk) && Below(TrimOne(e, start, end), End(e))
  {
    if e.lblk < start < End(e) { WithLenReads(e, start - e.lblk, Unwritten(e)); }
  }

  /** The blocks of one extent outside [start, end] stay as they were. */
  lemma {:induction false} TrimOneMap(e: Extent, start: nat, end: nat)
    requires Good(e) && (End(e) <= end + 1 || end + 1 <= e.lblk)
    ensures BlockMap(TrimOne(e, start, end)) == Without(Run(e), start, end)
  {
    if End(e) <= start || e.lblk > end {
      BlockMapOne(e);
    } else if e.lblk < start {
      var x := WithLen(e, start - e.lblk, Unwritten(e));
      WithLenReads(e, start - e.lblk, Unwritten(e));
      BlockMapOne(x);
    }
  }

  /** Its other blocks are given back. */
  lemma {:induction false} TrimOnePhys(e: Extent, start: nat, end: nat)
    requires Good(e) && (End(e) <= end + 1 || end + 1 <= e.lblk)
    ensures PhysAll(TrimOne(e, start, end)) + multiset(Gone(e, start, end)) == Phys(e)
  {
    if End(e) <= start || e.lblk > end {
      BlockMapOne(e);
    } else if e.lblk < start {
      var x := WithLen(e, start - e.lblk, Unwritten(e));
      WithLenReads(e, start - e.lblk, Unwritten(e));
      BlockMapOne(x);
      assert Span(e.pblk, Len(e)) == Span(x.pblk, Len(x)) + Gone(e, start, end);
    }
  }

  lemma {:induction false} WithoutSum(a: map<int, Cell>, b: map<int, Cell>, start: nat, end: nat)
    ensures Without(a + b, start, end) == Without(a, start, end) + Without(b, start, end)
  {
  }

  lemma {:induction false} TrimmedOrder(s: seq<Extent>, start: nat, end: nat)
    requires Sorted(s) && CutAt(s, end + 1)
    ensures Sorted(Trimmed(s, start, end))
    ensures s != [] ==> Above(Trimmed(s, start, end), s[0].lblk) && Below(Trimmed(s, start, end), End(s[|s| - 1]))
  {
    if s != [] {
      var e, r := s[0], s[1..];
      SortedRest(s);
      TrimmedOrder(r, start, end);
      TrimOneOrder(e, start, end);
      assert r != [] ==> Precedes(e, s[|s| - 1]) && r[|r| - 1] == s[|s| - 1];
      SortedGlue(TrimOne(e, start, end), End(e), Trimmed(r, start, end));
    }
  }

  /** The main fact about runs: exactly the blocks in [start, end] disappear. */
  lemma {:induction false} TrimmedMap(s: seq<Extent>, start: nat, end: nat)
    requires Sorted(s) && CutAt(s, end + 1)
    ensures BlockMap(Trimmed(s, start, end)) == Without(BlockMap(s), start, end)
  {
    if s != [] {
      var e, r := s[0], s[1..];
      SortedRest(s);
      TrimmedMap(r, start, end);
      TrimOneMap(e, start, end);
      BlockMapConcat(TrimOne(e, start, end), Trimmed(r, start, end));
      WithoutSum(Run(e), BlockMap(r), start, end);
    }
  }

  /** If something of s is left although s lies up to `end`, then s began before `start`. */
  lemma {:induction false} LeftoverLow(s: seq<Extent>, start: nat, end: nat)
    requires Sorted(s) && Below(s, end + 1) && Trimmed(s, start, end) != []
    ensures s != [] && s[0].lblk < start
  {
    SortedRest(s);
    if TrimOne(s[0], start, end) == [] {
      LeftoverLow(s[1..], start, end);
    }
  }

  // ---------- The walk ----------

  /** u is still to be visited; r is what the rest of `all` has become. */
  ghost predicate Cut(all: seq<Extent>, u: seq<Extent>, r: seq<Extent>, start: nat, end: nat) {
    u <= all && r == Trimmed(all[|u|..], start, end)
  }

  lemma {:induction false} CutStep(all: seq<Extent>, u: seq<Extent>, v: seq<Extent>, r: seq<Extent>, start: nat,
                                   end: nat)
    requires Cut(all, u + v, r, start, end)
    ensures Cut(all, u, Trimmed(v, start, end) + r, start, end)
  {
    assert all[|u|..] == v + all[|u + v|..];
    TrimmedConcat(v, all[|u + v|..], start, end);
  }

  /** The recorded entry count says that the hole was entered by descending into it. */
  ghost predicate Low(c: Ctx, counts: seq<nat>) {
    c.In? && counts != [] && counts[|counts| - 1] == |c.left| + 1 + |c.right|
  }

  ghost predicate StackOk(c: Ctx, counts: seq<nat>) {
    match c
    case Top => counts == []
    case In(up, _, l, _, r) =>
      && counts != [] && counts[|counts| - 1] >= |l| + 1 + |r|
      && StackOk(up, counts[..|counts| - 1])
      && (Low(up, counts[..|counts| - 1]) ==> counts[|counts| - 1] == |l| + 1 + |r| && r == [])
  }

  /** Before a leaf is processed. */
  ghost predicate AtLeaf(cp: Caps, all: seq<Extent>, c: Ctx, t: Tree, counts: seq<nat>, start: nat, end: nat) {
    && t.Leaf? && ShapedC(cp, c, 0) && Shaped(cp, t, 0) && KeysOk(c, First(t))
    && Sorted(all) && CutAt(all, end + 1)
    && Cut(all, LeftExts(c) + t.exts, RightExts(c), start, end)
    && Below(LeftExts(c), end + 1) && (Low(c, counts) ==> Below(t.exts, end + 1))
    && StackOk(c, counts)
  }

  /** At an index node whose entries from p on are done; `count` is its recorded entry count. */
  ghost predicate AtIndex(cp: Caps, all: seq<Extent>, c: Ctx, t: Tree, d: nat, p: nat, count: nat, k: nat,
                          counts: seq<nat>, start: nat, end: nat) {
    && t.Index? && d > 0 && p <= |t.kids| <= count && |t.kids| <= IdxCap(cp, t.loc)
    && ShapedC(cp, c, d) && KidsShaped(cp, t.kids, d - 1)
    && KeysOk(c, k) && (t.kids != [] ==> k == t.kids[0].key)
    && Sorted(all) && CutAt(all, end + 1)
    && Cut(all, LeftExts(c) + KidExts(t.kids[..p]), KidExts(t.kids[p..]) + RightExts(c), start, end)
    && Below(LeftExts(c) + KidExts(t.kids[..p]), end + 1)
    && (count == |t.kids| ==> Below(LeftExts(c) + KidExts(t.kids[..p]), start))
    && (Low(c, counts) ==> p == |t.kids| || count == |t.kids|)
    && StackOk(c, counts)
  }

  lemma {:induction false} StackFix(c: Ctx, k: nat, counts: seq<nat>)
    ensures Low(FixKeys(c, k), counts) == Low(c, counts)
    ensures StackOk(c, counts) ==> StackOk(FixKeys(c, k), counts)
  {
    match c
    case Top =>
    case In(up, _, _, _, _) =>
      if counts != [] { StackFix(up, k, counts[..|counts| - 1]); }
  }

  /** A processed hole that still holds something: on with its parent. */
  lemma {:induction false} HoleKept(cp: Caps, all: seq<Extent>, c: Ctx, t: Tree, d: nat, counts: seq<nat>, start: nat,
                                    end: nat)
    requires c.In? && Shaped(cp, t, d) && ShapedC(cp, c, d) && KeysOk(c, First(t))
    requires Sorted(all) && CutAt(all, end + 1)
    requires Cut(all, LeftExts(c), Exts(t) + RightExts(c), start, end)
    requires Below(LeftExts(c), end + 1) && (Low(c, counts) ==> Below(LeftExts(c), start))
    requires StackOk(c, counts)
    ensures AtIndex(cp, all, c.up, Index(c.loc, c.left + [Kid(c.key, t)] + c.right), d + 1, |c.left|,
                    counts[|counts| - 1], if c.left == [] then c.key
                        else c.left[0].key, counts[..|counts| - 1], start, end)
  {
    NodeShaped(cp, c.left, c.key, t, c.right, d);
    ParentExts(c, t);
  }

  lemma {:induction false} ParentExts(c: Ctx, t: Tree)
    requires c.In?
    ensures var ks := c.left + [Kid(c.key, t)] + c.right;
            ks[..|c.left|] == c.left && KidExts(ks[|c.left|..]) + RightExts(c.up) == Exts(t) + RightExts(c)
  {
    var ks := c.left + [Kid(c.key, t)] + c.right;
    assert ks[|c.left|..] == [Kid(c.key, t)] + c.right;
    KidExtsConcat([Kid(c.key, t)], c.right);
    KidExtsOne(Kid(c.key, t));
    Assoc(Exts(t), KidExts(c.right), RightExts(c.up));
  }

  /** A processed hole with nothing left: the parent without that entry. */
  lemma {:induction false} HoleGone(cp: Caps, all: seq<Extent>, c: Ctx, d: nat, k: nat, counts: seq<nat>, start: nat,
                                    end: nat)
    requires c.In? && ShapedC(cp, c, d) && KeysOk(c, k)
    requires Sorted(all) && CutAt(all, end + 1)
    requires Cut(all, LeftExts(c), RightExts(c), start, end) && Below(LeftExts(c), end + 1)
    requires StackOk(c, counts)
    ensures var k' := RestKey(c);
            AtIndex(cp, all, RestCtx(c), Index(c.loc, c.left + c.right), d + 1, |c.left|,
                    counts[|counts| - 1], if c.left == [] then k'
                        else c.left[0].key, counts[..|counts| - 1], start, end)
  {
    var ks := c.left + c.right;
    assert ks[..|c.left|] == c.left && ks[|c.left|..] == c.right;
    assert KidsShaped(cp, ks, d);
    if c.left == [] {
      FixKeysFacts(cp, c.up, RestKey(c));
      StackFix(c.up, RestKey(c), counts[..|counts| - 1]);
    }
  }

  /** The first key of the parent once the hole's entry is taken out: in memory the slot of a
      removed last entry keeps its old key. */
  ghost function RestKey(c: Ctx): nat
    requires c.In?
  {
    if c.right != [] then c.right[0].key else c.key
  }

  ghost function RestCtx(c: Ctx): Ctx
    requires c.In?
  {
    if c.left == [] then FixKeys(c.up, RestKey(c)) else c.up
  }

  lemma {:induction false} LeafKept(cp: Caps, all: seq<Extent>, c: Ctx, t: Tree, counts: seq<nat>, start: nat, end: nat)
    requires AtLeaf(cp, all, c, t, counts, start, end) && Trimmed(t.exts, start, end) != []
    ensures var t' := Leaf(t.loc, Trimmed(t.exts, start, end));
            var c' := FixKeys(c, First(t'));
            && Shaped(cp, t', 0) && ShapedC(cp, c', 0) && KeysOk(c', First(t')) && StackOk(c', counts)
            && LeftExts(c') == LeftExts(c) && RightExts(c') == RightExts(c) && Low(c', counts) == Low(c, counts)
  {
    var s := Trimmed(t.exts, start, end);
    TrimmedShorter(t.exts, start, end);
    FixKeysFacts(cp, c, s[0].lblk);
    StackFix(c, s[0].lblk, counts);
  }

  lemma {:induction false} LeafKeptLow(cp: Caps, all: seq<Extent>, c: Ctx, t: Tree, counts: seq<nat>, start: nat,
                                       end: nat)
    requires AtLeaf(cp, all, c, t, counts, start, end) && Trimmed(t.exts, start, end) != []
    ensures Cut(all, LeftExts(c), Trimmed(t.exts, start, end) + RightExts(c), start, end)
    ensures Low(c, counts) ==> Below(LeftExts(c), start)
  {
    CutStep(all, LeftExts(c), t.exts, RightExts(c), start, end);
    if Low(c, counts) {
      assert all == (LeftExts(c) + t.exts) + all[|LeftExts(c) + t.exts|..];
      SortedParts(LeftExts(c) + t.exts, all[|LeftExts(c) + t.exts|..]);
      SortedParts(LeftExts(c), t.exts);
      LeftoverLow(t.exts, start, end);
    }
  }

  lemma {:induction false} TrimmedShorter(s: seq<Extent>, start: nat, end: nat)
    ensures |Trimmed(s, start, end)| <= |s|
  {
    if s != [] { TrimmedShorter(s[1..], start, end); }
  }

  lemma {:induction false} LeafGone(cp: Caps, all: seq<Extent>, c: Ctx, t: Tree, counts: seq<nat>, start: nat, end: nat)
    requires AtLeaf(cp, all, c, t, counts, start, end) && Trimmed(t.exts, start, end) == []
    ensures Cut(all, LeftExts(c), RightExts(c), start, end)
  {
    CutStep(all, LeftExts(c), t.exts, RightExts(c), start, end);
  }

  /** Leaving an index node: what was skipped on its left needs no trimming. */
  lemma {:induction false} IndexKept(cp: Caps, all: seq<Extent>, c: Ctx, t: Tree, d: nat, p: nat, count: nat, k: nat,
                                     counts: seq<nat>, start: nat, end: nat)
    requires AtIndex(cp, all, c, t, d, p, count, k, counts, start, end) && (p == 0 || count == |t.kids|) && t.kids != []
    ensures Shaped(cp, t, d) && KeysOk(c, First(t))
    ensures Cut(all, LeftExts(c), Exts(t) + RightExts(c), start, end)
    ensures Below(LeftExts(c), end + 1) && (Low(c, counts) ==> Below(LeftExts(c), start))
  {
    var a, b := t.kids[..p], t.kids[p..];
    var u, v := LeftExts(c), KidExts(a);
    CutStep(all, u, v, KidExts(b) + RightExts(c), start, end);
    BelowParts(u, v, end + 1);
    if p > 0 { BelowParts(u, v, start); }
    TrimmedSame(v, start, end);
    assert t.kids == a + b;
    KidExtsConcat(a, b);
    Assoc(v, KidExts(b), RightExts(c));
  }

  lemma {:induction false} BelowParts(u: seq<Extent>, v: seq<Extent>, b: nat)
    requires Below(u + v, b)
    ensures Below(u, b) && Below(v, b)
  {
    assert forall i :: 0 <= i < |u| ==> (u + v)[i] == u[i];
    assert forall i :: 0 <= i < |v| ==> (u + v)[|u| + i] == v[i];
  }

  lemma {:induction false} IndexGone(cp: Caps, all: seq<Extent>, c: Ctx, t: Tree, d: nat, p: nat, count: nat, k: nat,
                                     counts: seq<nat>, start: nat, end: nat)
    requires AtIndex(cp, all, c, t, d, p, count, k, counts, start, end) && t.kids == []
    ensures Cut(all, LeftExts(c), RightExts(c), start, end) && Below(LeftExts(c), end + 1)
  {
    assert t.kids[..p] == [] && t.kids[p..] == [];
    assert LeftExts(c) + KidExts([]) == LeftExts(c) && KidExts([]) + RightExts(c) == RightExts(c);
  }

  /** The cursor one entry to the left and one level down. */
  ghost function Down(c: Ctx, t: Tree, p: nat): Ctx
    requires t.Index? && 0 < p <= |t.kids|
  {
    In(c, t.loc, t.kids[..p - 1], t.kids[p - 1].key, t.kids[p..])
  }

  lemma {:induction false} Descend(cp: Caps, all: seq<Extent>, c: Ctx, t: Tree, d: nat, p: nat, count: nat, k: nat,
                                   counts: seq<nat>, start: nat, end: nat)
    requires AtIndex(cp, all, c, t, d, p, count, k, counts, start, end) && 0 < p && count != |t.kids|
    ensures var c', s, n := Down(c, t, p), t.kids[p - 1].sub, counts + [|t.kids|];
            && Plug(c', s) == Plug(c, t) && Depth(c') == Depth(c) + 1
            && ShapedC(cp, c', d - 1) && Shaped(cp, s, d - 1) && KeysOk(c', First(s)) && StackOk(c', n)
            && Cut(all, LeftExts(c') + Exts(s), RightExts(c'), start, end) && Below(LeftExts(c') + Exts(s), end + 1)
  {
    var c', kid, n := Down(c, t, p), t.kids[p - 1], counts + [|t.kids|];
    assert n[..|n| - 1] == counts;
    assert t.kids == t.kids[..p - 1] + [Kid(kid.key, kid.sub)] + t.kids[p..];
    assert t.kids[..p] == t.kids[..p - 1] + [kid];
    KidExtsConcat(t.kids[..p - 1], [kid]);
    KidExtsOne(kid);
    assert LeftExts(c) + KidExts(t.kids[..p]) == LeftExts(c') + Exts(kid.sub);
  }

  lemma {:induction false} ToLeaf(cp: Caps, all: seq<Extent>, c: Ctx, t: Tree, counts: seq<nat>, start: nat, end: nat)
    requires t.Leaf? && ShapedC(cp, c, 0) && Shaped(cp, t, 0) && KeysOk(c, First(t)) && StackOk(c, counts)
    requires Sorted(all) && CutAt(all, end + 1)
    requires Cut(all, LeftExts(c) + Exts(t), RightExts(c), start, end) && Below(LeftExts(c) + Exts(t), end + 1)
    ensures AtLeaf(cp, all, c, t, counts, start, end)
  {
    BelowParts(LeftExts(c), t.exts, end + 1);
  }

  lemma {:induction false} ToIndex(cp: Caps, all: seq<Extent>, c: Ctx, t: Tree, d: nat, counts: seq<nat>, start: nat,
                                   end: nat)
    requires t.Index? && ShapedC(cp, c, d) && Shaped(cp, t, d) && KeysOk(c, First(t)) && StackOk(c, counts)
    requires Sorted(all) && CutAt(all, end + 1)
    requires Cut(all, LeftExts(c) + Exts(t), RightExts(c), start, end) && Below(LeftExts(c) + Exts(t), end + 1)
    ensures AtIndex(cp, all, c, t, d, |t.kids|, |t.kids| + 1, First(t), counts, start, end)
  {
    assert t.kids[..|t.kids|] == t.kids && t.kids[|t.kids|..] == [];
    assert KidExts([]) + RightExts(c) == RightExts(c);
  }

  // ---------- Progress ----------

  ghost function Nodes(t: Tree): nat
    decreases t, 0
  {
    match t
    case Leaf(_, _) => 1
    case Index(_, kids) => 1 + KidNodes(kids)
  }

  ghost function KidNodes(ks: seq<Kid>): nat
    decreases ks, 1
  {
    if ks == [] then 0 else SubNodes(ks[0]) + KidNodes(ks[1..])
  }

  ghost function SubNodes(k: Kid): nat
    decreases k, 0
  {
    match k case Kid(_, t) => Nodes(t)
  }

  /** How many nodes the walk has still to enter left of the hole. */
  ghost function Todo(c: Ctx): nat {
    match c
    case Top => 0
    case In(up, _, l, _, _) => Todo(up) + KidNodes(l)
  }

  lemma {:induction false} TodoFix(c: Ctx, k: nat)
    ensures Todo(FixKeys(c, k)) == Todo(c)
  {
    match c
    case Top =>
    case In(up, _, _, _, _) => TodoFix(up, k);
  }

  lemma {:induction false} KidNodesLast(ks: seq<Kid>, k: Kid)
    ensures KidNodes(ks + [k]) == KidNodes(ks) + Nodes(k.sub)
  {
    if ks == [] {
      assert ks + [k] == [k] && [k][1..] == [];
    } else {
      assert (ks + [k])[1..] == ks[1..] + [k];
      KidNodesLast(ks[1..], k);
    }
  }

  /** Where the walk goes after a hole with content t is done: its parent, and the cursor there. */
  ghost function Parent(c: Ctx, t: Tree): Tree
    requires c.In?
  {
    Index(c.loc, c.left + [Kid(c.key, t)] + c.right)
  }

  lemma {:induction false} TodoUp(c: Ctx, t: Tree)
    requires c.In?
    ensures Todo(c.up) + KidNodes(Parent(c, t).kids[..|c.left|]) == Todo(c)
    ensures Todo(RestCtx(c)) + KidNodes((c.left + c.right)[..|c.left|]) == Todo(c)
  {
    assert Parent(c, t).kids[..|c.left|] == c.left && (c.left + c.right)[..|c.left|] == c.left;
    TodoFix(c.up, RestKey(c));
  }

  lemma {:induction false} TodoDown(c: Ctx, t: Tree, p: nat)
    requires t.Index? && 0 < p <= |t.kids|
    ensures Todo(Down(c, t, p)) + Nodes(t.kids[p - 1].sub) == Todo(c) + KidNodes(t.kids[..p])
  {
    assert t.kids[..p] == t.kids[..p - 1] + [t.kids[p - 1]];
    KidNodesLast(t.kids[..p - 1], t.kids[p - 1]);
  }

  /** Where mlfs_ext_rm_leaf leaves the cursor: on the trimmed leaf, or on the parent of a
      leaf that was given up. */
  ghost function AfterLeaf(c: Ctx, loc: nat, s: seq<Extent>): (Ctx, Tree, nat) {
    if s != [] then (FixKeys(c, s[0].lblk), Leaf(loc, s), 0)
    else if c.Top? then (c, Leaf(loc, []), 0)
    else (RestCtx(c), Index(c.loc, c.left + c.right), 1)
  }

  /** The walk has left the root. */
  ghost predicate Finished(cp: Caps, all: seq<Extent>, t: Tree, d: nat, start: nat, end: nat) {
    && Exts(t) == Trimmed(all, start, end) && Sorted(all) && CutAt(all, end + 1)
    && (match t
        case Leaf(_, exts) => d == 0 && |exts| <= LeafCap(cp, t.loc)
        case Index(_, kids) => kids == [] || Shaped(cp, t, d))
  }

  // ---------- The walk as a machine ----------

  /** The path array of mlfs_ext_remove_space: the levels above the current node with their
      recorded entry counts, the current node, and for an index node the entry to look at
      next (one above it) and the recorded count. */
  datatype Walk = Walk(levels: seq<Step>, counts: seq<nat>, loc: nat, p: nat, count: nat)

  function Popped(w: Walk): Walk
    requires w.levels != [] && w.counts != [] && w.levels[|w.levels| - 1].pos >= 0
  {
    var n := |w.levels| - 1;
    Walk(w.levels[..n], w.counts[..|w.counts| - 1], w.levels[n].loc, w.levels[n].pos, w.counts[|w.counts| - 1])
  }

  /** One level down; the node entered has n entries, the one left has `entries`. */
  function Pushed(w: Walk, entries: nat, loc: nat, n: nat): Walk {
    Walk(w.levels + [Step(w.loc, w.p - 1)], w.counts + [entries], loc, n, n + 1)
  }

  ghost predicate WalkAt(cp: Caps, all: seq<Extent>, w: Walk, c: Ctx, t: Tree, d: nat, k: nat, start: nat, end: nat) {
    && w.levels == PathOf(c) && w.loc == t.loc
    && if d == 0 then AtLeaf(cp, all, c, t, w.counts, start, end)
       else AtIndex(cp, all, c, t, d, w.p, w.count, k, w.counts, start, end)
  }

  ghost function TodoAt(w: Walk, c: Ctx, t: Tree): nat {
    Todo(c) + if t.Index? && w.p <= |t.kids| then KidNodes(t.kids[..w.p]) else 0
  }

  lemma {:induction false} PoppedPath(w: Walk, c: Ctx)
    requires c.In? && w.levels == PathOf(c) && w.counts != []
    ensures w.levels != [] && w.levels[|w.levels| - 1] == Step(c.loc, |c.left|) && Popped(w).levels == PathOf(c.up)
    ensures Popped(w).levels == PathOf(RestCtx(c))
  {
    var n := |w.levels| - 1;
    assert w.levels == PathOf(c.up) + [Step(c.loc, |c.left|)];
    FixKeysPath(c.up, RestKey(c));
  }

  /** The current node is done and kept: on to its parent. */
  lemma {:induction false} UpKept(cp: Caps, all: seq<Extent>, w: Walk, c: Ctx, t: Tree, d: nat, start: nat,
                                  end: nat) returns (k: nat)
    requires w.levels == PathOf(c) && c.In? && Shaped(cp, t, d) && ShapedC(cp, c, d) && KeysOk(c, First(t))
    requires Sorted(all) && CutAt(all, end + 1) && StackOk(c, w.counts)
    requires Cut(all, LeftExts(c), Exts(t) + RightExts(c), start, end)
    requires Below(LeftExts(c), end + 1) && (Low(c, w.counts) ==> Below(LeftExts(c), start))
    ensures w.levels != [] && w.counts != [] && w.levels[|w.levels| - 1].pos >= 0
    ensures WalkAt(cp, all, Popped(w), c.up, Parent(c, t), d + 1, k, start, end)
    ensures TodoAt(Popped(w), c.up, Parent(c, t)) == Todo(c)
  {
    PoppedPath(w, c);
    HoleKept(cp, all, c, t, d, w.counts, start, end);
    k := if c.left == [] then c.key else c.left[0].key;
    TodoUp(c, t);
  }

  /** The current node is done and empty: on to its parent, which has lost the entry. */
  lemma {:induction false} UpGone(cp: Caps, all: seq<Extent>, w: Walk, c: Ctx, d: nat, k0: nat, start: nat,
                                  end: nat) returns (k: nat)
    requires w.levels == PathOf(c) && c.In? && ShapedC(cp, c, d) && KeysOk(c, k0)
    requires Sorted(all) && CutAt(all, end + 1) && StackOk(c, w.counts)
    requires Cut(all, LeftExts(c), RightExts(c), start, end) && Below(LeftExts(c), end + 1)
    ensures w.levels != [] && w.counts != [] && w.levels[|w.levels| - 1].pos >= 0
    ensures WalkAt(cp, all, Popped(w), RestCtx(c), Index(c.loc, c.left + c.right), d + 1, k, start, end)
    ensures TodoAt(Popped(w), RestCtx(c), Index(c.loc, c.left + c.right)) == Todo(c)
  {
    PoppedPath(w, c);
    HoleGone(cp, all, c, d, k0, w.counts, start, end);
    k := if c.left == [] then RestKey(c) else c.left[0].key;
    TodoUp(c, Leaf(0, []));
  }

  lemma {:induction false} LeafUpKept(cp: Caps, all: seq<Extent>, w: Walk, c: Ctx, t: Tree, k0: nat, start: nat,
                                      end: nat) returns (k: nat)
    requires WalkAt(cp, all, w, c, t, 0, k0, start, end) && c.In? && Trimmed(t.exts, start, end) != []
    ensures w.levels != [] && w.counts != [] && w.levels[|w.levels| - 1].pos >= 0
    ensures var t1 := Leaf(t.loc, Trimmed(t.exts, start, end));
            var c1 := FixKeys(c, First(t1));
            && WalkAt(cp, all, Popped(w), c1.up, Parent(c1, t1), 1, k, start, end)
            && TodoAt(Popped(w), c1.up, Parent(c1, t1)) == Todo(c) && Depth(c1) == Depth(c)
  {
    var k1 := Trimmed(t.exts, start, end)[0].lblk;
    LeafKept(cp, all, c, t, w.counts, start, end);
    LeafKeptLow(cp, all, c, t, w.counts, start, end);
    FixKeysPath(c, k1);
    TodoFix(c, k1);
    FixKeysDepth(c, k1);
    k := UpKept(cp, all, w, FixKeys(c, k1), Leaf(t.loc, Trimmed(t.exts, start, end)), 0, start, end);
  }

  lemma {:induction false} LeafUpGone(cp: Caps, all: seq<Extent>, w: Walk, c: Ctx, t: Tree, k0: nat, start: nat,
                                      end: nat) returns (k: nat)
    requires WalkAt(cp, all, w, c, t, 0, k0, start, end) && c.In? && Trimmed(t.exts, start, end) == []
    ensures w.levels != [] && w.counts != [] && w.levels[|w.levels| - 1].pos >= 0
    ensures var t' := Index(c.loc, c.left + c.right);
            && WalkAt(cp, all, Popped(w), RestCtx(c), t', 1, k, start, end)
            && TodoAt(Popped(w), RestCtx(c), t') == Todo(c) && Depth(RestCtx(c)) + 1 == Depth(c)
  {
    LeafGone(cp, all, c, t, w.counts, start, end);
    k := UpGone(cp, all, w, c, 0, First(t), start, end);
    FixKeysDepth(c.up, RestKey(c));
  }

  /** Where a processed leaf below the root sends the walk. */
  lemma {:induction false} LeafUp(cp: Caps, all: seq<Extent>, w: Walk, c: Ctx, t: Tree, k0: nat, start: nat, end: nat)
    returns (c': Ctx, t': Tree, k: nat)
    requires WalkAt(cp, all, w, c, t, 0, k0, start, end) && c.In?
    ensures var (c1, t1, d1) := AfterLeaf(c, t.loc, Trimmed(t.exts, start, end));
            Plug(c', t') == Plug(c1, t1) && 1 + Depth(c') == d1 + Depth(c1)
    ensures w.levels != [] && w.counts != [] && w.levels[|w.levels| - 1].pos >= 0
    ensures WalkAt(cp, all, Popped(w), c', t', 1, k, start, end) && TodoAt(Popped(w), c', t') == Todo(c)
    ensures Depth(c') + 1 == Depth(c)
  {
    var s := Trimmed(t.exts, start, end);
    var c1 := if s != [] then FixKeys(c, s[0].lblk) else RestCtx(c);
    c' := if s != [] then c1.up else c1;
    t' := if s != [] then Parent(c1, Leaf(t.loc, s)) else Index(c.loc, c.left + c.right);
    if s != [] {
      k := LeafUpKept(cp, all, w, c, t, k0, start, end);
    } else {
      k := LeafUpGone(cp, all, w, c, t, k0, start, end);
    }
  }

  lemma {:induction false} IndexUp(cp: Caps, all: seq<Extent>, w: Walk, c: Ctx, t: Tree, d: nat, k0: nat, start: nat,
                                   end: nat)
    returns (c': Ctx, t': Tree, k: nat)
    requires d > 0 && WalkAt(cp, all, w, c, t, d, k0, start, end) && c.In? && (w.p == 0 || w.count == |t.kids|)
    ensures c' == (if t.kids != [] then c.up else RestCtx(c))
    ensures t' == if t.kids != [] then Parent(c, t) else Index(c.loc, c.left + c.right)
    ensures w.levels != [] && w.counts != [] && w.levels[|w.levels| - 1].pos >= 0
    ensures WalkAt(cp, all, Popped(w), c', t', d + 1, k, start, end) && TodoAt(Popped(w), c', t') == Todo(c)
    ensures Depth(c') + 1 == Depth(c)
  {
    if t.kids != [] {
      IndexKept(cp, all, c, t, d, w.p, w.count, k0, w.counts, start, end);
      k := UpKept(cp, all, w, c, t, d, start, end);
      c', t' := c.up, Parent(c, t);
    } else {
      IndexGone(cp, all, c, t, d, w.p, w.count, k0, w.counts, start, end);
      k := UpGone(cp, all, w, c, d, k0, start, end);
      FixKeysDepth(c.up, RestKey(c));
      c', t' := RestCtx(c), Index(c.loc, c.left + c.right);
    }
  }

  lemma {:induction false} DownAt(cp: Caps, all: seq<Extent>, w: Walk, w': Walk, c: Ctx, t: Tree, c': Ctx, t': Tree,
                                  d: nat, k0: nat, start: nat, end: nat)
    requires d > 0 && WalkAt(cp, all, w, c, t, d, k0, start, end) && 0 < w.p && w.count != |t.kids|
    requires c' == Down(c, t, w.p) && t' == t.kids[w.p - 1].sub
    requires t'.Index? ==> w' == Pushed(w, |t.kids|, t'.loc, |t'.kids|)
    requires t'.Leaf? ==> w'.levels == w.levels + [Step(w.loc, w.p - 1)] && w'.counts == w.counts + [|t.kids|]
                          && w'.loc == t'.loc
    ensures WalkAt(cp, all, w', c', t', d - 1, First(t'), start, end)
    ensures Plug(c', t') == Plug(c, t) && Depth(c') == Depth(c) + 1
  {
    Descend(cp, all, c, t, d, w.p, w.count, k0, w.counts, start, end);
    if t'.Leaf? {
      ToLeaf(cp, all, c', t', w.counts + [|t.kids|], start, end);
    } else {
      ToIndex(cp, all, c', t', d - 1, w.counts + [|t.kids|], start, end);
    }
  }

  /** Entering the next child on the left. */
  lemma {:induction false} IndexDown(cp: Caps, all: seq<Extent>, w: Walk, w': Walk, n: nat, c: Ctx, t: Tree, d: nat,
                                     k0: nat, start: nat, end: nat) returns (c': Ctx, t': Tree, k: nat)
    requires d > 0 && WalkAt(cp, all, w, c, t, d, k0, start, end) && 0 < w.p && w.count != |t.kids|
    requires t.kids[w.p - 1].sub.Index? ==> n == |t.kids[w.p - 1].sub.kids|
    requires w' == Pushed(w, |t.kids|, t.kids[w.p - 1].sub.loc, n)
    ensures c' == Down(c, t, w.p) && t' == t.kids[w.p - 1].sub && Plug(c', t') == Plug(c, t)
    ensures Depth(c') == Depth(c) + 1
    ensures WalkAt(cp, all, w', c', t', d - 1, k, start, end) && TodoAt(w', c', t') < TodoAt(w, c, t)
  {
    c', t' := Down(c, t, w.p), t.kids[w.p - 1].sub;
    k := First(t');
    DownAt(cp, all, w, w', c, t, c', t', d, k0, start, end);
    DownTodo(w, n, c, t);
  }

  lemma {:induction false} DownTodo(w: Walk, n: nat, c: Ctx, t: Tree)
    requires t.Index? && 0 < w.p <= |t.kids| && (t.kids[w.p - 1].sub.Index? ==> n == |t.kids[w.p - 1].sub.kids|)
    ensures var t' := t.kids[w.p - 1].sub;
            TodoAt(Pushed(w, |t.kids|, t'.loc, n), Down(c, t, w.p), t') < TodoAt(w, c, t)
  {
    var t' := t.kids[w.p - 1].sub;
    if t'.Index? { assert t'.kids[..|t'.kids|] == t'.kids; }
    TodoDown(c, t, w.p);
  }

  lemma {:induction false} LeafTop(cp: Caps, all: seq<Extent>, w: Walk, t: Tree, k: nat, start: nat, end: nat)
    requires WalkAt(cp, all, w, Top, t, 0, k, start, end)
    ensures Finished(cp, all, Leaf(t.loc, Trimmed(t.exts, start, end)), 0, start, end)
  {
    var s := Trimmed(t.exts, start, end);
    CutStep(all, [], t.exts, [], start, end);
    assert s + [] == s && all[0..] == all;
    TrimmedShorter(t.exts, start, end);
  }

  lemma {:induction false} IndexTop(cp: Caps, all: seq<Extent>, w: Walk, t: Tree, d: nat, k: nat, start: nat, end: nat)
    requires d > 0 && WalkAt(cp, all, w, Top, t, d, k, start, end) && (w.p == 0 || w.count == |t.kids|)
    ensures Finished(cp, all, t, d, start, end)
  {
    if t.kids != [] {
      IndexKept(cp, all, Top, t, d, w.p, w.count, k, w.counts, start, end);
    } else {
      IndexGone(cp, all, Top, t, d, w.p, w.count, k, w.counts, start, end);
    }
    assert all[0..] == all && Exts(t) + [] == Exts(t);
  }

  // ---------- Where the walk starts ----------

  /** Nothing crosses the end of the range, and the cursor's leaf is the last to look at. */
  ghost predicate CutReady(c: Ctx, t: Tree, end: nat) {
    CutAt(All(c, t), end + 1) && Below(LeftExts(c), end + 1) && Above(RightExts(c), end + 1)
  }

  lemma {:induction false} CutFound(cp: Caps, c: Ctx, t: Tree, pos: nat, end: nat)
    requires Settled(cp, c, t) && Route(c, end) && LeafAt(t.exts, end, pos)
    requires End(t.exts[pos]) <= end + 1 || end + 1 <= t.exts[pos].lblk
    ensures CutReady(c, t, end)
  {
    AllParts(c, t);
    RouteRight(cp, c, 0, end);
    if LeftExts(c) != [] {
      RouteLeft(c, First(t), end);
      assert Below(LeftExts(c), t.exts[0].lblk);
    }
    forall i | 0 <= i < |t.exts| ensures End(t.exts[i]) <= end + 1 || end + 1 <= t.exts[i].lblk {
      if i < pos { assert Precedes(t.exts[i], t.exts[pos]); }
      if i > pos + 1 { assert Precedes(t.exts[pos + 1], t.exts[i]); }
    }
    CutParts(LeftExts(c), t.exts, RightExts(c), end + 1);
  }

  lemma {:induction false} CutParts(a: seq<Extent>, m: seq<Extent>, z: seq<Extent>, b: nat)
    requires Below(a, b) && CutAt(m, b) && Above(z, b)
    ensures CutAt(a + m + z, b)
  {
  }

  lemma {:induction false} CutAround(cp: Caps, c: Ctx, t: Tree, e: Extent, end: nat)
    requires Settled(cp, c, t) && Around(c, t, e) && e.lblk == end + 1
    ensures CutReady(c, t, end)
  {
    var s := All(c, t);
    var j :| 0 <= j < |s| && s[j] == e;
    forall i | 0 <= i < |s| ensures End(s[i]) <= end + 1 || end + 1 <= s[i].lblk {
      if i < j { assert Precedes(s[i], s[j]); } else if i > j { assert Precedes(s[j], s[i]); }
    }
  }

  /** Recorded counts above the real ones: no level has been entered by descending. */
  ghost predicate Fresh(c: Ctx, counts: seq<nat>) {
    match c
    case Top => counts == []
    case In(up, _, l, _, r) => counts != [] && counts[|counts| - 1] > |l| + 1 + |r| && Fresh(up, counts[..|counts| - 1])
  }

  lemma {:induction false} FreshStack(c: Ctx, counts: seq<nat>)
    requires Fresh(c, counts)
    ensures StackOk(c, counts) && !Low(c, counts)
  {
    match c
    case Top =>
    case In(up, _, _, _, _) => FreshStack(up, counts[..|counts| - 1]);
  }

  lemma {:induction false} WalkStart(cp: Caps, w: Walk, c: Ctx, t: Tree, start: nat, end: nat)
    requires Settled(cp, c, t) && CutReady(c, t, end) && Fresh(c, w.counts) && w.levels == PathOf(c) && w.loc == t.loc
    ensures WalkAt(cp, All(c, t), w, c, t, 0, 0, start, end)
  {
    FreshStack(c, w.counts);
    var u := LeftExts(c) + t.exts;
    assert All(c, t)[|u|..] == RightExts(c);
    TrimmedSame(RightExts(c), start, end);
  }
}
