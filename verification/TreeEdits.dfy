/** The tree changes an insertion makes along its path, as functions on the cursor:
    key correction, node splitting, growth in depth, stepping to the next leaf. */
module TreeEdits {
  import opened Extents
  import opened ExtentTrees

  // ---------- mlfs_ext_correct_indexes ----------

  /** Keys above the hole after its first block became k. */
  ghost function FixKeys(c: Ctx, k: nat): Ctx {
    match c
    case Top => Top
    case In(up, loc, l, _, r) => In(if l == [] then FixKeys(up, k) else up, loc, l, k, r)
  }

  lemma {:induction false} FixKeysFacts(cp: Caps, c: Ctx, k: nat)
    ensures LeftExts(FixKeys(c, k)) == LeftExts(c) && RightExts(FixKeys(c, k)) == RightExts(c)
    ensures OwnC(FixKeys(c, k)) == OwnC(c)
    ensures forall d: nat :: ShapedC(cp, c, d) ==> ShapedC(cp, FixKeys(c, k), d)
    ensures forall k0: nat :: KeysOk(c, k0) ==> KeysOk(FixKeys(c, k), k)
  {
    match c
    case Top =>
    case In(up, _, _, _, _) => FixKeysFacts(cp, up, k);
  }

  lemma {:induction false} FixKeysPath(c: Ctx, k: nat)
    ensures PathOf(FixKeys(c, k)) == PathOf(c)
  {
    match c
    case Top =>
    case In(up, _, _, _, _) => FixKeysPath(up, k);
  }

  lemma {:induction false} FixKeysDepth(c: Ctx, k: nat)
    ensures Depth(FixKeys(c, k)) == Depth(c)
  {
    match c
    case Top =>
    case In(up, _, _, _, _) => FixKeysDepth(up, k);
  }

  lemma {:induction false} FixKeysSame(c: Ctx, k: nat)
    requires KeysOk(c, k)
    ensures FixKeys(c, k) == c
  {
    match c
    case Top =>
    case In(up, _, l, _, _) => if l == [] { FixKeysSame(up, k); }
  }

  // ---------- mlfs_ext_split ----------

  ghost predicate Full(cp: Caps, c: Ctx)
    requires c.In?
  {
    |c.left| + 1 + |c.right| >= IdxCap(cp, c.loc)
  }

  /** Some index node on the path has a free entry. */
  ghost predicate CanSplit(cp: Caps, c: Ctx) {
    c.In? && (!Full(cp, c) || CanSplit(cp, c.up))
  }

  /** How many full index nodes lie below the first one with a free entry. */
  ghost function FullLevels(cp: Caps, c: Ctx): nat {
    if c.Top? || !Full(cp, c) then 0 else 1 + FullLevels(cp, c.up)
  }

  /** The surroundings of the left part after a new subtree (border, r) was put right
      after the hole, new index nodes going to the locations `news`, lowest first. */
  ghost function SplitLeft(cp: Caps, c: Ctx, border: nat, r: Tree, news: seq<nat>): Ctx
    requires CanSplit(cp, c) && |news| == FullLevels(cp, c)
  {
    if !Full(cp, c) then c.(right := [Kid(border, r)] + c.right)
    else c.(up := SplitLeft(cp, c.up, border, Index(news[0], [Kid(border, r)] + c.right), news[1..]),
            right := [])
  }

  /** The same tree seen from the new subtree. */
  ghost function SplitRight(cp: Caps, c: Ctx, t: Tree, border: nat, news: seq<nat>): Ctx
    requires CanSplit(cp, c) && |news| == FullLevels(cp, c)
  {
    if !Full(cp, c) then In(c.up, c.loc, c.left + [Kid(c.key, t)], border, c.right)
    else In(SplitRight(cp, c.up, Index(c.loc, c.left + [Kid(c.key, t)]), border, news[1..]),
            news[0], [], border, c.right)
  }

  lemma {:induction false} SplitSameTree(cp: Caps, c: Ctx, t: Tree, border: nat, r: Tree, news: seq<nat>)
    requires CanSplit(cp, c) && |news| == FullLevels(cp, c)
    ensures Plug(SplitLeft(cp, c, border, r, news), t) == Plug(SplitRight(cp, c, t, border, news), r)
    ensures Depth(SplitLeft(cp, c, border, r, news)) == Depth(SplitRight(cp, c, t, border, news)) == Depth(c)
  {
    if !Full(cp, c) {
      assert c.left + [Kid(c.key, t)] + ([Kid(border, r)] + c.right)
          == c.left + [Kid(c.key, t)] + [Kid(border, r)] + c.right;
    } else {
      var lt, rt := Index(c.loc, c.left + [Kid(c.key, t)]), Index(news[0], [Kid(border, r)] + c.right);
      SplitSameTree(cp, c.up, lt, border, rt, news[1..]);
      assert c.left + [Kid(c.key, t)] + [] == c.left + [Kid(c.key, t)];
      assert [] + [Kid(border, r)] + c.right == [Kid(border, r)] + c.right;
    }
  }

  lemma {:induction false} SplitExts(cp: Caps, c: Ctx, border: nat, r: Tree, news: seq<nat>)
    requires CanSplit(cp, c) && |news| == FullLevels(cp, c)
    ensures LeftExts(SplitLeft(cp, c, border, r, news)) == LeftExts(c)
    ensures RightExts(SplitLeft(cp, c, border, r, news)) == Exts(r) + RightExts(c)
  {
    KidExtsConcat([Kid(border, r)], c.right);
    KidExtsOne(Kid(border, r));
    if Full(cp, c) {
      SplitExts(cp, c.up, border, Index(news[0], [Kid(border, r)] + c.right), news[1..]);
    }
  }

  lemma {:induction false} SplitRightExts(cp: Caps, c: Ctx, t: Tree, border: nat, news: seq<nat>)
    requires CanSplit(cp, c) && |news| == FullLevels(cp, c)
    ensures LeftExts(SplitRight(cp, c, t, border, news)) == LeftExts(c) + Exts(t)
    ensures RightExts(SplitRight(cp, c, t, border, news)) == RightExts(c)
  {
    var k := [Kid(c.key, t)];
    KidExtsConcat(c.left, k);
    KidExtsOne(Kid(c.key, t));
    if Full(cp, c) {
      SplitRightExts(cp, c.up, Index(c.loc, c.left + k), border, news[1..]);
      assert LeftExts(SplitRight(cp, c, t, border, news)) == LeftExts(c.up) + (KidExts(c.left) + Exts(t)) + [];
    }
    Assoc(LeftExts(c.up), KidExts(c.left), Exts(t));
  }

  lemma {:induction false} FrontOwn(border: nat, r: Tree, ks: seq<Kid>)
    ensures KidOwn([Kid(border, r)] + ks) == Own(r) + KidOwn(ks)
  {
    assert ([Kid(border, r)] + ks)[1..] == ks;
  }

  /** The left part keeps its well-formed surroundings and its keys. */
  lemma {:induction false} SplitLeftShaped(cp: Caps, c: Ctx, border: nat, r: Tree, news: seq<nat>, d: nat)
    requires CapsOk(cp) && CanSplit(cp, c) && |news| == FullLevels(cp, c) && INODE !in news
    requires ShapedC(cp, c, d) && Shaped(cp, r, d) && First(r) == border
    ensures ShapedC(cp, SplitLeft(cp, c, border, r, news), d)
    ensures forall k :: KeysOk(c, k) ==> KeysOk(SplitLeft(cp, c, border, r, news), k)
  {
    if Full(cp, c) {
      SplitLeftShaped(cp, c.up, border, Index(news[0], [Kid(border, r)] + c.right), news[1..], d + 1);
    }
  }

  lemma {:induction false} SplitLeftRoute(cp: Caps, c: Ctx, border: nat, r: Tree, news: seq<nat>, b: nat)
    requires CanSplit(cp, c) && |news| == FullLevels(cp, c)
    requires Route(c, b) && b < border
    ensures Route(SplitLeft(cp, c, border, r, news), b)
  {
    if Full(cp, c) {
      SplitLeftRoute(cp, c.up, border, Index(news[0], [Kid(border, r)] + c.right), news[1..], b);
    }
  }

  /** The new part, still without extents, is well placed for a first block `border`. */
  lemma {:induction false} SplitRightShaped(cp: Caps, c: Ctx, t: Tree, border: nat, news: seq<nat>, d: nat, hole: nat)
    requires CapsOk(cp) && CanSplit(cp, c) && |news| == FullLevels(cp, c) && INODE !in news
    requires ShapedC(cp, c, d) && Shaped(cp, t, d) && KeysOk(c, First(t)) && OrderedC(c, t.loc)
    requires Route(c, border) && First(t) < border
    ensures ShapedC(cp, SplitRight(cp, c, t, border, news), d)
    ensures KeysOk(SplitRight(cp, c, t, border, news), border)
    ensures Route(SplitRight(cp, c, t, border, news), border)
    ensures OrderedC(SplitRight(cp, c, t, border, news), hole)
  {
    LeftPartShaped(cp, c, t, d);
    if !Full(cp, c) {
      KeyAfter(c, t, border, hole);
    } else {
      SplitRightShaped(cp, c.up, Index(c.loc, c.left + [Kid(c.key, t)]), border, news[1..], d + 1, news[0]);
      KeyFirst(c, t, border, hole);
    }
  }

  lemma {:induction false} LeftPartShaped(cp: Caps, c: Ctx, t: Tree, d: nat)
    requires c.In? && ShapedC(cp, c, d) && Shaped(cp, t, d) && KeysOk(c, First(t))
             && Inc(Entries(c.left, c.key, t.loc, c.right))
    ensures KidsShaped(cp, c.left + [Kid(c.key, t)], d) && |c.left| + 1 <= IdxCap(cp, c.loc)
    ensures First(Index(c.loc, c.left + [Kid(c.key, t)])) == (if c.left == [] then c.key else c.left[0].key) <= c.key
  {
    assert c.left + [Kid(c.key, t)] + [] == c.left + [Kid(c.key, t)];
    NodeShaped(cp, c.left, c.key, t, [], d);
    var es := Entries(c.left, c.key, t.loc, c.right);
    assert es[|c.left|].key == c.key && (c.left != [] ==> es[0].key == c.left[0].key);
  }

  lemma {:induction false} KeyFirst(c: Ctx, t: Tree, border: nat, hole: nat)
    requires c.In? && Inc(Entries(c.left, c.key, t.loc, c.right)) && (c.right == [] || border < c.right[0].key)
    ensures Inc(Entries([], border, hole, c.right))
  {
    var es, fs := Entries(c.left, c.key, t.loc, c.right), Entries([], border, hole, c.right);
    assert c.right != [] ==> es[|c.left| + 1].key == c.right[0].key;
    forall i, j | 0 <= i < j < |fs| ensures fs[i].key < fs[j].key {
      assert fs[j].key == es[|c.left| + j].key;
      if i > 0 { assert fs[i].key == es[|c.left| + i].key; }
      if j > 1 { assert es[|c.left| + 1].key < es[|c.left| + j].key; }
    }
  }

  lemma {:induction false} KeyAfter(c: Ctx, t: Tree, border: nat, hole: nat)
    requires c.In? && Inc(Entries(c.left, c.key, t.loc, c.right))
    requires c.key < border && (c.right == [] || border < c.right[0].key)
    ensures Inc(Entries(c.left + [Kid(c.key, t)], border, hole, c.right))
  {
    var es, fs := Entries(c.left, c.key, t.loc, c.right), Entries(c.left + [Kid(c.key, t)], border, hole, c.right);
    assert forall i :: 0 <= i <= |c.left| ==> fs[i].key == es[i].key;
    assert forall i :: |c.left| + 2 <= i < |fs| ==> fs[i].key == es[i - 1].key;
    assert fs[|c.left| + 1].key == border && es[|c.left|].key == c.key;
    assert c.right != [] ==> es[|c.left| + 1].key == c.right[0].key;
    forall i, j | 0 <= i < j < |fs| ensures fs[i].key < fs[j].key {
      if i <= |c.left| && j > |c.left| {
        assert es[i].key <= c.key;
      }
    }
  }

  /** Every key on the path is below b. */
  ghost predicate PathBelow(c: Ctx, b: nat) {
    c.In? ==> c.key < b && PathBelow(c.up, b)
  }

  lemma {:induction false} PathKeysBelow(c: Ctx, k: nat, hole: nat, b: nat)
    requires KeysOk(c, k) && OrderedC(c, hole) && k < b
    ensures PathBelow(c, b)
  {
    match c
    case Top =>
    case In(up, loc, l, key, r) =>
      var es := Entries(l, key, hole, r);
      assert es[|l|].key == key && (l != [] ==> es[0].key == l[0].key);
      PathKeysBelow(up, if l == [] then k else l[0].key, loc, b);
  }

  ghost function Rev(s: seq<nat>): seq<nat> {
    if s == [] then [] else [s[|s| - 1]] + Rev(s[..|s| - 1])
  }

  lemma {:induction false} RevFacts(s: seq<nat>)
    ensures |Rev(s)| == |s| && forall b :: b in Rev(s) ==> b in s
  {
    if s != [] { RevFacts(s[..|s| - 1]); }
  }

  // ---------- mlfs_ext_grow_indepth ----------

  ghost function Relocated(t: Tree, b: nat): Tree {
    match t
    case Leaf(_, exts) => Leaf(b, exts)
    case Index(_, kids) => Index(b, kids)
  }

  /** The surroundings after the root node, first key reached from hole key k, moved to block b. */
  ghost function GrowC(c: Ctx, b: nat, k: nat): Ctx {
    match c
    case Top => In(Top, INODE, [], k, [])
    case In(up, loc, l, key, r) =>
      In(GrowC(up, b, if l == [] then key else l[0].key), if up.Top? then b else loc, l, key, r)
  }

  ghost function GrowT(c: Ctx, t: Tree, b: nat): Tree {
    if c.Top? then Relocated(t, b) else t
  }

  lemma {:induction false} GrowPlug(c: Ctx, t: Tree, b: nat)
    requires c.In? || t.Leaf?
    requires KeysOk(c, First(t))
    ensures Plug(GrowC(c, b, First(t)), GrowT(c, t, b))
         == Index(INODE, [Kid(First(Plug(c, t)), Relocated(Plug(c, t), b))])
    ensures Depth(GrowC(c, b, First(t))) == Depth(c) + 1
  {
    match c
    case Top =>
      assert [] + [Kid(First(t), Relocated(t, b))] + [] == [Kid(First(t), Relocated(t, b))];
    case In(up, loc, l, key, r) =>
      var n := Index(loc, l + [Kid(key, t)] + r);
      assert First(n) == if l == [] then key else l[0].key;
      if up.Top? {
        var g := In(Top, INODE, [], First(n), []);
        assert GrowC(c, b, First(t)) == In(g, b, l, key, r);
        assert [] + [Kid(First(n), Relocated(n, b))] + [] == [Kid(First(n), Relocated(n, b))];
        assert Plug(g, Relocated(n, b)) == Index(INODE, [Kid(First(n), Relocated(n, b))]);
      } else {
        GrowPlug(up, n, b);
      }
  }

  lemma {:induction false} GrowFacts(cp: Caps, c: Ctx, b: nat, k: nat, d: nat)
    requires CapsOk(cp) && b != INODE && ShapedC(cp, c, d) && KeysOk(c, k)
    ensures LeftExts(GrowC(c, b, k)) == LeftExts(c) && RightExts(GrowC(c, b, k)) == RightExts(c)
    ensures ShapedC(cp, GrowC(c, b, k), d) && KeysOk(GrowC(c, b, k), k)
    ensures forall x: nat :: Route(c, x) ==> Route(GrowC(c, b, k), x)
    ensures CanSplit(cp, GrowC(c, b, k))
  {
    match c
    case Top =>
    case In(up, loc, l, key, r) =>
      GrowFacts(cp, up, b, if l == [] then key else l[0].key, d + 1);
  }

  // ---------- The next leaf (mlfs_ext_next_leaf_block and the search that follows it) ----------

  ghost predicate HasNext(c: Ctx) {
    c.In? && (c.right != [] || HasNext(c.up))
  }

  ghost function NextKey(c: Ctx): nat
    requires HasNext(c)
  {
    if c.right != [] then c.right[0].key else NextKey(c.up)
  }

  /** Leftmost leaf under the hole content t. */
  ghost function DownLeft(c: Ctx, t: Tree): (Ctx, Tree)
    decreases t
  {
    match t
    case Leaf(_, _) => (c, t)
    case Index(loc, ks) =>
      if ks == [] then (c, t)
      else match ks[0] case Kid(k, s) => DownLeft(In(c, loc, [], k, ks[1..]), s)
  }

  /** The cursor on the leaf after the hole (c, t). */
  ghost function NextLeaf(c: Ctx, t: Tree): (Ctx, Tree)
    requires HasNext(c)
  {
    if c.right != [] then DownLeft(NextHere(c, t), c.right[0].sub)
    else NextLeaf(c.up, Index(c.loc, c.left + [Kid(c.key, t)]))
  }

  /** s with its leftmost leaf replaced, all leftmost keys becoming k. */
  ghost function SetFirst(s: Tree, k: nat, leaf: Tree): Tree {
    match s
    case Leaf(_, _) => leaf
    case Index(loc, ks) =>
      if ks == [] then s
      else match ks[0] case Kid(_, sub) => Index(loc, [Kid(k, SetFirst(sub, k, leaf))] + ks[1..])
  }

  lemma {:induction false} DownLeftFacts(cp: Caps, c: Ctx, t: Tree, d: nat, b: nat)
    requires ShapedC(cp, c, d) && Shaped(cp, t, d) && KeysOk(c, First(t)) && Route(c, b)
    requires b == First(t) && Sorted(Exts(t))
    ensures var (c', t') := DownLeft(c, t);
            && Plug(c', t') == Plug(c, t) && Depth(c') == Depth(c) + d && LeftExts(c') == LeftExts(c)
            && t'.Leaf? && ShapedC(cp, c', 0) && Shaped(cp, t', 0) && First(t') == First(t) && KeysOk(c', First(t'))
            && Route(c', b)
    decreases t
  {
    match t
    case Leaf(_, _) =>
    case Index(loc, ks) =>
      KidsInc(cp, ks, d - 1);
      assert ks[0] == Kid(ks[0].key, ks[0].sub);
      assert [] + [Kid(ks[0].key, ks[0].sub)] + ks[1..] == ks;
      if |ks| > 1 { assert Idxs(ks)[0].key < Idxs(ks)[1].key; }
      KidExtsAround([], ks[0], ks[1..]);
      SortedParts(Exts(ks[0].sub), KidExts(ks[1..]));
      DownLeftFacts(cp, In(c, loc, [], ks[0].key, ks[1..]), ks[0].sub, d - 1, b);
  }

  lemma {:induction false} DownLeftFix(c: Ctx, s: Tree, k: nat, leaf: Tree, cp: Caps, d: nat)
    requires Shaped(cp, s, d)
    ensures Plug(FixKeys(DownLeft(c, s).0, k), leaf) == Plug(FixKeys(c, k), SetFirst(s, k, leaf))
    decreases s
  {
    match s
    case Leaf(_, _) =>
    case Index(loc, ks) =>
      var c1 := In(c, loc, [], ks[0].key, ks[1..]);
      var sub := SetFirst(ks[0].sub, k, leaf);
      assert ks[0] == Kid(ks[0].key, ks[0].sub);
      DownLeftFix(c1, ks[0].sub, k, leaf, cp, d - 1);
      assert [] + [Kid(k, sub)] + ks[1..] == [Kid(k, sub)] + ks[1..];
      assert Plug(FixKeys(c1, k), sub) == Plug(FixKeys(c, k), Index(loc, [Kid(k, sub)] + ks[1..]));
  }

  lemma {:induction false} SetFirstShaped(cp: Caps, s: Tree, d: nat, k: nat, leaf: Tree)
    requires Shaped(cp, s, d) && Shaped(cp, leaf, 0) && First(leaf) == k
    ensures Shaped(cp, SetFirst(s, k, leaf), d) && First(SetFirst(s, k, leaf)) == k
    decreases s
  {
    match s
    case Leaf(_, _) =>
    case Index(loc, ks) =>
      assert ks[0] == Kid(ks[0].key, ks[0].sub);
      SetFirstShaped(cp, ks[0].sub, d - 1, k, leaf);
  }

  /** The cursor on the subtree just right of the hole. */
  ghost function NextHere(c: Ctx, t: Tree): Ctx
    requires c.In? && c.right != []
  {
    In(c.up, c.loc, c.left + [Kid(c.key, t)], c.right[0].key, c.right[1..])
  }

  lemma {:induction false} NextHereTree(c: Ctx, t: Tree)
    requires c.In? && c.right != []
    ensures Plug(NextHere(c, t), c.right[0].sub) == Plug(c, t)
    ensures LeftExts(NextHere(c, t)) == LeftExts(c) + Exts(t)
    ensures KidExts(c.left + [Kid(c.key, t)] + c.right)
         == KidExts(c.left) + Exts(t) + (Exts(c.right[0].sub) + KidExts(c.right[1..]))
  {
    var r := c.right;
    assert r == [r[0]] + r[1..] && r[0] == Kid(r[0].key, r[0].sub);
    assert c.left + [Kid(c.key, t)] + r == (c.left + [Kid(c.key, t)]) + [Kid(r[0].key, r[0].sub)] + r[1..];
    KidExtsConcat(c.left, [Kid(c.key, t)]);
    KidExtsOne(Kid(c.key, t));
    KidExtsAround(c.left, Kid(c.key, t), r);
    KidExtsAround([], r[0], r[1..]);
    assert [] + [r[0]] + r[1..] == r;
  }

  lemma {:induction false} NextHereFacts(cp: Caps, c: Ctx, t: Tree, d: nat, b: nat)
    requires ShapedC(cp, c, d) && Shaped(cp, t, d) && KeysOk(c, First(t)) && c.In? && c.right != []
    requires Route(c, b) && Sorted(Exts(Plug(c, t)))
    ensures ShapedC(cp, NextHere(c, t), d) && KeysOk(NextHere(c, t), c.right[0].key)
    ensures Sorted(Exts(c.right[0].sub)) && Route(NextHere(c, t), c.right[0].key)
  {
    var n, r := Index(c.loc, c.left + [Kid(c.key, t)] + c.right), c.right;
    NextHereTree(c, t);
    PlugExts(NextHere(c, t), r[0].sub);
    var a, m, z := LeftExts(c) + Exts(t), Exts(r[0].sub), RightExts(NextHere(c, t));
    SortedParts(a + m, z);
    SortedParts(a, m);
    FirstIsFirst(cp, r[0].sub, d);
    assert (a + m)[|a|] == m[0] && Good(m[0]);
    assert Above(z, r[0].key + 1);
    RouteOn(cp, c.up, d + 1, b, r[0].key) by {
      var k, u := KidExts(r[1..]), RightExts(c.up);
      assert z == k + u;
      assert forall i :: 0 <= i < |u| ==> z[|k| + i] == u[i];
    }
    if |r| > 1 {
      KidsFirst(cp, r[1..], d);
      assert z[0] == KidExts(r[1..])[0];
    }
  }

  /** The next leaf is well placed for a search of its own first key. */
  /** The parent of a last child. */
  lemma {:induction false} LastChild(cp: Caps, c: Ctx, t: Tree, d: nat)
    requires ShapedC(cp, c, d) && Shaped(cp, t, d) && KeysOk(c, First(t)) && c.In? && c.right == []
    ensures var n := Index(c.loc, c.left + [Kid(c.key, t)]);
            && Shaped(cp, n, d + 1) && Plug(c.up, n) == Plug(c, t) && Exts(n) == KidExts(c.left) + Exts(t)
            && KeysOk(c.up, First(n))
  {
    assert c.left + [Kid(c.key, t)] + c.right == c.left + [Kid(c.key, t)];
    PlugShaped(cp, In(Top, c.loc, c.left, c.key, c.right), t, d);
    KidExtsConcat(c.left, [Kid(c.key, t)]);
    KidExtsOne(Kid(c.key, t));
  }

  lemma {:induction false} NextLeafFacts(cp: Caps, c: Ctx, t: Tree, d: nat, b: nat)
    requires ShapedC(cp, c, d) && Shaped(cp, t, d) && KeysOk(c, First(t)) && HasNext(c)
    requires Route(c, b) && Sorted(Exts(Plug(c, t)))
    ensures var (c', t') := NextLeaf(c, t);
            && Plug(c', t') == Plug(c, t) && Depth(c') == Depth(c) + d && LeftExts(c') == LeftExts(c) + Exts(t)
            && t'.Leaf? && ShapedC(cp, c', 0) && Shaped(cp, t', 0) && First(t') == NextKey(c)
            && KeysOk(c', First(t')) && Route(c', NextKey(c)) && b < NextKey(c)
  {
    if c.right != [] {
      NextHereTree(c, t);
      NextHereFacts(cp, c, t, d, b);
      DownLeftFacts(cp, NextHere(c, t), c.right[0].sub, d, c.right[0].key);
    } else {
      var n := Index(c.loc, c.left + [Kid(c.key, t)]);
      LastChild(cp, c, t, d);
      NextLeafFacts(cp, c.up, n, d + 1, b);
      Assoc(LeftExts(c.up), KidExts(c.left), Exts(t));
    }
  }

  /** Back from the next leaf, once rewritten, to the hole before it. */
  lemma {:induction false} NextBack(cp: Caps, c: Ctx, t: Tree, d: nat, k: nat, leaf: Tree) returns (c': Ctx)
    requires ShapedC(cp, c, d) && HasNext(c) && Shaped(cp, leaf, 0) && First(leaf) == k
    ensures Plug(FixKeys(NextLeaf(c, t).0, k), leaf) == Plug(c', t)
    ensures PathOf(c') == PathOf(c) && Depth(c') == Depth(c) && LeftExts(c') == LeftExts(c) && ShapedC(cp, c', d)
    ensures forall f :: KeysOk(c, f) ==> KeysOk(c', f)
  {
    if c.right != [] {
      var s, r := SetFirst(c.right[0].sub, k, leaf), c.right;
      DownLeftFix(NextHere(c, t), r[0].sub, k, leaf, cp, d);
      SetFirstShaped(cp, r[0].sub, d, k, leaf);
      c' := c.(right := [Kid(k, s)] + r[1..]);
      assert c.left + [Kid(c.key, t)] + [Kid(k, s)] + r[1..] == c.left + [Kid(c.key, t)] + ([Kid(k, s)] + r[1..]);
    } else {
      var n := Index(c.loc, c.left + [Kid(c.key, t)]);
      var up := NextBack(cp, c.up, n, d + 1, k, leaf);
      c' := c.(up := up);
      assert n.kids == c.left + [Kid(c.key, t)] + c.right;
    }
  }

  /** A route for b is one for any later block before everything to the right. */
  lemma {:induction false} RouteOn(cp: Caps, c: Ctx, d: nat, b: nat, k: nat)
    requires Route(c, b) && b <= k && ShapedC(cp, c, d) && Above(RightExts(c), k + 1)
    ensures Route(c, k)
  {
    if c.In? {
      var a, z := KidExts(c.right), RightExts(c.up);
      assert forall i :: 0 <= i < |z| ==> (a + z)[|a| + i] == z[i];
      RouteOn(cp, c.up, d + 1, b, k);
      if c.right != [] {
        KidsFirst(cp, c.right, d);
        assert (a + z)[0] == a[0];
      }
    }
  }
}
