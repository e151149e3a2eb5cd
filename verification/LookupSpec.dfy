/** What a search tells about the block map: covered blocks, holes, and the room before the
    next extent. */
module LookupSpec {
  import opened Extents
  import opened ExtentTrees
  import opened TreeEdits
  import opened InsertSpec

  /** Where block b belongs: at a leaf of a well-formed tree, or in an empty root. */
  ghost predicate Spot(cp: Caps, c: Ctx, t: Tree, b: nat) {
    (Settled(cp, c, t) && Route(c, b)) || (c == Top && t == Leaf(INODE, []))
  }

  /** Where a search for block b ends. */
  ghost predicate Searched(cp: Caps, c: Ctx, t: Tree, b: nat, pos: int) {
    t.Leaf? && LeafAt(t.exts, b, pos) && Spot(cp, c, t, b)
  }

  /** mlfs_ext_next_allocated_block */
  ghost function NextAt(c: Ctx, t: Tree, pos: int): nat
    requires t.Leaf? && -1 <= pos < |t.exts|
  {
    if 0 <= pos && pos + 1 < |t.exts| then t.exts[pos + 1].lblk
    else if HasNext(c) then NextKey(c) else EXT_MAX_BLOCKS
  }

  /** What follows the extent at the cursor, in file order. */
  ghost function After(c: Ctx, t: Tree, pos: int): seq<Extent>
    requires t.Leaf? && -1 <= pos < |t.exts|
  {
    t.exts[pos + 1..] + RightExts(c)
  }

  ghost function Before(c: Ctx, t: Tree, pos: int): seq<Extent>
    requires t.Leaf? && 0 <= pos < |t.exts|
  {
    LeftExts(c) + t.exts[..pos]
  }

  lemma {:induction false} AllAround(c: Ctx, t: Tree, pos: int)
    requires t.Leaf? && 0 <= pos < |t.exts|
    ensures All(c, t) == Before(c, t, pos) + [t.exts[pos]] + After(c, t, pos)
  {
    assert t.exts == t.exts[..pos] + [t.exts[pos]] + t.exts[pos + 1..];
  }

  lemma {:induction false} RightFirst(cp: Caps, c: Ctx, d: nat)
    requires ShapedC(cp, c, d)
    ensures HasNext(c) <==> RightExts(c) != []
    ensures HasNext(c) ==> RightExts(c)[0].lblk == NextKey(c)
  {
    if c.In? {
      RightFirst(cp, c.up, d + 1);
      if c.right != [] { KidsFirst(cp, c.right, d); }
    }
  }

  /** Everything before the found extent ends at or below it; and at or below b, unless the
      found extent is the very first of the file. */
  lemma {:induction false} BeforeFacts(cp: Caps, c: Ctx, t: Tree, b: nat, pos: int)
    requires Searched(cp, c, t, b, pos) && pos >= 0
    ensures Sorted(All(c, t)) && Below(Before(c, t, pos), t.exts[pos].lblk)
    ensures Before(c, t, pos) != [] ==> t.exts[pos].lblk <= b
  {
    AllParts(c, t);
    AllAround(c, t, pos);
    SortedParts(Before(c, t, pos) + [t.exts[pos]], After(c, t, pos));
    SortedParts(Before(c, t, pos), [t.exts[pos]]);
    assert [t.exts[pos]][0] == t.exts[pos];
    if pos == 0 && LeftExts(c) != [] { RouteLeft(c, First(t), b); }
  }

  /** Everything after the found extent starts at or above `next`, which is above b and the
      start of an extent unless there is none. */
  lemma {:induction false} AfterFacts(cp: Caps, c: Ctx, t: Tree, b: nat, pos: int)
    requires Searched(cp, c, t, b, pos) && b < EXT_MAX_BLOCKS
    ensures b < NextAt(c, t, pos) <= EXT_MAX_BLOCKS && Above(After(c, t, pos), NextAt(c, t, pos))
    ensures After(c, t, pos) == [] <==> NextAt(c, t, pos) == EXT_MAX_BLOCKS
    ensures After(c, t, pos) != [] ==> After(c, t, pos)[0].lblk == NextAt(c, t, pos)
    ensures Sorted(After(c, t, pos))
  {
    if t.exts != [] {
      RightFirst(cp, c, 0);
      AllAround(c, t, pos);
      SortedParts(Before(c, t, pos) + [t.exts[pos]], After(c, t, pos));
      AllParts(c, t);
      RouteRight(cp, c, 0, b);
      var z := After(c, t, pos);
      if z != [] {
        assert z[0].lblk == NextAt(c, t, pos) && Good(z[0]);
        forall i | 0 <= i < |z| ensures z[0].lblk <= z[i].lblk { if i > 0 { assert Precedes(z[0], z[i]); } }
      }
    }
  }

  lemma {:induction false} NextRange(cp: Caps, c: Ctx, t: Tree, b: nat, pos: int)
    requires Searched(cp, c, t, b, pos) && b < EXT_MAX_BLOCKS
    ensures b < NextAt(c, t, pos) <= EXT_MAX_BLOCKS
  {
    AfterFacts(cp, c, t, b, pos);
  }

  lemma {:induction false} NotIn(a: seq<Extent>, e: Extent, z: seq<Extent>, b: nat)
    requires (forall i :: 0 <= i < |a| ==> End(a[i]) <= b) && !(e.lblk <= b < End(e)) && Above(z, b + 1)
    ensures b !in BlockMap(a + [e] + z)
  {
    var s := a + [e] + z;
    forall i | 0 <= i < |s| ensures !(s[i].lblk <= b < End(s[i])) {
      if i < |a| { assert s[i] == a[i]; } else if i > |a| { assert s[i] == z[i - |a| - 1]; }
    }
    BlockMapNone(s, b);
  }

  /** A block is mapped exactly when the extent found for it covers it. */
  lemma {:induction false} Covered(cp: Caps, c: Ctx, t: Tree, b: nat, pos: int)
    requires Searched(cp, c, t, b, pos) && b < EXT_MAX_BLOCKS
    ensures b in BlockMap(All(c, t)) <==> pos >= 0 && t.exts[pos].lblk <= b < End(t.exts[pos])
    ensures b in BlockMap(All(c, t)) ==> BlockMap(All(c, t))[b] == CellAt(t.exts[pos], b)
  {
    if pos < 0 {
      assert All(c, t) == [];
    } else {
      var a, e, z := Before(c, t, pos), t.exts[pos], After(c, t, pos);
      AllAround(c, t, pos);
      BeforeFacts(cp, c, t, b, pos);
      if e.lblk <= b < End(e) {
        assert All(c, t)[|a|] == e;
        BlockMapAt(All(c, t), |a|, b);
      } else {
        AfterFacts(cp, c, t, b, pos);
        NotIn(a, e, z, b);
      }
    }
  }

  /** From a covered block on, the rest of its extent is mapped in one run. */
  lemma {:induction false} CoveredRun(cp: Caps, c: Ctx, t: Tree, b: nat, pos: int, i: nat)
    requires Searched(cp, c, t, b, pos) && pos >= 0 && t.exts[pos].lblk <= b && b + i < End(t.exts[pos])
    ensures b + i in BlockMap(All(c, t)) && BlockMap(All(c, t))[b + i]
            == Cell(t.exts[pos].pblk + (b + i - t.exts[pos].lblk), Unwritten(t.exts[pos]))
  {
    AllAround(c, t, pos);
    BeforeFacts(cp, c, t, b, pos);
    assert All(c, t)[|Before(c, t, pos)|] == t.exts[pos];
    BlockMapAt(All(c, t), |Before(c, t, pos)|, b + i);
  }

  /** mlfs_ext_determine_hole, less the part of the hole before b. */
  function HoleLen(s: seq<Extent>, pos: int, next: nat, b: nat): int
    requires -1 <= pos < |s|
  {
    if pos < 0 then EXT_MAX_BLOCKS - b
    else if b < s[pos].lblk then s[pos].lblk - b
    else (next - End(s[pos])) - (b - End(s[pos]))
  }

  lemma {:induction false} HoleBefore(a: seq<Extent>, e: Extent, z: seq<Extent>, b: nat)
    requires Sorted(a + [e] + z) && b < e.lblk && a == []
    ensures forall x :: b <= x < e.lblk ==> x !in BlockMap(a + [e] + z)
  {
    HoleBeforeNext(a, e, z);
    forall x | b <= x < e.lblk ensures x !in BlockMap(a + [e] + z) { NotIn(a, e, z, x); }
  }

  lemma {:induction false} HoleAfter(a: seq<Extent>, e: Extent, z: seq<Extent>, b: nat, next: nat)
    requires Below(a, e.lblk) && End(e) <= b && Above(z, next) && next >= b
    ensures forall x :: b <= x < next ==> x !in BlockMap(a + [e] + z)
  {
    forall x | b <= x < next ensures x !in BlockMap(a + [e] + z) { NotIn(a, e, z, x); }
  }

  /** The hole is a hole ... */
  lemma {:induction false} HoleFacts(cp: Caps, c: Ctx, t: Tree, b: nat, pos: int)
    requires Searched(cp, c, t, b, pos) && b < EXT_MAX_BLOCKS && b !in BlockMap(All(c, t))
    ensures var n := HoleLen(t.exts, pos, NextAt(c, t, pos), b);
            0 < n <= EXT_MAX_BLOCKS - b && forall x :: b <= x < b + n ==> x !in BlockMap(All(c, t))
  {
    Covered(cp, c, t, b, pos);
    if pos < 0 {
      assert All(c, t) == [];
    } else {
      var a, e, z := Before(c, t, pos), t.exts[pos], After(c, t, pos);
      AllAround(c, t, pos);
      BeforeFacts(cp, c, t, b, pos);
      if b < e.lblk {
        HoleBefore(a, e, z, b);
        assert Good(e) by { HoleBeforeNext(a, e, z); }
      } else {
        AfterFacts(cp, c, t, b, pos);
        HoleAfter(a, e, z, b, NextAt(c, t, pos));
      }
    }
  }

  lemma {:induction false} HoleBeforeNext(a: seq<Extent>, e: Extent, z: seq<Extent>)
    requires Sorted(a + [e] + z)
    ensures Above(z, e.lblk) && Good(e)
  {
    SortedParts(a + [e], z);
    assert (a + [e])[|a|] == e && Good((a + [e])[|a|]);
  }

  /** ... that ends where the next mapped block begins. */
  lemma {:induction false} HoleEnd(cp: Caps, c: Ctx, t: Tree, b: nat, pos: int)
    requires Searched(cp, c, t, b, pos) && b < EXT_MAX_BLOCKS && b !in BlockMap(All(c, t))
    ensures var n := HoleLen(t.exts, pos, NextAt(c, t, pos), b);
            b + n < EXT_MAX_BLOCKS ==> b + n in BlockMap(All(c, t))
  {
    Covered(cp, c, t, b, pos);
    if pos >= 0 {
      var s, a, e, z := All(c, t), Before(c, t, pos), t.exts[pos], After(c, t, pos);
      AllAround(c, t, pos);
      BeforeFacts(cp, c, t, b, pos);
      AfterFacts(cp, c, t, b, pos);
      if b < e.lblk {
        assert s[|a|] == e && Good(s[|a|]);
        BlockMapAt(s, |a|, e.lblk);
      } else if z != [] {
        assert s[|a| + 1] == z[0] && Good(s[|a| + 1]);
        BlockMapAt(s, |a| + 1, z[0].lblk);
      }
    }
  }

  // ---------- Allocation ----------

  /** How many blocks mlfs_ext_get_blocks asks the allocator for. */
  function Wanted(next: nat, b: nat, len: nat): int {
    if next - b > len then len else next - b
  }

  /** The request does not start in front of the first extent of the file and reach into it. */
  ghost predicate ClearOfFirst(s: seq<Extent>, b: nat, len: nat) {
    s == [] || s[0].lblk <= b || b + len <= s[0].lblk
  }

  ghost function NewExtent(b: nat, n: nat, p: nat, unwritten: bool): Extent {
    WithLen(Extent(b, 0, p), n, unwritten)
  }

  lemma {:induction false} RoomAfter(a: seq<Extent>, f: Extent, z: seq<Extent>, e: Extent)
    requires Below(a, f.lblk) && f.lblk < e.lblk && End(f) <= e.lblk && Above(z, End(e))
    ensures NoOverlap(a + [f] + z, e) && (a + [f] + z)[0].lblk <= e.lblk
  {
    var s := a + [f] + z;
    forall i | 0 <= i < |s| ensures End(s[i]) <= e.lblk || End(e) <= s[i].lblk {
      if i < |a| { assert s[i] == a[i]; } else if i > |a| { assert s[i] == z[i - |a| - 1]; }
    }
    if a != [] { assert s[0] == a[0]; }
  }

  lemma {:induction false} RoomBefore(f: Extent, z: seq<Extent>, e: Extent)
    requires Sorted([] + [f] + z) && e.lblk < f.lblk
    ensures NoOverlap([] + [f] + z, e) <==> End(e) <= f.lblk
    ensures ([] + [f] + z)[0] == f && Good(f) && (z != [] ==> End(f) <= z[0].lblk)
  {
    var s := [] + [f] + z;
    assert s[0] == f && Good(s[0]);
    assert z != [] ==> Precedes(s[0], s[1]);
    forall i | 0 < i < |s| ensures End(f) <= s[i].lblk { assert Precedes(s[0], s[i]); }
  }

  /** The room taken is free exactly when the request is clear of the first extent: the code
      bounds it by the extent after the one found, which is only right if the one found lies
      at or before b. */
  lemma {:induction false} RoomIsFree(cp: Caps, c: Ctx, t: Tree, b: nat, pos: int, len: nat, e: Extent)
    requires Searched(cp, c, t, b, pos) && b < EXT_MAX_BLOCKS && b !in BlockMap(All(c, t)) && len >= 1
    requires e.lblk == b && Len(e) == Wanted(NextAt(c, t, pos), b, len)
    ensures NoOverlap(All(c, t), e) <==> ClearOfFirst(All(c, t), b, len)
  {
    Covered(cp, c, t, b, pos);
    AfterFacts(cp, c, t, b, pos);
    if pos < 0 {
      assert All(c, t) == [];
    } else {
      var a, f, z := Before(c, t, pos), t.exts[pos], After(c, t, pos);
      AllAround(c, t, pos);
      BeforeFacts(cp, c, t, b, pos);
      if f.lblk <= b {
        assert Good(f) by { HoleBeforeNext(a, f, z); }
        RoomAfter(a, f, z, e);
      } else {
        assert a == [];
        RoomBefore(f, z, e);
      }
    }
  }

  /** A shorter run than asked for is free as well. */
  lemma {:induction false} ShorterFree(s: seq<Extent>, e: Extent, e': Extent)
    requires NoOverlap(s, e) && e'.lblk == e.lblk && Len(e') <= Len(e)
    ensures NoOverlap(s, e')
  {
  }

  /** One extent of 5 blocks at block 10, a request for blocks 8 to 12: the code takes all
      five, three of which are already mapped. */
  lemma {:induction false} OverlapBeforeFirst(cp: Caps)
    requires CapsOk(cp)
    ensures var f := Extent(10, 5, 100);
            var t := Leaf(INODE, [f]);
            && Searched(cp, Top, t, 8, 0) && 8 !in BlockMap(All(Top, t))
            && Wanted(NextAt(Top, t, 0), 8, 5) == 5 && !NoOverlap(All(Top, t), NewExtent(8, 5, 200, false))
  {
    var f := Extent(10, 5, 100);
    assert All(Top, Leaf(INODE, [f])) == [f];
    BlockMapOne(f);
  }

  /** The new extent goes in front of the old one, and a search for the blocks they share ends at
      the old one: what is written through the new extent is not found again. */
  lemma {:induction false} OldExtentWins(p: nat, b: nat)
    requires 10 <= b < 13
    ensures var e, f := NewExtent(8, 5, p, false), Extent(10, 5, 100);
            var s := Inserted([f], NearPos([f], 0, e), e);
            && s == [e, f] && e.lblk <= b < End(e) && f.lblk <= b < End(f)
            && LeafAt(s, b, 1) && CellAt(s[1], b) == Cell(100 + (b - 10), false)
  {
    var e, f := NewExtent(8, 5, p, false), Extent(10, 5, 100);
    assert [f][..0] + [e] + [f][0..] == [e, f];
  }

  lemma {:induction false} NewExtentFacts(b: nat, n: nat, p: nat, unwritten: bool)
    requires 1 <= n <= EXT_INIT_MAX_LEN && b + n <= EXT_MAX_BLOCKS && (unwritten ==> n <= EXT_UNWRITTEN_MAX_LEN)
    ensures var e := NewExtent(b, n, p, unwritten);
            Good(e) && e.lblk == b && Len(e) == n && e.pblk == p && Unwritten(e) == unwritten
  {
    WithLenReads(Extent(b, 0, p), n, unwritten);
  }

  /** Blocks that no extent overlaps are not mapped. */
  lemma {:induction false} OverlapKeys(s: seq<Extent>, e: Extent)
    requires NoOverlap(s, e)
    ensures Run(e).Keys !! BlockMap(s).Keys
  {
    forall b: int | b in Run(e) ensures b !in BlockMap(s) {
      BlockMapNone(s, b);
    }
  }
}
