/** Cutting one extent in two at a block, and changing the state of the pieces. */
module SplitSpec {
  import opened Extents
  import opened ExtentTrees
  import opened TreeEdits
  import opened InsertSpec

  function FirstPart(e: Extent, split: nat, unw1: bool): Extent
    requires e.lblk < split
  {
    WithLen(e, split - e.lblk, unw1)
  }

  function SecondPart(e: Extent, split: nat, unw2: bool): Extent
    requires e.lblk <= split <= End(e)
  {
    WithLen(Extent(split, 0, e.pblk + (split - e.lblk)), Len(e) - (split - e.lblk), unw2)
  }

  function Marked(e: Extent, unwritten: bool): Extent {
    if unwritten then MarkUnwritten(e) else MarkInitialized(e)
  }

  /** What mlfs_split_extent_at makes of extent e. */
  function SplitOf(e: Extent, split: nat, unw1: bool, unw2: bool): seq<Extent>
    requires e.lblk <= split < End(e)
  {
    if split == e.lblk then [Marked(e, unw2)] else [FirstPart(e, split, unw1), SecondPart(e, split, unw2)]
  }

  lemma {:induction false} PartFacts(e: Extent, split: nat, unw1: bool, unw2: bool)
    requires Good(e) && e.lblk < split < End(e)
    ensures var a, b := FirstPart(e, split, unw1), SecondPart(e, split, unw2);
            && Good(a) && a.lblk == e.lblk && End(a) == split && Unwritten(a) == unw1
            && Good(b) && b.lblk == split && End(b) == End(e) && Unwritten(b) == unw2
            && a.pblk == e.pblk && b.pblk == e.pblk + (split - e.lblk)
            && Phys(a) + Phys(b) == Phys(e)
  {
    var a, b := FirstPart(e, split, unw1), SecondPart(e, split, unw2);
    WithLenReads(e, split - e.lblk, unw1);
    WithLenReads(Extent(split, 0, e.pblk + (split - e.lblk)), Len(e) - (split - e.lblk), unw2);
    SpanConcat(e.pblk, Len(a), Len(b));
  }

  lemma {:induction false} MarkedFacts(e: Extent, unwritten: bool)
    requires Good(e) && (unwritten ==> Len(e) <= EXT_UNWRITTEN_MAX_LEN)
    ensures var m := Marked(e, unwritten);
            Good(m) && m.lblk == e.lblk && End(m) == End(e) && m.pblk == e.pblk && Unwritten(m) == unwritten
  {
  }

  /** The cut as a change of the block map: the same physical blocks, new states. */
  lemma {:induction false} SplitCells(e: Extent, split: nat, unw1: bool, unw2: bool, b: nat)
    requires Good(e) && e.lblk <= split < End(e) && (split == e.lblk && unw2 ==> Len(e) <= EXT_UNWRITTEN_MAX_LEN)
    ensures b in BlockMap(SplitOf(e, split, unw1, unw2)) <==> b in Run(e)
    ensures b in Run(e) ==>
              BlockMap(SplitOf(e, split, unw1, unw2))[b] == Cell(Run(e)[b].pblk, if b < split then unw1 else unw2)
  {
    if split == e.lblk {
      MarkedFacts(e, unw2);
      BlockMapOne(Marked(e, unw2));
    } else {
      PartFacts(e, split, unw1, unw2);
      var p, q := FirstPart(e, split, unw1), SecondPart(e, split, unw2);
      assert [p, q] == [p] + [q];
      BlockMapConcat([p], [q]);
      BlockMapOne(p);
      BlockMapOne(q);
    }
  }

  lemma {:induction false} RunInside(a: map<int, Cell>, e: map<int, Cell>, b: map<int, Cell>, e': map<int, Cell>,
                                     x: map<int, Cell>)
    requires e'.Keys + x.Keys == e.Keys && e.Keys !! b.Keys
    ensures a + e' + b + x == a + e + b + (e' + x)
  {
  }

  /** Replacing extent `pos` by another one over part of the same blocks. */
  lemma {:induction false} ReplaceMap(s: seq<Extent>, pos: nat, e': Extent, x: map<int, Cell>)
    requires Sorted(s) && pos < |s| && Run(e').Keys + x.Keys == Run(s[pos]).Keys
    ensures BlockMap(s[pos := e']) + x == BlockMap(s) + (Run(e') + x)
  {
    var a, e, b := s[..pos], s[pos], s[pos + 1..];
    assert s == a + [e] + b && s[pos := e'] == a + [e'] + b;
    BlockMapConcat(a + [e], b);
    BlockMapConcat(a, [e]);
    BlockMapConcat(a + [e'], b);
    BlockMapConcat(a, [e']);
    BlockMapOne(e);
    BlockMapOne(e');
    SortedParts(a + [e], b);
    assert (a + [e])[pos] == e;
    KeysAbove(b, End(e));
    RunInside(BlockMap(a), Run(e), BlockMap(b), Run(e'), x);
  }

  lemma {:induction false} ReplaceWhole(s: seq<Extent>, pos: nat, e': Extent)
    requires Sorted(s) && pos < |s| && Run(e').Keys == Run(s[pos]).Keys
    ensures BlockMap(s[pos := e']) == BlockMap(s) + Run(e')
  {
    ReplaceMap(s, pos, e', map[]);
    AddNothing(BlockMap(s[pos := e']));
    AddNothing(Run(e'));
  }

  lemma {:induction false} AddNothing(m: map<int, Cell>)
    ensures m + map[] == m
  {
  }

  lemma {:induction false} ReplaceSorted(s: seq<Extent>, pos: nat, e': Extent)
    requires Sorted(s) && pos < |s| && Good(e') && s[pos].lblk <= e'.lblk && End(e') <= End(s[pos])
    ensures Sorted(s[pos := e'])
  {
    var r := s[pos := e'];
    forall i, j | 0 <= i < j < |r| ensures End(r[i]) <= r[j].lblk { assert Precedes(s[i], s[j]); }
  }

  lemma {:induction false} ReplacePhys(s: seq<Extent>, pos: nat, e': Extent, x: multiset<int>, y: multiset<int>)
    requires pos < |s| && Phys(e') + y == Phys(s[pos])
    ensures PhysAll(s[pos := e']) + (x + y) == PhysAll(s) + x
  {
    var a, e, b := s[..pos], s[pos], s[pos + 1..];
    assert s == a + [e] + b && s[pos := e'] == a + [e'] + b;
    PhysConcat(a + [e], b);
    PhysConcat(a, [e]);
    PhysConcat(a + [e'], b);
    PhysConcat(a, [e']);
    BlockMapOne(e);
    BlockMapOne(e');
    SumSwap(PhysAll(a), Phys(e'), PhysAll(b), Phys(e), x, y);
  }

  lemma {:induction false} SumSwap(a: multiset<int>, m: multiset<int>, b: multiset<int>, n: multiset<int>,
                                   x: multiset<int>, y: multiset<int>)
    requires m + y == n
    ensures a + m + b + (x + y) == a + n + b + x
  {
  }

  /** The leaf under the cursor with extent `pos` replaced. */
  ghost function WithEntry(t: Tree, pos: nat, e': Extent): Tree
    requires t.Leaf? && pos < |t.exts|
  {
    Leaf(t.loc, t.exts[pos := e'])
  }

  lemma {:induction false} AllReplace(c: Ctx, t: Tree, pos: nat, e': Extent)
    requires t.Leaf? && pos < |t.exts|
    ensures var n := |LeftExts(c)| + pos;
            n < |All(c, t)| && All(c, t)[n] == t.exts[pos] && All(c, WithEntry(t, pos, e')) == All(c, t)[n := e']
  {
  }

  /** The cursor stays settled when one of its extents is replaced within its bounds. */
  lemma {:induction false} SettledReplace(cp: Caps, c: Ctx, t: Tree, pos: nat, e': Extent)
    requires Settled(cp, c, t) && pos < |t.exts| && Good(e') && e'.lblk == t.exts[pos].lblk
             && End(e') <= End(t.exts[pos])
    ensures Settled(cp, c, WithEntry(t, pos, e'))
  {
    AllReplace(c, t, pos, e');
    ReplaceSorted(All(c, t), |LeftExts(c)| + pos, e');
  }

  /** Before the second part is inserted it has its place right after the first part. */
  lemma {:induction false} ReadySecond(cp: Caps, c: Ctx, t: Tree, pos: nat, split: nat, unw1: bool, unw2: bool)
    requires CapsOk(cp) && Settled(cp, c, t) && pos < |t.exts|
    requires t.exts[pos].lblk < split < End(t.exts[pos]) && Route(c, t.exts[pos].lblk)
    ensures var e := t.exts[pos];
            Ready(cp, c, WithEntry(t, pos, FirstPart(e, split, unw1)), SecondPart(e, split, unw2), pos)
  {
    var e := t.exts[pos];
    AllParts(c, t);
    PartFacts(e, split, unw1, unw2);
    var p, q := FirstPart(e, split, unw1), SecondPart(e, split, unw2);
    SettledReplace(cp, c, t, pos, p);
    AllReplace(c, t, pos, p);
    var s, n := All(c, t), |LeftExts(c)| + pos;
    var s' := s[n := p];
    forall i | 0 <= i < |s'| ensures End(s'[i]) <= q.lblk || End(q) <= s'[i].lblk {
      if i < n { assert Precedes(s[i], s[n]); } else if i > n { assert Precedes(s[n], s[i]); }
    }
    RouteOn(cp, c, 0, e.lblk, split);
    assert pos + 1 < |t.exts| ==> Precedes(t.exts[pos], t.exts[pos + 1]);
  }

  lemma {:induction false} SecondMap(c: Ctx, t: Tree, pos: nat, split: nat, unw1: bool, unw2: bool)
    requires t.Leaf? && Sorted(All(c, t)) && pos < |t.exts| && t.exts[pos].lblk < split < End(t.exts[pos])
             && Good(t.exts[pos])
    ensures var e := t.exts[pos];
            BlockMap(All(c, WithEntry(t, pos, FirstPart(e, split, unw1)))) + Run(SecondPart(e, split, unw2))
            == BlockMap(All(c, t)) + BlockMap(SplitOf(e, split, unw1, unw2))
  {
    var e := t.exts[pos];
    var p, q := FirstPart(e, split, unw1), SecondPart(e, split, unw2);
    PartFacts(e, split, unw1, unw2);
    AllReplace(c, t, pos, p);
    ReplaceMap(All(c, t), |LeftExts(c)| + pos, p, Run(q));
    assert [p, q] == [p] + [q];
    BlockMapConcat([p], [q]);
    BlockMapOne(p);
    BlockMapOne(q);
  }

  lemma {:induction false} MarkedMap(c: Ctx, t: Tree, pos: nat, unwritten: bool)
    requires t.Leaf? && Sorted(All(c, t)) && pos < |t.exts| && Good(t.exts[pos])
    requires unwritten ==> Len(t.exts[pos]) <= EXT_UNWRITTEN_MAX_LEN
    ensures var m := Marked(t.exts[pos], unwritten);
            BlockMap(All(c, WithEntry(t, pos, m))) == BlockMap(All(c, t)) + BlockMap([m])
  {
    var m := Marked(t.exts[pos], unwritten);
    MarkedFacts(t.exts[pos], unwritten);
    AllReplace(c, t, pos, m);
    ReplaceWhole(All(c, t), |LeftExts(c)| + pos, m);
    BlockMapOne(m);
  }

  /** A cut that keeps the state of both parts keeps the block map. */
  lemma {:induction false} SplitSame(s: seq<Extent>, i: nat, split: nat)
    requires Sorted(s) && i < |s| && s[i].lblk < split < End(s[i])
    ensures BlockMap(s) + BlockMap(SplitOf(s[i], split, Unwritten(s[i]), Unwritten(s[i]))) == BlockMap(s)
  {
    var e := s[i];
    var m := BlockMap(SplitOf(e, split, Unwritten(e), Unwritten(e)));
    forall b | b in m ensures b in BlockMap(s) && BlockMap(s)[b] == m[b] {
      if b >= 0 {
        SplitCells(e, split, Unwritten(e), Unwritten(e), b);
        BlockMapAt(s, i, b);
      } else {
        MapKeys(SplitOf(e, split, Unwritten(e), Unwritten(e)), b);
      }
    }
  }

  lemma {:induction false} MapKeys(s: seq<Extent>, b: int)
    requires b in BlockMap(s)
    ensures b >= 0
  {
    KeysAbove(s, 0);
  }

  /** The part of an unwritten extent from block b on, initialised. */
  ghost function Initialised(e: Extent, b: nat): Extent
    requires e.lblk <= b < End(e)
  {
    Extent(b, End(e) - b, e.pblk + (b - e.lblk))
  }

  lemma {:induction false} InitialisedRun(e: Extent, b: nat, x: nat)
    requires Good(e) && e.lblk <= b < End(e)
    ensures Len(Initialised(e, b)) == End(e) - b && !Unwritten(Initialised(e, b))
    ensures x in Run(Initialised(e, b)) <==> b <= x < End(e)
    ensures b <= x < End(e) ==> Run(Initialised(e, b))[x] == Cell(Run(e)[x].pblk, false)
  {
    var q := Initialised(e, b);
    assert End(q) == End(e);
    if b <= x < End(e) { assert CellAt(q, x) == Cell(CellAt(e, x).pblk, false); }
  }

  lemma {:induction false} ConvertCell(s: seq<Extent>, i: nat, b: nat, x: nat)
    requires Sorted(s) && i < |s| && s[i].lblk <= b < End(s[i]) && Unwritten(s[i])
    ensures var p, q := BlockMap(SplitOf(s[i], b, true, false)), Run(Initialised(s[i], b));
            && (x in p ==> x in BlockMap(s) && p[x] == if x in q then q[x] else BlockMap(s)[x])
            && (x in q ==> x in p)
  {
    var e := s[i];
    InitialisedRun(e, b, x);
    SplitCells(e, b, true, false, x);
    if x in Run(e) { BlockMapAt(s, i, x); }
  }

  /** mlfs_ext_convert_to_initialized as get_blocks calls it: the cells from b to the end of the
      extent become initialised, all others stay. */
  lemma {:induction false} ConvertMap(s: seq<Extent>, i: nat, b: nat)
    requires Sorted(s) && i < |s| && s[i].lblk <= b < End(s[i]) && Unwritten(s[i])
    ensures BlockMap(s) + BlockMap(SplitOf(s[i], b, true, false)) == BlockMap(s) + Run(Initialised(s[i], b))
  {
    var e := s[i];
    var p, q := BlockMap(SplitOf(e, b, true, false)), Run(Initialised(e, b));
    forall x ensures x in p ==> x in BlockMap(s) && p[x] == if x in q then q[x] else BlockMap(s)[x]
             ensures x in q ==> x in p
    {
      if x >= 0 {
        ConvertCell(s, i, b, x);
      } else if x in p {
        MapKeys(SplitOf(e, b, true, false), x);
      }
    }
  }
}
