/** Extents: the 12-byte on-disk record, its accessors, and the block map that a
    sorted run of extents stands for (kernfs/extents.h and the leaf-level parts of
    kernfs/extents.c).

    `eeLen` is kept exactly as stored: values above 0x8000 mean an unwritten extent. */
module Extents {

  const EXT_INIT_MAX_LEN: nat := 0x8000
  const EXT_UNWRITTEN_MAX_LEN: nat := EXT_INIT_MAX_LEN - 1
  const EXT_MAX_BLOCKS: nat := 0xffff_ffff

  datatype Extent = Extent(lblk: nat, eeLen: nat, pblk: nat)

  function Len(e: Extent): nat {
    if e.eeLen <= EXT_INIT_MAX_LEN then e.eeLen else e.eeLen - EXT_INIT_MAX_LEN
  }

  predicate Unwritten(e: Extent) {
    e.eeLen > EXT_INIT_MAX_LEN
  }

  function End(e: Extent): nat {
    e.lblk + Len(e)
  }

  /** ee_len |= 0x8000, for a 16-bit ee_len. */
  function MarkUnwritten(e: Extent): Extent {
    if e.eeLen >= EXT_INIT_MAX_LEN then e else e.(eeLen := e.eeLen + EXT_INIT_MAX_LEN)
  }

  function MarkInitialized(e: Extent): Extent {
    e.(eeLen := Len(e))
  }

  /** The recurring sequence "ee_len = n; if (unwritten) mark_unwritten". */
  function WithLen(e: Extent, n: nat, unwritten: bool): Extent {
    var x := e.(eeLen := n);
    if unwritten then MarkUnwritten(x) else x
  }

  /** What every extent of a consistent tree satisfies: a non-empty length that the
      16-bit field can hold, and no block at or beyond EXT_MAX_BLOCKS. */
  predicate Good(e: Extent) {
    && 1 <= Len(e)
    && e.eeLen < 0x1_0000
    && End(e) <= EXT_MAX_BLOCKS
  }

  /** A length survives being stored and marked exactly when the field can hold it. */
  lemma {:induction false} WithLenReads(e: Extent, n: nat, unwritten: bool)
    requires n < 0x1_0000
    ensures Len(WithLen(e, n, unwritten)) == n && Unwritten(WithLen(e, n, unwritten)) == unwritten
            <==> (n <= if unwritten then EXT_UNWRITTEN_MAX_LEN else EXT_INIT_MAX_LEN) && (unwritten ==> n > 0)
    ensures WithLen(e, n, unwritten).lblk == e.lblk && WithLen(e, n, unwritten).pblk == e.pblk
  {
  }

  /** mlfs_can_extents_be_merged */
  predicate CanMerge(a: Extent, b: Extent) {
    && Unwritten(a) == Unwritten(b)
    && End(a) == b.lblk
    && Len(a) + Len(b) <= EXT_INIT_MAX_LEN
    && (Unwritten(a) ==> Len(a) + Len(b) <= EXT_UNWRITTEN_MAX_LEN)
    && a.pblk + Len(a) == b.pblk
  }

  function Merged(a: Extent, b: Extent): Extent {
    WithLen(a, Len(a) + Len(b), Unwritten(a))
  }

  // ---------- The block map of a run of extents ----------

  datatype Cell = Cell(pblk: nat, unwritten: bool)

  function CellAt(e: Extent, b: nat): Cell
    requires e.lblk <= b
  {
    Cell(e.pblk + (b - e.lblk), Unwritten(e))
  }

  ghost function Run(e: Extent): map<int, Cell> {
    map b | e.lblk <= b < End(e) :: CellAt(e, b)
  }

  ghost function BlockMap(s: seq<Extent>): map<int, Cell> {
    if s == [] then map[] else Run(s[0]) + BlockMap(s[1..])
  }

  predicate InSpan(b: nat, p: nat, n: nat) {
    p <= b < p + n
  }

  /** The block numbers p, ..., p + n - 1. */
  function Span(p: nat, n: nat): set<int> {
    set b | p <= b < p + n && InSpan(b, p, n)
  }

  lemma {:induction false} SpanSize(p: nat, n: nat)
    ensures |Span(p, n)| == n
  {
    if n > 0 {
      SpanSize(p, n - 1);
      assert Span(p, n) == Span(p, n - 1) + {p + n - 1};
    }
  }

  lemma {:induction false} SpanConcat(p: nat, m: nat, n: nat)
    ensures multiset(Span(p, m)) + multiset(Span(p + m, n)) == multiset(Span(p, m + n))
  {
    assert Span(p, m + n) == Span(p, m) + Span(p + m, n);
  }

  ghost function Phys(e: Extent): multiset<int> {
    multiset(Span(e.pblk, Len(e)))
  }

  ghost function PhysAll(s: seq<Extent>): multiset<int> {
    if s == [] then multiset{} else Phys(s[0]) + PhysAll(s[1..])
  }

  ghost predicate Sorted(s: seq<Extent>) {
    && (forall i :: 0 <= i < |s| ==> Good(s[i]))
    && (forall i, j {:trigger Precedes(s[i], s[j])} :: 0 <= i < j < |s| ==> Precedes(s[i], s[j]))
  }

  predicate Precedes(a: Extent, b: Extent) {
    End(a) <= b.lblk
  }

  /** Every extent of s ends at or before block b. */
  ghost predicate Below(s: seq<Extent>, b: nat) {
    forall i :: 0 <= i < |s| ==> End(s[i]) <= b
  }

  /** Every extent of s starts at or after block b. */
  ghost predicate Above(s: seq<Extent>, b: nat) {
    forall i :: 0 <= i < |s| ==> b <= s[i].lblk
  }

  /** No block of e is covered by s. */
  ghost predicate NoOverlap(s: seq<Extent>, e: Extent) {
    forall i :: 0 <= i < |s| ==> End(s[i]) <= e.lblk || End(e) <= s[i].lblk
  }

  lemma {:induction false} OverrideAssoc(a: map<int, Cell>, b: map<int, Cell>, c: map<int, Cell>)
    ensures a + (b + c) == a + b + c
  {
  }

  lemma {:induction false} BlockMapConcat(a: seq<Extent>, b: seq<Extent>)
    ensures BlockMap(a + b) == BlockMap(a) + BlockMap(b)
  {
    if a == [] {
      assert a + b == b;
    } else {
      assert (a + b)[1..] == a[1..] + b;
      BlockMapConcat(a[1..], b);
      OverrideAssoc(Run(a[0]), BlockMap(a[1..]), BlockMap(b));
    }
  }

  lemma {:induction false} PhysConcat(a: seq<Extent>, b: seq<Extent>)
    ensures PhysAll(a + b) == PhysAll(a) + PhysAll(b)
  {
    if a == [] {
      assert a + b == b;
    } else {
      assert (a + b)[1..] == a[1..] + b;
      PhysConcat(a[1..], b);
    }
  }

  lemma {:induction false} BlockMapOne(e: Extent)
    ensures BlockMap([e]) == Run(e) && PhysAll([e]) == Phys(e)
  {
    assert [e][1..] == [];
  }

  /** A block is mapped exactly when some extent covers it, and then to that extent's cell. */
  lemma {:induction false} BlockMapAt(s: seq<Extent>, i: nat, b: nat)
    requires Sorted(s) && i < |s| && s[i].lblk <= b < End(s[i])
    ensures b in BlockMap(s) && BlockMap(s)[b] == Run(s[i])[b]
  {
    SortedRest(s);
    if i == 0 {
      KeysAbove(s[1..], End(s[0]));
    } else {
      BlockMapAt(s[1..], i - 1, b);
    }
  }

  lemma {:induction false} KeysAbove(s: seq<Extent>, lo: nat)
    requires Above(s, lo)
    ensures forall b :: b in BlockMap(s) ==> lo <= b
  {
    if s != [] { KeysAbove(s[1..], lo); }
  }

  /** Conversely, a block that no extent covers is not mapped. */
  lemma {:induction false} BlockMapNone(s: seq<Extent>, b: nat)
    requires forall i :: 0 <= i < |s| ==> !(s[i].lblk <= b < End(s[i]))
    ensures b !in BlockMap(s)
  {
    if s != [] { BlockMapNone(s[1..], b); }
  }

  // ---------- Sortedness of concatenations ----------

  lemma {:induction false} SortedRest(s: seq<Extent>)
    requires Sorted(s) && s != []
    ensures Sorted(s[1..]) && Above(s[1..], End(s[0]))
  {
    var r := s[1..];
    forall i | 0 <= i < |r| ensures End(s[0]) <= r[i].lblk { assert Precedes(s[0], s[i + 1]); }
    forall i, j | 0 <= i < j < |r| ensures Precedes(r[i], r[j]) { assert Precedes(s[i + 1], s[j + 1]); }
  }

  lemma {:induction false} SortedParts(a: seq<Extent>, b: seq<Extent>)
    requires Sorted(a + b)
    ensures Sorted(a) && Sorted(b)
    ensures forall i, j :: 0 <= i < |a| && 0 <= j < |b| ==> End(a[i]) <= b[j].lblk
  {
    var s := a + b;
    assert forall i :: 0 <= i < |a| ==> s[i] == a[i];
    assert forall j :: 0 <= j < |b| ==> s[|a| + j] == b[j];
    forall i, j | 0 <= i < j < |a| ensures Precedes(a[i], a[j]) { assert Precedes(s[i], s[j]); }
    forall i, j | 0 <= i < j < |b| ensures Precedes(b[i], b[j]) { assert Precedes(s[|a| + i], s[|a| + j]); }
    forall i, j | 0 <= i < |a| && 0 <= j < |b| ensures End(a[i]) <= b[j].lblk { assert Precedes(s[i], s[|a| + j]); }
  }

  lemma {:induction false} SortedJoin(a: seq<Extent>, b: seq<Extent>)
    requires Sorted(a) && Sorted(b)
    requires forall i, j :: 0 <= i < |a| && 0 <= j < |b| ==> End(a[i]) <= b[j].lblk
    ensures Sorted(a + b)
  {
  }

  /** Below/Above form of the join, the one the tree proofs use. */
  lemma {:induction false} SortedGlue(a: seq<Extent>, m: nat, b: seq<Extent>)
    requires Sorted(a) && Sorted(b) && Below(a, m) && Above(b, m)
    ensures Sorted(a + b)
  {
    SortedJoin(a, b);
  }

  /** Replacing the middle by a sorted run that stays inside the same bounds keeps order. */
  lemma {:induction false} SortedReplace(a: seq<Extent>, x: seq<Extent>, y: seq<Extent>, b: seq<Extent>)
    requires Sorted(a + x + b) && x != [] && Sorted(y)
    requires Above(y, x[0].lblk) && Below(y, End(x[|x| - 1]))
    ensures Sorted(a + y + b)
  {
    SortedParts(a + x, b);
    SortedParts(a, x);
    assert Below(a, x[0].lblk);
    assert (a + x)[|a| + |x| - 1] == x[|x| - 1];
    SortedGlue(a, x[0].lblk, y);
    forall i | 0 <= i < |a + y| ensures End((a + y)[i]) <= End(x[|x| - 1]) {
      if i < |a| { assert End(a[i]) <= x[0].lblk; }
    }
    SortedGlue(a + y, End(x[|x| - 1]), b);
  }

  /** Inserting a disjoint extent between two parts of a sorted run. */
  lemma {:induction false} RunMoves(a: map<int, Cell>, e: map<int, Cell>, b: map<int, Cell>)
    requires e.Keys !! b.Keys
    ensures a + e + b == a + b + e
  {
  }

  lemma {:induction false} InsertBetween(a: seq<Extent>, e: Extent, b: seq<Extent>)
    requires Sorted(a + b) && Good(e) && Below(a, e.lblk) && Above(b, End(e))
    ensures Sorted(a + [e] + b)
    ensures BlockMap(a + [e] + b) == BlockMap(a + b) + Run(e)
    ensures PhysAll(a + [e] + b) == PhysAll(a + b) + Phys(e)
  {
    SortedParts(a, b);
    SortedGlue(a, e.lblk, [e]);
    SortedGlue(a + [e], End(e), b);
    BlockMapConcat(a + [e], b);
    BlockMapConcat(a, [e]);
    BlockMapConcat(a, b);
    BlockMapOne(e);
    PhysConcat(a + [e], b);
    PhysConcat(a, [e]);
    PhysConcat(a, b);
    KeysAbove(b, End(e));
    RunMoves(BlockMap(a), Run(e), BlockMap(b));
  }

  /** Two segments that stand for the same blocks can replace each other anywhere. */
  lemma {:induction false} SameSegment(a: seq<Extent>, x: seq<Extent>, y: seq<Extent>, b: seq<Extent>)
    requires BlockMap(x) == BlockMap(y) && PhysAll(x) == PhysAll(y)
    ensures BlockMap(a + x + b) == BlockMap(a + y + b)
    ensures PhysAll(a + x + b) == PhysAll(a + y + b)
  {
    BlockMapConcat(a + x, b);
    BlockMapConcat(a + y, b);
    BlockMapConcat(a, x);
    BlockMapConcat(a, y);
    PhysConcat(a + x, b);
    PhysConcat(a + y, b);
    PhysConcat(a, x);
    PhysConcat(a, y);
  }

  // ---------- Merging two neighbours ----------

  lemma {:induction false} MergedFacts(a: Extent, b: Extent)
    requires Good(a) && Good(b) && CanMerge(a, b)
    ensures Good(Merged(a, b)) && Merged(a, b).lblk == a.lblk && End(Merged(a, b)) == End(b)
    ensures Run(Merged(a, b)) == Run(a) + Run(b)
    ensures Phys(Merged(a, b)) == Phys(a) + Phys(b)
  {
    WithLenReads(a, Len(a) + Len(b), Unwritten(a));
    SpanConcat(a.pblk, Len(a), Len(b));
  }

  /** s with the extents at i and i+1 replaced by their merge. */
  function MergeAt(s: seq<Extent>, i: nat): seq<Extent>
    requires i + 1 < |s|
  {
    s[..i] + [Merged(s[i], s[i + 1])] + s[i + 2..]
  }

  lemma {:induction false} MergeAtFacts(s: seq<Extent>, i: nat)
    requires Sorted(s) && i + 1 < |s| && CanMerge(s[i], s[i + 1])
    ensures Sorted(MergeAt(s, i)) && BlockMap(MergeAt(s, i)) == BlockMap(s) && PhysAll(MergeAt(s, i)) == PhysAll(s)
    ensures MergeAt(s, i)[0].lblk == s[0].lblk
    ensures End(MergeAt(s, i)[|s| - 2]) == End(s[|s| - 1])
  {
    var x, y := [s[i], s[i + 1]], [Merged(s[i], s[i + 1])];
    assert s == s[..i] + x + s[i + 2..];
    MergedFacts(s[i], s[i + 1]);
    BlockMapConcat([s[i]], [s[i + 1]]);
    PhysConcat([s[i]], [s[i + 1]]);
    assert x == [s[i]] + [s[i + 1]];
    BlockMapOne(s[i]);
    BlockMapOne(s[i + 1]);
    BlockMapOne(y[0]);
    SortedReplace(s[..i], x, y, s[i + 2..]);
    SameSegment(s[..i], x, y, s[i + 2..]);
  }
}
