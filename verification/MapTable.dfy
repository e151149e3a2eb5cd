/** kernfs/map_table.c: the table on NVM that maps logical to physical block numbers.  An entry
    that was never touched stands for itself. */
module MapTables {
  import opened BlockSize

  const ENTRY: nat := 24           // sizeof(struct mlfs_map_blocks)
  const WORD: nat := 0x1_0000_0000 // addresses are computed in 32 bits

  /** struct mlfs_map_blocks as a table entry; m_lblk keeps the previous physical block in 32 bits. */
  datatype Entry = Entry(pblk: int, prev: int, len: int, init: bool, cache: bool)

  function Low32(x: int): nat {
    x % WORD
  }

  /** Freshly zeroed NVM. */
  const ZERO: Entry := Entry(0, 0, 0, false, false)

  /** Where the tables are: first block, blocks per table, entries per table, number of tables. */
  datatype Geometry = Geometry(start: nat, blocks: nat, entries: nat, tables: nat)

  /** The first byte of table id; tables follow each other. */
  function Base(g: Geometry, id: nat): nat {
    if id == 0 then g.start * BLOCK else Base(g, id - 1) + g.blocks * BLOCK
  }

  /** The last entry of the last table starts below 2^32. */
  predicate NoWrap(g: Geometry) {
    g.tables == 0 || g.entries == 0 || Base(g, g.tables - 1) + (g.entries - 1) * ENTRY < WORD
  }

  /** No address wraps and no table outgrows its blocks. */
  predicate Fits(g: Geometry) {
    NoWrap(g) && g.entries * ENTRY <= g.blocks * BLOCK
  }

  predicate Inside(g: Geometry, id: nat, l: nat) {
    id < g.tables && l < g.entries
  }

  /** The byte address of an entry, in 32 bits. */
  function Address(g: Geometry, id: nat, l: nat): nat {
    Low32(Base(g, id) + l * ENTRY)
  }

  /** get_blkno_and_offset */
  function BlknoAndOffset(g: Geometry, id: nat, l: nat): (nat, nat) {
    var a := (g.start * BLOCK + id * (g.blocks * BLOCK) + l * ENTRY) % WORD;
    (a / BLOCK, a % BLOCK)
  }

  lemma {:induction false} BaseIs(g: Geometry, id: nat)
    ensures Base(g, id) == g.start * BLOCK + id * (g.blocks * BLOCK)
  {
    if id > 0 {
      BaseIs(g, id - 1);
      assert id * (g.blocks * BLOCK) == (id - 1) * (g.blocks * BLOCK) + g.blocks * BLOCK;
    }
  }

  /** The split loses nothing. */
  lemma {:induction false} SplitAddress(g: Geometry, id: nat, l: nat)
    ensures var (b, o) := BlknoAndOffset(g, id, l); b * BLOCK + o == Address(g, id, l) && o < BLOCK
  {
    BaseIs(g, id);
  }

  lemma {:induction false} BaseGrows(g: Geometry, id: nat, id': nat)
    requires id < id'
    ensures Base(g, id) + g.blocks * BLOCK <= Base(g, id')
  {
    if id < id' - 1 { BaseGrows(g, id, id' - 1); }
  }

  /** Without wrap-around an address is the sum it is computed from. */
  lemma {:induction false} AddressIs(g: Geometry, id: nat, l: nat)
    requires NoWrap(g) && Inside(g, id, l)
    ensures Address(g, id, l) == Base(g, id) + l * ENTRY
  {
    if id < g.tables - 1 { BaseGrows(g, id, g.tables - 1); }
  }

  /** NoWrap is the exact condition. */
  lemma {:induction false} NoWrapExactly(g: Geometry)
    ensures NoWrap(g) <==>
            forall id: nat, l: nat {:trigger Address(g, id, l)} :: Inside(g, id, l)
                ==> Address(g, id, l) == Base(g, id) + l * ENTRY
  {
    if NoWrap(g) {
      forall id: nat, l: nat | Inside(g, id, l) ensures Address(g, id, l) == Base(g, id) + l * ENTRY
          { AddressIs(g, id, l); }
    } else {
      assert Inside(g, g.tables - 1, g.entries - 1) && Address(g, g.tables - 1, g.entries - 1) < WORD;
    }
  }

  predicate Apart(a: nat, b: nat) {
    a + ENTRY <= b || b + ENTRY <= a
  }

  /** Entries for different (id, block) pairs occupy disjoint bytes. */
  lemma {:induction false} EntriesApart(g: Geometry, id: nat, l: nat, id': nat, l': nat)
    requires Fits(g) && Inside(g, id, l) && Inside(g, id', l') && (id, l) != (id', l')
    ensures Apart(Address(g, id, l), Address(g, id', l'))
  {
    AddressIs(g, id, l);
    AddressIs(g, id', l');
    if id < id' {
      BaseGrows(g, id, id');
    } else if id' < id {
      BaseGrows(g, id', id);
    }
  }

  /** A table of 178956972 entries does not fit below 2^32: its last entry overlaps its first. */
  lemma {:induction false} BigTableOverlaps()
    ensures var g := Geometry(0, 1_048_577, 178_956_972, 1);
            g.entries * ENTRY <= g.blocks * BLOCK && Inside(g, 0, 178_956_971)
            && !Apart(Address(g, 0, 0), Address(g, 0, 178_956_971))
  {
    assert 178_956_971 * ENTRY == WORD + 8;
  }

  // ---------- The mapping ----------

  type Nvm = map<int, Entry>

  /** The record at a byte address; what was never written is still zero. */
  function At(m: Nvm, a: nat): Entry {
    if a in m then m[a] else ZERO
  }

  /** lblk2pblk of block l, given its entry. */
  function Image(e: Entry, l: nat): int {
    if e.init then e.pblk else l
  }

  /** Table id maps block l to f[l], for every table and block. */
  ghost predicate Stored(g: Geometry, m: Nvm, views: seq<map<int, int>>) {
    && |views| == g.tables
    && forall id: nat, l: nat {:trigger Address(g, id, l)} ::
         Inside(g, id, l) ==> l in views[id] && views[id][l] == Image(At(m, Address(g, id, l)), l)
  }

  ghost predicate Hit(f: map<int, int>, p: int) {
    exists l :: l in f && f[l] == p
  }

  predicate Differ(x: int, y: int) {
    x != y
  }

  ghost predicate Injective(f: map<int, int>) {
    forall a, b {:trigger Differ(f[a], f[b])} :: a in f && b in f && a != b ==> Differ(f[a], f[b])
  }

  /** The keys of f are mapped one to one onto the numbers below n. */
  ghost predicate Permutes(f: map<int, int>, n: nat) {
    && (forall l :: l in f <==> 0 <= l < n)
    && (forall l {:trigger f[l]} :: l in f ==> 0 <= f[l] < n)
    && Injective(f)
    && (forall p :: 0 <= p < n ==> Hit(f, p))
  }

  ghost predicate AllPermute(views: seq<map<int, int>>, n: nat) {
    forall id :: 0 <= id < |views| ==> Permutes(views[id], n)
  }

  ghost function Identity(n: nat): map<int, int> {
    map l | 0 <= l < n :: Image(ZERO, l)
  }

  lemma {:induction false} IdentityPermutes(n: nat)
    ensures Permutes(Identity(n), n)
  {
    var f := Identity(n);
    forall p | 0 <= p < n ensures Hit(f, p) { assert p in f && f[p] == p; }
  }

  ghost function Swap(f: map<int, int>, a: int, b: int): map<int, int> {
    if a in f && b in f then f[a := f[b]][b := f[a]] else f
  }

  lemma {:induction false} SwapPermutes(f: map<int, int>, n: nat, a: int, b: int)
    requires Permutes(f, n)
    ensures Permutes(Swap(f, a, b), n)
  {
    var g := Swap(f, a, b);
    if a !in f || b !in f { return; }
    assert Injective(g) by {
      forall x, y | x in g && y in g && x != y ensures Differ(g[x], g[y]) {
        var x', y' := if x == a then b else if x == b then a else x, if y == a then b else if y == b then a else y;
        assert Differ(f[x'], f[y']);
      }
    }
    forall p | 0 <= p < n ensures Hit(g, p) {
      assert Hit(f, p);
      var l :| l in f && f[l] == p;
      assert (if l == a then b else if l == b then a else l) in g;
    }
  }

  /** Remapping twice is not remapping at all. */
  lemma {:induction false} SwapTwice(f: map<int, int>, a: int, b: int)
    ensures Swap(Swap(f, a, b), a, b) == f && Swap(f, a, b) == Swap(f, b, a)
  {
  }

  /** Writing one entry changes one image, in one table. */
  lemma {:induction false} WriteOne(g: Geometry, m: Nvm, views: seq<map<int, int>>, id: nat, l: nat, e: Entry)
    requires Fits(g) && Inside(g, id, l) && Stored(g, m, views)
    ensures Stored(g, m[Address(g, id, l) := e], views[id := views[id][l := Image(e, l)]])
  {
    var m', views' := m[Address(g, id, l) := e], views[id := views[id][l := Image(e, l)]];
    forall id': nat, k: nat | Inside(g, id', k)
      ensures k in views'[id'] && views'[id'][k] == Image(At(m', Address(g, id', k)), k)
    {
      if (id', k) != (id, l) { EntriesApart(g, id, l, id', k); }
    }
  }

  /** Writing an entry with the image it had changes no table. */
  lemma {:induction false} WriteSame(g: Geometry, m: Nvm, views: seq<map<int, int>>, id: nat, l: nat, e: Entry)
    requires Fits(g) && Inside(g, id, l) && Stored(g, m, views) && Image(e, l) == Image(At(m, Address(g, id, l)), l)
    ensures Stored(g, m[Address(g, id, l) := e], views)
  {
    WriteOne(g, m, views, id, l, e);
    assert views[id][l := Image(e, l)] == views[id];
    assert views[id := views[id]] == views;
  }

  /** Nothing on NVM differs but the entry at address a. */
  ghost predicate OnlyAt(m: Nvm, m': Nvm, a: int) {
    forall x :: x != a ==> At(m', x) == At(m, x)
  }

  ghost predicate Cached(view: map<int, int>, e: Entry, l: nat) {
    l in view && e.init && e.cache && e.prev == Low32(view[l])
  }

  /** What reading an entry makes of it. */
  function Initialised(e: Entry, l: nat): Entry {
    if e.init then e else Entry(l, l, BLOCK, true, e.cache)
  }

  /** The tables on NVM.  `views` is what they say. */
  class MapTable {
    const g: Geometry
    var nvm: Nvm
    ghost var views: seq<map<int, int>>

    /** Every table is a permutation of the blocks. */
    ghost predicate Valid()
      reads this
    {
      Fits(g) && Stored(g, nvm, views) && AllPermute(views, g.entries)
    }

    /** A table that was never written is the identity. */
    constructor (g: Geometry)
      requires Fits(g)
      ensures Valid() && this.g == g && nvm == map[]
      ensures forall id :: 0 <= id < g.tables ==> views[id] == Identity(g.entries)
    {
      this.g, nvm := g, map[];
      views := seq(g.tables, _ => Identity(g.entries));
      IdentityPermutes(g.entries);
      new;
      assert forall id: nat, l: nat :: Inside(g, id, l) ==> At(nvm, Address(g, id, l)) == ZERO;
    }

    /** get_map_entry_helper */
    method ReadEntry(l: nat, id: nat) returns (e: Entry)
      ensures e == At(nvm, Address(g, id, l))
    {
      var (blkno, off) := BlknoAndOffset(g, id, l);
      SplitAddress(g, id, l);
      e := At(nvm, blkno * BLOCK + off);
    }

    /** set_map_table_entry */
    method SetEntry(l: nat, id: nat, e: Entry)
      modifies this`nvm
      ensures nvm == old(nvm)[Address(g, id, l) := e]
    {
      var (blkno, off) := BlknoAndOffset(g, id, l);
      SplitAddress(g, id, l);
      nvm := nvm[blkno * BLOCK + off := e];
    }

    /** get_map_table_entry: an entry never touched is written back as the identity. */
    method GetEntry(l: nat, id: nat) returns (e: Entry)
      requires Valid() && Inside(g, id, l)
      modifies this`nvm
      ensures Valid() && e.init && l in views[id] && e.pblk == views[id][l]
      ensures At(nvm, Address(g, id, l)) == e == Initialised(old(At(nvm, Address(g, id, l))), l)
      ensures OnlyAt(old(nvm), nvm, Address(g, id, l))
    {
      e := ReadEntry(l, id);
      if !e.init {
        e := Entry(l, l, BLOCK, true, e.cache);
        WriteSame(g, nvm, views, id, l, e);
        SetEntry(l, id, e);
      }
    }

    /** lblk2pblk */
    method Lblk2Pblk(l: nat, id: nat) returns (p: int)
      requires Valid() && Inside(g, id, l)
      modifies this`nvm
      ensures Valid() && l in views[id] && p == views[id][l]
      ensures At(nvm, Address(g, id, l)) == Initialised(old(At(nvm, Address(g, id, l))), l)
      ensures OnlyAt(old(nvm), nvm, Address(g, id, l))
    {
      var e := GetEntry(l, id);
      p := e.pblk;
    }

    /** unset_map_table_entry_cache_bit */
    method UnsetCacheBit(l: nat, id: nat)
      requires Valid() && Inside(g, id, l)
      modifies this`nvm
      ensures Valid()
      ensures At(nvm, Address(g, id, l)) == Initialised(old(At(nvm, Address(g, id, l))), l).(cache := false)
      ensures OnlyAt(old(nvm), nvm, Address(g, id, l))
    {
      var e := GetEntry(l, id);
      WriteSame(g, nvm, views, id, l, e.(cache := false));
      SetEntry(l, id, e.(cache := false));
    }

    /** The exchange of update_map_table, on the two entries read. */
    static method SwapPblks(kernfs: Entry, libfs: Entry, k: nat, l: nat) returns (kernfs': Entry, libfs': Entry)
      ensures kernfs'.init && kernfs'.cache && kernfs'.pblk == Image(libfs, l)
              && kernfs'.prev == Low32(Image(kernfs, k))
      ensures libfs'.init && libfs'.cache && libfs'.pblk == Image(kernfs, k) && libfs'.prev == Low32(Image(libfs, l))
    {
      var kernfsPblk, libfsPblk := kernfs.pblk, libfs.pblk;
      kernfs', libfs' := kernfs, libfs;
      if kernfs.init {
        libfs' := libfs'.(pblk := kernfsPblk);
        kernfs' := kernfs'.(prev := Low32(kernfsPblk));
      } else {
        libfs' := libfs'.(pblk := k);
        kernfs' := kernfs'.(prev := Low32(k));
      }
      if libfs.init {
        kernfs' := kernfs'.(pblk := libfsPblk);
        libfs' := libfs'.(prev := Low32(libfsPblk));
      } else {
        kernfs' := kernfs'.(pblk := l);
        libfs' := libfs'.(prev := Low32(l));
      }
      kernfs' := kernfs'.(init := true, cache := true);
      libfs' := libfs'.(init := true, cache := true);
    }

    /** update_map_table: the images of k and l are exchanged, and nothing else; both entries are marked as cached
        and keep the image that they had, in 32 bits. */
    method Update(k: nat, l: nat, id: nat)
      requires Valid() && Inside(g, id, k) && Inside(g, id, l)
      modifies this
      ensures Valid() && views == old(views)[id := Swap(old(views)[id], k, l)]
      ensures Cached(old(views)[id], At(nvm, Address(g, id, k)), k)
              && Cached(old(views)[id], At(nvm, Address(g, id, l)), l)
      ensures forall x :: x != Address(g, id, k) && x != Address(g, id, l) ==> At(nvm, x) == old(At(nvm, x))
    {
      var kernfs := GetEntry(k, id);
      var libfs := GetEntry(l, id);
      kernfs, libfs := SwapPblks(kernfs, libfs, k, l);
      if k != l { EntriesApart(g, id, k, id, l); }
      WriteOne(g, nvm, views, id, k, kernfs);
      SetEntry(k, id, kernfs);
      WriteOne(g, nvm, views[id := views[id][k := kernfs.pblk]], id, l, libfs);
      SetEntry(l, id, libfs);
      SwapPermutes(views[id], g.entries, k, l);
      views := views[id := Swap(views[id], k, l)];
      assert views == old(views)[id := old(views)[id][k := kernfs.pblk]][id :=
             old(views)[id][k := kernfs.pblk][l := libfs.pblk]];
    }
  }
}
