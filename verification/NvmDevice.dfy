/** NVM as digest_file sees it: physical blocks behind the map table. */
module NvmDevice {
  import opened BlockSize
  import opened MapTables
  import opened DigestSpec

  const KERNFS: nat := 0 // KERNFS_ID, the table in use

  /** Each logical block of v is the physical block that the table names. */
  ghost predicate Reads(v: Contents, view: map<int, int>, blocks: Contents) {
    && Sized(blocks)
    && forall l :: 0 <= l < |v| ==> l in view && 0 <= view[l] < |blocks| && v[l] == blocks[view[l]]
  }

  lemma {:induction false} SwapReads(v: Contents, view: map<int, int>, blocks: Contents, k: nat, l: nat)
    requires Reads(v, view, blocks) && k < |v| && l < |v|
    ensures Reads(Exchange(v, k, l), Swap(view, k, l), blocks)
  {
  }

  /** Writing the physical block behind k changes k alone. */
  lemma {:induction false} WriteReads(v: Contents, view: map<int, int>, blocks: Contents, k: nat, s: Bytes)
    requires Reads(v, view, blocks) && k < |v| && |s| == BLOCK && Injective(view)
    ensures Reads(v[k := s], view, blocks[view[k] := s])
  {
    forall l | 0 <= l < |v| && l != k ensures view[l] != view[k] {
      assert Differ(view[l], view[k]);
    }
  }

  /** NVM and its map table.  `v` is what every logical block holds, read through the table. */
  class Device {
    const table: MapTable
    var blocks: Contents // physical blocks
    ghost var v: Contents

    ghost predicate Valid()
      reads this, table
    {
      && table.Valid() && KERNFS < table.g.tables && |v| == |blocks| == table.g.entries
      && Reads(v, table.views[KERNFS], blocks)
    }

    constructor (table: MapTable, blocks: Contents)
      requires table.Valid() && KERNFS < table.g.tables && |blocks| == table.g.entries && Sized(blocks)
      ensures Valid() && this.table == table && this.blocks == blocks
    {
      ghost var view := table.views[KERNFS];
      this.table, this.blocks := table, blocks;
      v := seq(table.g.entries, l => if l in view && 0 <= view[l] < |blocks| then blocks[view[l]] else []);
    }

    /** Remapping exchanges what two logical blocks hold, without moving a byte. */
    method Remap(k: nat, l: nat)
      requires Valid() && k < table.g.entries && l < table.g.entries
      modifies this`v, table
      ensures Valid() && v == Exchange(old(v), k, l)
    {
      SwapReads(v, table.views[KERNFS], blocks, k, l);
      table.Update(k, l, KERNFS);
      v := Exchange(v, k, l);
    }

    /** Remapping n blocks in a row. */
    method RemapRun(k: nat, l: nat, n: nat)
      requires Valid() && k + n <= table.g.entries && l + n <= table.g.entries
      modifies this`v, table
      ensures Valid() && v == ExchangeRun(old(v), k, l, n)
    {
      for i := 0 to n
        invariant Valid() && v == ExchangeRun(old(v), k, l, i)
      {
        Remap(k + i, l + i);
      }
    }

    /** Copying part of logical block l into logical block k. */
    method CopyPart(k: nat, l: nat, at: nat, n: nat)
      requires Valid() && k < table.g.entries && l < table.g.entries && at + n <= BLOCK
      modifies this`blocks, this`v, table
      ensures Valid() && v == Copied(old(v), k, l, at, n)
    {
      var to := table.Lblk2Pblk(k, KERNFS);
      var from := table.Lblk2Pblk(l, KERNFS);
      var s := Splice(blocks[to], at, blocks[from][at..at + n]);
      WriteReads(v, table.views[KERNFS], blocks, k, s);
      blocks := blocks[to := s];
      v := v[k := s];
    }

    /** The last block of a run: remapped, or copied up to byte r. */
    method PlaceLast(k: nat, l: nat, whole: bool, r: nat)
      requires Valid() && k < table.g.entries && l < table.g.entries && r <= BLOCK
      modifies this, table
      ensures Valid() && v == PlacedLast(old(v), k, l, whole, r)
    {
      if whole {
        Remap(k, l);
      } else {
        CopyPart(k, l, 0, r);
      }
    }

    /** The blocks of one run: remapped, except for a last one that is logged only in part. */
    method PlaceRun(k: nat, l: nat, n: nat, whole: bool, r: nat)
      requires Valid() && 0 < n && k + n <= table.g.entries && l + n <= table.g.entries && r <= BLOCK
      modifies this, table
      ensures Valid() && v == Placed(old(v), k, l, n, whole, r)
    {
      RemapRun(k, l, n - 1);
      PlaceLast(k + (n - 1), l + (n - 1), whole, r);
    }
  }
}
