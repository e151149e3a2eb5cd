/** digest_file in kernfs/fs.c: logged blocks become file blocks by exchanging two entries of the
    map table, partial blocks by copying. */
module KernfsDigestFile {
  import opened BlockSize
  import opened Extents
  import opened KernfsExtents
  import opened PlainCreate
  import ExtentTrees
  import opened DigestSpec
  import opened NvmDevice

  function Max(a: nat, b: nat): nat {
    if a < b then b else a
  }

  /** The file map b is b0 with blocks fb, ..., fb + d - 1 mapped as well. */
  ghost predicate Grew(b0: FileMap, b: FileMap, fb: nat, d: nat) {
    && (forall x :: x in b <==> x in b0 || fb <= x < fb + d)
    && (forall x :: x in b0 ==> b[x] == b0[x])
  }

  /** One more run. */
  lemma {:induction false} GrewMore(b0: FileMap, b: FileMap, b': FileMap, used: set<int>, fb: nat, d: nat, p: nat,
                                    n: nat)
    requires Grew(b0, b, fb, d) && Mapped(b, b', used, fb + d, p, n)
    ensures Grew(b0, b', fb, d + n)
    ensures forall x {:trigger BlockOf(b, x)} :: fb <= x < fb + d ==> BlockOf(b, x) == BlockOf(b', x)
    ensures forall y :: fb + d <= y < fb + d + n ==> BlockOf(b', y) == Slot(fb + d, p, y)
  {
  }

  /** The contents when d of the blocks are done. */
  ghost function Done(v: Contents, b: FileMap, fb: nat, blk: nat, total: nat, left: nat, d: nat): Contents {
    if d == total then Runs(v, b, fb, blk, total, left) else Remapped(v, b, fb, blk, d)
  }

  /** How many bytes of its last block a run is to copy; 0 if that block is whole. */
  function LastPart(n: nat, rest: nat): int {
    if n * BLOCK <= rest then 0 else rest - (n - 1) * BLOCK
  }

  /** Only a run that ends the entry can have a last block that is not whole. */
  lemma {:induction false} WholeUntilLast(total: nat, left: nat, d: nat, n: nat)
    requires 0 < n && d + n <= total && (total - 1) * BLOCK < left
    ensures d * BLOCK <= left && 0 <= LastPart(n, left - d * BLOCK) <= BLOCK
    ensures d + n < total ==> n * BLOCK <= left - d * BLOCK
    ensures d + n == total ==> (n * BLOCK <= left - d * BLOCK <==> total * BLOCK <= left)
    ensures d + n == total ==> left - d * BLOCK - (n - 1) * BLOCK == left - (total - 1) * BLOCK
  {
  }

  /** What a round leaves. */
  lemma {:induction false} RoundDone(v: Contents, b: FileMap, fb: nat, blk: nat, total: nat, left: nat, d: nat, p: nat,
                                     n: nat, d': nat, rest: nat, src: nat, r: nat)
    requires 0 < n && d' == d + n <= total && src == blk + d && (total - 1) * BLOCK < left && rest == left - d * BLOCK
             && r == LastPart(n, rest)
    requires forall y :: fb + d <= y < fb + d + n ==> BlockOf(b, y) == Slot(fb + d, p, y)
    ensures Placed(Remapped(v, b, fb, blk, d), p, src, n, n * BLOCK <= rest, r) == Done(v, b, fb, blk, total, left, d')
  {
    WholeUntilLast(total, left, d, n);
    RemappedRun(v, b, fb, blk, d, p, n, n - 1);
    assert BlockOf(b, fb + d + (n - 1)) == Slot(fb + d, p, fb + d + (n - 1)) == p + (n - 1);
    assert fb + d + (n - 1) == fb + (d + n - 1);
  }

  /** After the first round the file has a block at or before every later request. */
  lemma {:induction false} ClearNext(b0: FileMap, b: FileMap, fb: nat, total: nat, d: nat)
    requires Grew(b0, b, fb, d) && d < total && Clear(b0.Keys, fb, total)
    ensures Clear(b.Keys, fb + d, total - d)
  {
    if d > 0 {
      assert fb in b.Keys;
    } else {
      assert forall x :: x in b.Keys <==> x in b0;
      assert b.Keys == b0.Keys;
    }
  }

  /** All requests of an entry are clear exactly when the first one is. */
  lemma {:induction false} EveryRoundClear(b0: FileMap, fb: nat, total: nat)
    requires total > 0
    ensures (forall b: FileMap, d: nat :: d < total && Grew(b0, b, fb, d) ==> Clear(b.Keys, fb + d, total - d))
            <==> Clear(b0.Keys, fb, total)
  {
    if Clear(b0.Keys, fb, total) {
      forall b: FileMap, d: nat | d < total && Grew(b0, b, fb, d) ensures Clear(b.Keys, fb + d, total - d) {
        ClearNext(b0, b, fb, total, d);
      }
    } else {
      assert Grew(b0, b0, fb, 0);
    }
  }

  /** One file on one device, with the digest operation on it. */
  class FileDigester {
    const dev: Device
    const tree: ExtentTree
    var size: nat
    ghost var b: FileMap // where the file's blocks are

    constructor (dev: Device, tree: ExtentTree)
      requires dev.Valid() && tree.Valid() && forall q :: q in tree.used ==> q < dev.table.g.entries
      ensures Valid() && this.dev == dev && this.tree == tree && size == 0
    {
      this.dev, this.tree, size := dev, tree, 0;
      b := Places(tree.Blocks());
      PlacesAre(tree.Blocks());
    }

    /** Every block in use is a block of the device. */
    ghost predicate Valid()
      reads this, dev, dev.table, tree
    {
      dev.Valid() && FileOk() && !Overflown()
    }

    ghost predicate FileOk()
      reads this, tree
    {
      tree.Valid() && PlacesOf(b, tree.Blocks())
    }

    /** The allocator went beyond the device; the program stops there. */
    ghost predicate Overflown()
      reads this, tree
    {
      exists q :: q in tree.used && q >= dev.table.g.entries
    }

    /** The first d blocks are done. */
    ghost predicate Going(v0: Contents, b0: FileMap, fb: nat, blk: nat, d: nat)
      reads this, dev
    {
      Grew(b0, b, fb, d) && dev.v == Remapped(v0, b, fb, blk, d)
    }

    /** One call of mlfs_ext_get_blocks, for len blocks from block x on. */
    method Fetch(x: nat, len: nat, supply: nat) returns (p: nat, n: nat)
      requires FileOk() && 1 <= len <= EXT_INIT_MAX_LEN && 1 <= supply && x < EXT_MAX_BLOCKS && Clear(b.Keys, x, len)
      modifies tree, this`b
      ensures FileOk() && 1 <= n <= len && Mapped(old(b), b, old(tree.used), x, p, n)
      ensures Answered(old(ExtentTrees.Exts(tree.tree)), old(tree.Blocks()), x, len, supply, n)
      ensures forall y :: y in b ==> b[y] in tree.used
    {
      PlacesUnique(b, tree.Blocks());
      assert b.Keys == tree.Blocks().Keys;
      p, n := GetRun(tree, x, len, supply);
      b := Places(tree.Blocks());
      PlacesAre(tree.Blocks());
      PlacesOwned(tree);
    }

    /** The next run of an entry; ok if it stayed on the device. */
    method NextRun(fb: nat, total: nat, d: nat, ghost blk: nat, ghost v0: Contents,
                   ghost b0: FileMap) returns (ok: bool, p: nat, n: nat, d': nat)
      requires FileOk() && Going(v0, b0, fb, blk, d) && d < total <= EXT_INIT_MAX_LEN && fb + total <= EXT_MAX_BLOCKS
      requires Clear(b0.Keys, fb, total)
      modifies tree, this`b
      ensures FileOk() && 1 <= n <= total - d && d' == d + n && Grew(b0, b, fb, d')
      ensures dev.v == Remapped(v0, b, fb, blk, d)
      ensures forall y :: fb + d <= y < fb + d + n ==> BlockOf(b, y) == Slot(fb + d, p, y)
      ensures ok == (p + n <= dev.table.g.entries) && (!ok ==> Overflown())
    {
      ClearNext(b0, b, fb, total, d);
      var supply: nat :| 1 <= supply;
      p, n := Fetch(fb + d, total - d, supply);
      GrewMore(b0, old(b), b, old(tree.used), fb, d, p, n);
      RemappedSame(v0, old(b), b, fb, blk, d);
      d' := d + n;
      ok := p + n <= dev.table.g.entries;
      if !ok {
        assert b[fb + d + (n - 1)] == p + (n - 1);
      }
    }

    /** One round of the loop over runs. */
    method Round(fb: nat, total: nat, d: nat, cur: nat, rest: nat, ghost blk: nat, ghost left: nat, ghost v0: Contents,
                 ghost b0: FileMap)
      returns (ok: bool, d': nat, cur': nat, rest': int)
      requires dev.Valid() && FileOk() && d < total <= EXT_INIT_MAX_LEN && fb + total <= EXT_MAX_BLOCKS
      requires Grew(b0, b, fb, d) && dev.v == Done(v0, b, fb, blk, total, left, d) && Clear(b0.Keys, fb, total)
      requires (total - 1) * BLOCK < left && rest == left - d * BLOCK && cur / BLOCK == blk + d
               && blk + total <= dev.table.g.entries
      modifies dev, dev.table, tree, this`b
      ensures FileOk() && (!ok ==> Overflown())
      ensures ok ==> dev.Valid() && d < d' <= total && Grew(b0, b, fb, d')
      ensures ok ==> dev.v == Done(v0, b, fb, blk, total, left, d')
      ensures ok ==> rest' == left - d' * BLOCK && cur' / BLOCK == blk + d'
    {
      var p, n;
      ok, p, n, d' := NextRun(fb, total, d, blk, v0, b0);
      cur', rest' := cur + n * BLOCK, rest - n * BLOCK;
      if ok {
        var src, r := cur / BLOCK, LastPart(n, rest);
        WholeUntilLast(total, left, d, n);
        RoundDone(v0, b, fb, blk, total, left, d, p, n, d', rest, src, r);
        dev.PlaceRun(p, src, n, n * BLOCK <= rest, r);
      }
    }

    /** The loop over runs: file blocks from fb on, log bytes from address `data` on. */
    method DigestRuns(fb: nat, total: nat, left: nat, data: nat, ghost blk: nat) returns (ok: bool, digested: nat)
      requires dev.Valid() && FileOk() && 0 < total <= EXT_INIT_MAX_LEN && fb + total <= EXT_MAX_BLOCKS
               && Clear(b.Keys, fb, total)
      requires (total - 1) * BLOCK < left && blk == data / BLOCK && blk + total <= dev.table.g.entries
      modifies dev, dev.table, tree, this`b
      ensures FileOk() && (!ok ==> Overflown())
      ensures ok ==> dev.Valid() && digested == total && Grew(old(b), b, fb, total)
      ensures ok ==> dev.v == Done(old(dev.v), b, fb, blk, total, left, total)
    {
      ghost var v0, b0 := dev.v, b;
      var cur, rest: int := data, left;
      digested := 0;
      ok := true;
      while digested < total
        invariant digested <= total && dev.Valid() && FileOk() && Grew(b0, b, fb, digested)
        invariant cur / BLOCK == blk + digested && rest == left - digested * BLOCK
        invariant dev.v == Done(v0, b, fb, blk, total, left, digested)
      {
        ok, digested, cur, rest := Round(fb, total, digested, cur, rest, blk, left, v0, b0);
        if !ok { return; }
      }
    }

    /** A first block that is copied. */
    method DigestHead(fb: nat, blk: nat, at: nat, len: nat) returns (ok: bool)
      requires dev.Valid() && FileOk() && fb < EXT_MAX_BLOCKS && blk < dev.table.g.entries && at + len <= BLOCK
      modifies dev, dev.table, tree, this`b
      ensures FileOk() && (!ok ==> Overflown()) && Grew(old(b), b, fb, 1)
      ensures ok ==> dev.Valid() && dev.v == Copied(old(dev.v), BlockOf(b, fb), blk, at, len)
    {
      ClearOne(b.Keys, fb);
      var p, n, d;
      ok, p, n, d := NextRun(fb, 1, 0, blk, dev.v, b);
      if ok {
        assert BlockOf(b, fb) == Slot(fb + 0, p, fb) == p;
        dev.CopyPart(p, blk, at, len);
      }
    }

    /** The loop after a head, if there is anything left to do. */
    method DigestRest(fb: nat, nr: nat, left: nat, data: nat, ghost blk: nat) returns (ok: bool, digested: nat)
      requires dev.Valid() && FileOk() && 0 < nr <= EXT_INIT_MAX_LEN && fb + nr <= EXT_MAX_BLOCKS && fb in b
      requires (nr > 1 ==> (nr - 2) * BLOCK < left) && blk == data / BLOCK && blk + nr - 1 <= dev.table.g.entries
      modifies dev, dev.table, tree, this`b
      ensures FileOk() && (!ok ==> Overflown())
      ensures ok ==> dev.Valid() && digested == nr && Grew(old(b), b, fb + 1, nr - 1)
      ensures ok ==> dev.v == if nr == 1 then old(dev.v) else Done(old(dev.v), b, fb + 1, blk, nr - 1, left, nr - 1)
    {
      ok, digested := true, 1;
      if digested < nr {
        assert fb in b.Keys;
        ok, digested := DigestRuns(fb + 1, nr - 1, left, data, blk);
        digested := digested + 1;
      }
    }

    /** An entry with a head: the head, then the blocks behind it. */
    method DigestFromHead(offset: nat, length: nat, blk: nat, fb: nat, nr: nat) returns (ok: bool, digested: nat)
      requires dev.Valid() && FileOk() && HasHead(offset, length) && fb == offset / BLOCK && nr == NrBlocks(length)
      requires blk + nr <= dev.table.g.entries && nr <= EXT_INIT_MAX_LEN && fb + nr <= EXT_MAX_BLOCKS
      modifies dev, dev.table, tree, this`b
      ensures FileOk() && (!ok ==> Overflown())
      ensures ok ==> dev.Valid() && digested == nr && Grew(old(b), b, fb, nr)
      ensures ok ==> dev.v == Outcome(old(dev.v), b, offset, length, blk)
    {
      var head := HeadLen(offset, length);
      digested := 0;
      ok := DigestHead(fb, blk, offset % BLOCK, head);
      if ok {
        ghost var v1, b1 := dev.v, b;
        var data := blk * BLOCK + head;
        ghost var src := data / BLOCK;
        HeadCursor(offset, length, blk, nr, src);
        ok, digested := DigestRest(fb, nr, length - head, data, src);
        if ok { HeadOutcome(old(dev.v), old(b), v1, b1, dev.v, b, offset, length, blk, fb, nr, src); }
      }
    }

    /** The blocks of the entry, one after the other. */
    method DigestBlocks(offset: nat, length: nat, blk: nat) returns (ok: bool, digested: nat)
      requires dev.Valid() && FileOk() && blk + NrBlocks(length) <= dev.table.g.entries
      requires NrBlocks(length) <= EXT_INIT_MAX_LEN && offset / BLOCK + NrBlocks(length) <= EXT_MAX_BLOCKS
      requires HasHead(offset, length) || Clear(b.Keys, offset / BLOCK, NrBlocks(length))
      modifies dev, dev.table, tree, this`b
      ensures FileOk() && (!ok ==> Overflown())
      ensures ok ==> dev.Valid() && digested == NrBlocks(length) && Grew(old(b), b, offset / BLOCK, NrBlocks(length))
      ensures ok ==> dev.v == Outcome(old(dev.v), b, offset, length, blk)
    {
      var fb, nr := offset / BLOCK, NrBlocks(length);
      if HasHead(offset, length) {
        ok, digested := DigestFromHead(offset, length, blk, fb, nr);
      } else {
        ok, digested := DigestRuns(fb, nr, length, blk * BLOCK, blk);
      }
    }

    /** digest_file.  Unless the device overflows, every block of the entry is digested, and an entry
        that lies in one block or starts at a block boundary overlays the file. */
    method DigestFile(offset: nat, length: nat, blk: nat) returns (ok: bool, digested: nat)
      requires Valid() && blk + NrBlocks(length) <= dev.table.g.entries && LogTaken(blk, NrBlocks(length))
      requires NrBlocks(length) <= EXT_INIT_MAX_LEN && offset / BLOCK + NrBlocks(length) <= EXT_MAX_BLOCKS
      requires HasHead(offset, length) || Clear(b.Keys, offset / BLOCK, NrBlocks(length))
      modifies this, dev, dev.table, tree
      ensures size == Max(old(size), offset + length)
      ensures Overflown() || (ok && Valid() && digested == NrBlocks(length))
      ensures Overflown() || (Grew(old(b), b, offset / BLOCK, NrBlocks(length))
              && dev.v == Outcome(old(dev.v), b, offset, length, blk))
      ensures Overflown() || !OneBlockOrAligned(offset, length)
              || Overlaid(old(dev.v), old(b), dev.v, b, offset, length, blk)
    {
      if size < offset + length { size := offset + length; }
      ok, digested := DigestBlocks(offset, length, blk);
      if !Overflown() && OneBlockOrAligned(offset, length) {
        SettingHolds(old(dev.v), old(b), offset, length, blk);
        DigestOverlays(old(dev.v), old(b), b, offset, length, blk);
      }
    }

    /** n log blocks from blk on belong to the log, not to any file. */
    ghost predicate LogTaken(blk: nat, n: nat)
      reads this
    {
      forall l :: blk <= l < blk + n ==> l in tree.others
    }

    lemma {:induction false} SettingHolds(v0: Contents, b0: FileMap, offset: nat, length: nat, blk: nat)
      requires FileOk() && !Overflown() && Sized(v0) && |v0| == dev.table.g.entries && LogTaken(blk, NrBlocks(length))
      requires OneBlockOrAligned(offset, length) && blk + NrBlocks(length) <= |v0|
               && Grew(b0, b, offset / BLOCK, NrBlocks(length))
      ensures Setting(v0, b0, b, offset, length, blk)
    {
      TouchedNr(offset, length);
      PlacesUnique(b, tree.Blocks());
      PlacesOwned(tree);
    }
  }

  lemma {:induction false} ClearOne(keys: set<int>, x: nat)
    ensures Clear(keys, x, 1)
  {
  }

  lemma {:induction false} HeadCursor(offset: nat, length: nat, blk: nat, nr: nat, src: nat)
    requires HasHead(offset, length) && nr == NrBlocks(length) && src == (blk * BLOCK + HeadLen(offset, length)) / BLOCK
    ensures HeadLen(offset, length) <= length && offset % BLOCK + HeadLen(offset, length) <= BLOCK && src <= blk + 1
    ensures nr > 1 ==> (nr - 2) * BLOCK < length - HeadLen(offset, length) && src == blk
  {
  }

  lemma {:induction false} HeadOutcome(v: Contents, b0: FileMap, v1: Contents, b1: FileMap, w: Contents, b: FileMap,
                                       offset: nat, length: nat, blk: nat, fb: nat, nr: nat, src: nat)
    requires HasHead(offset, length) && fb == offset / BLOCK && nr == NrBlocks(length)
             && src == (blk * BLOCK + HeadLen(offset, length)) / BLOCK
    requires v1 == Copied(v, BlockOf(b1, fb), blk, offset % BLOCK, HeadLen(offset, length))
    requires Grew(b0, b1, fb, 1) && Grew(b1, b, fb + 1, nr - 1)
    requires w == if nr == 1 then v1 else Done(v1, b, fb + 1, src, nr - 1, length - HeadLen(offset, length), nr - 1)
    ensures Grew(b0, b, fb, nr) && w == Outcome(v, b, offset, length, blk)
  {
    assert fb in b1 && BlockOf(b, fb) == BlockOf(b1, fb);
  }
}
