/** What a digested batch leaves in the files, byte by byte: the last writer of a byte wins, a snapshot cuts whole
    blocks, and an unlink leaves nothing. */
module DigestMeaning {
  import opened BlockSize
  import opened DigestLog

  /** The entry logs byte o of inode n. */
  ghost predicate Covers(e: Entry, n: int, o: int) {
    e.Data? && e.inum == n && e.w.off <= o < e.w.off + |e.w.bytes|
  }

  ghost predicate HasByte(files: map<int, Inode>, n: int, o: int) {
    n in files && o in files[n].data
  }

  /** Nothing but inode n differs. */
  ghost predicate OnlyAt(files: map<int, Inode>, files': map<int, Inode>, n: int) {
    forall m :: m != n ==> (m in files' <==> m in files) && (m in files ==> files'[m] == files[m])
  }

  lemma {:induction false} DigestSnoc(log: seq<Entry>, e: Entry, files: map<int, Inode>)
    ensures Digest(log + [e], files) == Step(Digest(log, files), e)
  {
    assert (log + [e])[..|log|] == log;
  }

  /** The block that holds byte o. */
  function BlockOf(o: nat): nat {
    o / BLOCK
  }

  lemma {:induction false} BlockStarts(o: nat)
    ensures BlockOf(o) * BLOCK <= o < BlockOf(o) * BLOCK + BLOCK
  {
  }

  lemma {:induction false} BlockOrder(a: nat, b: nat)
    ensures a <= b ==> a * BLOCK <= b * BLOCK
    ensures a < b ==> a * BLOCK + BLOCK <= b * BLOCK
  {
  }

  /** A snapshot that shrinks a file takes exactly the blocks that begin at or after the new end, up to the one where
      the old end was. Bytes behind the new end in its own block stay. */
  lemma {:induction false} CutExactly(data: map<int, int>, size: nat, oldSize: nat, o: nat)
    ensures o in Cut(data, size, oldSize) <==>
            o in data && !(size <= BlockOf(o) * BLOCK && BlockOf(o) <= BlockOf(oldSize))
    ensures o in Cut(data, size, oldSize) ==> Cut(data, size, oldSize)[o] == data[o]
    ensures o < size && o in data ==> o in Cut(data, size, oldSize)
  {
    var start := size / BLOCK + (if size % BLOCK != 0 then 1 else 0);
    BlockStarts(o);
    BlockStarts(size);
    CutStart(size, BlockOf(o), start);
    BlockOrder(start, BlockOf(o));
    BlockOrder(BlockOf(o), start);
    BlockOrder(BlockOf(o), BlockOf(oldSize) + 1);
    BlockOrder(BlockOf(oldSize) + 1, BlockOf(o));
  }

  lemma {:induction false} CutStart(size: nat, b: nat, start: nat)
    requires start == size / BLOCK + (if size % BLOCK != 0 then 1 else 0)
    ensures size <= b * BLOCK <==> start <= b
  {
    BlockOrder(start, b);
    BlockOrder(b, start);
  }

  /** A data entry runs exactly when its inode is live, and then its bytes are in the file, in their order, every
      other byte and inode is as before, and the file reaches at least to their end. */
  lemma {:induction false} DataLands(log: seq<Entry>, n: int, w: Write, files: map<int, Inode>)
    ensures Digest(log + [Data(n, w)], files).Run? <==> Digest(log, files).Run? && n in Digest(log, files).files
    ensures Digest(log + [Data(n, w)], files).Run? ==>
              var f, f' := Digest(log, files).files, Digest(log + [Data(n, w)], files).files;
              && n in f' && OnlyAt(f, f', n) && f'[n].kind == f[n].kind
              && (forall o :: w.off <= o < w.off + |w.bytes| ==>
                    HasByte(f', n, o) && f'[n].data[o] == w.bytes[o - w.off])
              && (forall o :: !(w.off <= o < w.off + |w.bytes|) ==>
                    (HasByte(f', n, o) <==> HasByte(f, n, o)) && (HasByte(f, n, o) ==> f'[n].data[o] == f[n].data[o]))
              && f'[n].size >= f[n].size && f'[n].size >= w.off + |w.bytes|
              && (f'[n].size == f[n].size || f'[n].size == w.off + |w.bytes|)
  {
    DigestSnoc(log, Data(n, w), files);
    if Digest(log + [Data(n, w)], files).Run? {
      var f' := Digest(log + [Data(n, w)], files).files;
      forall o | w.off <= o < w.off + |w.bytes| ensures HasByte(f', n, o) && f'[n].data[o] == w.bytes[o - w.off] {
        assert ByteAt(w, o) == w.bytes[o - w.off] && o in BytesOf(w);
      }
    }
  }

  /** An inode entry gives the file the snapshot's size. A new file has its type and no bytes; a live one keeps its
      type, gets no byte, and loses exactly what a shrinking snapshot cuts off a regular file. */
  lemma {:induction false} SnapLands(log: seq<Entry>, e: Entry, files: map<int, Inode>)
    requires e.Create? || e.Update?
    ensures Digest(log + [e], files).Run? <==> Digest(log, files).Run?
    ensures Digest(log + [e], files).Run? ==>
              var f, f', n := Digest(log, files).files, Digest(log + [e], files).files, e.inum;
              && n in f' && OnlyAt(f, f', n) && f'[n].size == e.snap.size
              && (n !in f ==> f'[n].kind == e.snap.kind && f'[n].data == map[])
              && (n in f ==> f'[n].kind == f[n].kind)
              && (forall o :: HasByte(f', n, o) ==> HasByte(f, n, o) && f'[n].data[o] == f[n].data[o])
              && (forall o: nat :: HasByte(f, n, o) && !HasByte(f', n, o) <==>
                    HasByte(f, n, o) && f[n].kind == File && e.snap.size < f[n].size
                    && e.snap.size <= BlockOf(o) * BLOCK && BlockOf(o) <= BlockOf(f[n].size))
  {
    DigestSnoc(log, e, files);
    if Digest(log, files).Run? {
      var f, n := Digest(log, files).files, e.inum;
      if n in f {
        forall o: nat
          ensures o in Cut(f[n].data, e.snap.size, f[n].size) <==>
                  o in f[n].data && !(e.snap.size <= BlockOf(o) * BLOCK && BlockOf(o) <= BlockOf(f[n].size))
        {
          CutExactly(f[n].data, e.snap.size, f[n].size, o);
        }
      }
    }
  }

  /** An unlink leaves no trace of the inode and touches no other. */
  lemma {:induction false} UnlinkLands(log: seq<Entry>, n: int, files: map<int, Inode>)
    ensures Digest(log + [Unlink(n)], files).Run? <==> Digest(log, files).Run?
    ensures Digest(log + [Unlink(n)], files).Run? ==>
              var f, f' := Digest(log, files).files, Digest(log + [Unlink(n)], files).files;
              n !in f' && OnlyAt(f, f', n)
  {
    DigestSnoc(log, Unlink(n), files);
  }

  // ---------- Whole batches ----------

  /** One entry, seen from one byte that is there afterwards. */
  lemma {:induction false} ByteFrom(log: seq<Entry>, e: Entry, files: map<int, Inode>, n: int, o: int)
    requires Digest(log + [e], files).Run? && HasByte(Digest(log + [e], files).files, n, o)
    ensures Digest(log, files).Run?
    ensures var f, f' := Digest(log, files).files, Digest(log + [e], files).files;
            if Covers(e, n, o) then f'[n].data[o] == e.w.bytes[o - e.w.off]
            else HasByte(f, n, o) && f'[n].data[o] == f[n].data[o]
  {
    match e
    case Create(_, _) => SnapLands(log, e, files);
    case Update(_, _) => SnapLands(log, e, files);
    case Unlink(m) => UnlinkLands(log, m, files);
    case Data(m, w) => DataLands(log, m, w, files);
  }

  /** Every byte that a batch leaves is the one of the last entry that logs it. */
  lemma {:induction false} LastWriterWins(log: seq<Entry>, files: map<int, Inode>, n: int, o: int, k: nat)
    requires Digest(log, files).Run? && HasByte(Digest(log, files).files, n, o)
    requires k < |log| && Covers(log[k], n, o) && forall j :: k < j < |log| ==> !Covers(log[j], n, o)
    ensures Digest(log, files).files[n].data[o] == log[k].w.bytes[o - log[k].w.off]
  {
    var before, e := log[..|log| - 1], log[|log| - 1];
    assert log == before + [e];
    ByteFrom(before, e, files, n, o);
    if k < |log| - 1 {
      assert !Covers(e, n, o);
      LastWriterWins(before, files, n, o, k);
    }
  }

  /** A byte that no entry logs is the one that was there before the batch. */
  lemma {:induction false} OldByteStays(log: seq<Entry>, files: map<int, Inode>, n: int, o: int)
    requires Digest(log, files).Run? && HasByte(Digest(log, files).files, n, o)
    requires forall j :: 0 <= j < |log| ==> !Covers(log[j], n, o)
    ensures HasByte(files, n, o) && Digest(log, files).files[n].data[o] == files[n].data[o]
  {
    if log != [] {
      var before, e := log[..|log| - 1], log[|log| - 1];
      assert log == before + [e];
      ByteFrom(before, e, files, n, o);
      OldByteStays(before, files, n, o);
    }
  }

  /** The entry does not take byte o away from inode n: it is neither an unlink nor a snapshot that ends before o. */
  ghost predicate Spares(e: Entry, n: int, o: nat) {
    e.inum != n || e.Data? || (!e.Unlink? && o < e.snap.size)
  }

  lemma {:induction false} ByteStays(log: seq<Entry>, e: Entry, files: map<int, Inode>, n: int, o: nat)
    requires Digest(log + [e], files).Run? && Spares(e, n, o)
    requires Covers(e, n, o) || (Digest(log, files).Run? && HasByte(Digest(log, files).files, n, o))
    ensures HasByte(Digest(log + [e], files).files, n, o)
  {
    match e
    case Create(_, _) => BlockStarts(o); SnapLands(log, e, files);
    case Update(_, _) => BlockStarts(o); SnapLands(log, e, files);
    case Unlink(m) => UnlinkLands(log, m, files);
    case Data(m, w) => DataLands(log, m, w, files);
  }

  /** What a batch logs is in the file at its end, unless a later entry takes it away. */
  lemma {:induction false} LoggedByteStays(log: seq<Entry>, files: map<int, Inode>, n: int, o: nat, k: nat)
    requires Digest(log, files).Run? && k < |log| && Covers(log[k], n, o)
    requires forall j :: k < j < |log| ==> Spares(log[j], n, o)
    ensures HasByte(Digest(log, files).files, n, o)
  {
    var before, e := log[..|log| - 1], log[|log| - 1];
    assert log == before + [e];
    DigestSnoc(before, e, files);
    if k < |log| - 1 {
      LoggedByteStays(before, files, n, o, k);
    }
    ByteStays(before, e, files, n, o);
  }
}
