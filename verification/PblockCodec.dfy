/** The 48-bit physical block number of an extent or index entry, kept in a 32-bit and a 16-bit
    field (kernfs/extents.h). */
module PblockCodec {

  datatype Fields = Fields(lo: bv32, hi: bv16)

  /** mlfs_ext_store_pblock, mlfs_idx_store_pblock */
  function Store(pb: bv64): Fields {
    Fields((pb & 0xffff_ffff) as bv32, (((pb >> 31) >> 1) & 0xffff) as bv16)
  }

  /** mlfs_ext_pblock, mlfs_idx_pblock */
  function Load(f: Fields): bv64 {
    (f.lo as bv64) | (((f.hi as bv64) << 31) << 1)
  }

  /** A block number survives exactly when it has at most 48 bits. */
  lemma {:induction false} StoreLoad(pb: bv64)
    ensures Load(Store(pb)) == pb <==> pb < 0x1_0000_0000_0000
  {
    assert Load(Store(pb)) == pb & 0xffff_ffff_ffff;
  }

  /** And every pair of field values is some block number's. */
  lemma {:induction false} LoadStore(f: Fields)
    ensures Store(Load(f)) == f && Load(f) < 0x1_0000_0000_0000
  {
  }
}
