/** kernfs/mlfs_crc32.c: the table-driven CRC32C register update, and what it computes. */
module Crc32c {

  // ---------- crc32Table, sixteen entries to a row ----------

  function Row0(l: bv4): bv32 {
    match l
    case 0 => 0x0000_0000 case 1 => 0xF26B_8303 case 2 => 0xE13B_70F7 case 3 => 0x1350_F3F4
    case 4 => 0xC79A_971F case 5 => 0x35F1_141C case 6 => 0x26A1_E7E8 case 7 => 0xD4CA_64EB
    case 8 => 0x8AD9_58CF case 9 => 0x78B2_DBCC case 10 => 0x6BE2_2838 case 11 => 0x9989_AB3B
    case 12 => 0x4D43_CFD0 case 13 => 0xBF28_4CD3 case 14 => 0xAC78_BF27 case 15 => 0x5E13_3C24
  }

  function Row1(l: bv4): bv32 {
    match l
    case 0 => 0x105E_C76F case 1 => 0xE235_446C case 2 => 0xF165_B798 case 3 => 0x030E_349B
    case 4 => 0xD7C4_5070 case 5 => 0x25AF_D373 case 6 => 0x36FF_2087 case 7 => 0xC494_A384
    case 8 => 0x9A87_9FA0 case 9 => 0x68EC_1CA3 case 10 => 0x7BBC_EF57 case 11 => 0x89D7_6C54
    case 12 => 0x5D1D_08BF case 13 => 0xAF76_8BBC case 14 => 0xBC26_7848 case 15 => 0x4E4D_FB4B
  }

  function Row2(l: bv4): bv32 {
    match l
    case 0 => 0x20BD_8EDE case 1 => 0xD2D6_0DDD case 2 => 0xC186_FE29 case 3 => 0x33ED_7D2A
    case 4 => 0xE727_19C1 case 5 => 0x154C_9AC2 case 6 => 0x061C_6936 case 7 => 0xF477_EA35
    case 8 => 0xAA64_D611 case 9 => 0x580F_5512 case 10 => 0x4B5F_A6E6 case 11 => 0xB934_25E5
    case 12 => 0x6DFE_410E case 13 => 0x9F95_C20D case 14 => 0x8CC5_31F9 case 15 => 0x7EAE_B2FA
  }

  function Row3(l: bv4): bv32 {
    match l
    case 0 => 0x30E3_49B1 case 1 => 0xC288_CAB2 case 2 => 0xD1D8_3946 case 3 => 0x23B3_BA45
    case 4 => 0xF779_DEAE case 5 => 0x0512_5DAD case 6 => 0x1642_AE59 case 7 => 0xE429_2D5A
    case 8 => 0xBA3A_117E case 9 => 0x4851_927D case 10 => 0x5B01_6189 case 11 => 0xA96A_E28A
    case 12 => 0x7DA0_8661 case 13 => 0x8FCB_0562 case 14 => 0x9C9B_F696 case 15 => 0x6EF0_7595
  }

  function Row4(l: bv4): bv32 {
    match l
    case 0 => 0x417B_1DBC case 1 => 0xB310_9EBF case 2 => 0xA040_6D4B case 3 => 0x522B_EE48
    case 4 => 0x86E1_8AA3 case 5 => 0x748A_09A0 case 6 => 0x67DA_FA54 case 7 => 0x95B1_7957
    case 8 => 0xCBA2_4573 case 9 => 0x39C9_C670 case 10 => 0x2A99_3584 case 11 => 0xD8F2_B687
    case 12 => 0x0C38_D26C case 13 => 0xFE53_516F case 14 => 0xED03_A29B case 15 => 0x1F68_2198
  }

  function Row5(l: bv4): bv32 {
    match l
    case 0 => 0x5125_DAD3 case 1 => 0xA34E_59D0 case 2 => 0xB01E_AA24 case 3 => 0x4275_2927
    case 4 => 0x96BF_4DCC case 5 => 0x64D4_CECF case 6 => 0x7784_3D3B case 7 => 0x85EF_BE38
    case 8 => 0xDBFC_821C case 9 => 0x2997_011F case 10 => 0x3AC7_F2EB case 11 => 0xC8AC_71E8
    case 12 => 0x1C66_1503 case 13 => 0xEE0D_9600 case 14 => 0xFD5D_65F4 case 15 => 0x0F36_E6F7
  }

  function Row6(l: bv4): bv32 {
    match l
    case 0 => 0x61C6_9362 case 1 => 0x93AD_1061 case 2 => 0x80FD_E395 case 3 => 0x7296_6096
    case 4 => 0xA65C_047D case 5 => 0x5437_877E case 6 => 0x4767_748A case 7 => 0xB50C_F789
    case 8 => 0xEB1F_CBAD case 9 => 0x1974_48AE case 10 => 0x0A24_BB5A case 11 => 0xF84F_3859
    case 12 => 0x2C85_5CB2 case 13 => 0xDEEE_DFB1 case 14 => 0xCDBE_2C45 case 15 => 0x3FD5_AF46
  }

  function Row7(l: bv4): bv32 {
    match l
    case 0 => 0x7198_540D case 1 => 0x83F3_D70E case 2 => 0x90A3_24FA case 3 => 0x62C8_A7F9
    case 4 => 0xB602_C312 case 5 => 0x4469_4011 case 6 => 0x5739_B3E5 case 7 => 0xA552_30E6
    case 8 => 0xFB41_0CC2 case 9 => 0x092A_8FC1 case 10 => 0x1A7A_7C35 case 11 => 0xE811_FF36
    case 12 => 0x3CDB_9BDD case 13 => 0xCEB0_18DE case 14 => 0xDDE0_EB2A case 15 => 0x2F8B_6829
  }

  function Row8(l: bv4): bv32 {
    match l
    case 0 => 0x82F6_3B78 case 1 => 0x709D_B87B case 2 => 0x63CD_4B8F case 3 => 0x91A6_C88C
    case 4 => 0x456C_AC67 case 5 => 0xB707_2F64 case 6 => 0xA457_DC90 case 7 => 0x563C_5F93
    case 8 => 0x082F_63B7 case 9 => 0xFA44_E0B4 case 10 => 0xE914_1340 case 11 => 0x1B7F_9043
    case 12 => 0xCFB5_F4A8 case 13 => 0x3DDE_77AB case 14 => 0x2E8E_845F case 15 => 0xDCE5_075C
  }

  function Row9(l: bv4): bv32 {
    match l
    case 0 => 0x92A8_FC17 case 1 => 0x60C3_7F14 case 2 => 0x7393_8CE0 case 3 => 0x81F8_0FE3
    case 4 => 0x5532_6B08 case 5 => 0xA759_E80B case 6 => 0xB409_1BFF case 7 => 0x4662_98FC
    case 8 => 0x1871_A4D8 case 9 => 0xEA1A_27DB case 10 => 0xF94A_D42F case 11 => 0x0B21_572C
    case 12 => 0xDFEB_33C7 case 13 => 0x2D80_B0C4 case 14 => 0x3ED0_4330 case 15 => 0xCCBB_C033
  }

  function RowA(l: bv4): bv32 {
    match l
    case 0 => 0xA24B_B5A6 case 1 => 0x5020_36A5 case 2 => 0x4370_C551 case 3 => 0xB11B_4652
    case 4 => 0x65D1_22B9 case 5 => 0x97BA_A1BA case 6 => 0x84EA_524E case 7 => 0x7681_D14D
    case 8 => 0x2892_ED69 case 9 => 0xDAF9_6E6A case 10 => 0xC9A9_9D9E case 11 => 0x3BC2_1E9D
    case 12 => 0xEF08_7A76 case 13 => 0x1D63_F975 case 14 => 0x0E33_0A81 case 15 => 0xFC58_8982
  }

  function RowB(l: bv4): bv32 {
    match l
    case 0 => 0xB215_72C9 case 1 => 0x407E_F1CA case 2 => 0x532E_023E case 3 => 0xA145_813D
    case 4 => 0x758F_E5D6 case 5 => 0x87E4_66D5 case 6 => 0x94B4_9521 case 7 => 0x66DF_1622
    case 8 => 0x38CC_2A06 case 9 => 0xCAA7_A905 case 10 => 0xD9F7_5AF1 case 11 => 0x2B9C_D9F2
    case 12 => 0xFF56_BD19 case 13 => 0x0D3D_3E1A case 14 => 0x1E6D_CDEE case 15 => 0xEC06_4EED
  }

  function RowC(l: bv4): bv32 {
    match l
    case 0 => 0xC38D_26C4 case 1 => 0x31E6_A5C7 case 2 => 0x22B6_5633 case 3 => 0xD0DD_D530
    case 4 => 0x0417_B1DB case 5 => 0xF67C_32D8 case 6 => 0xE52C_C12C case 7 => 0x1747_422F
    case 8 => 0x4954_7E0B case 9 => 0xBB3F_FD08 case 10 => 0xA86F_0EFC case 11 => 0x5A04_8DFF
    case 12 => 0x8ECE_E914 case 13 => 0x7CA5_6A17 case 14 => 0x6FF5_99E3 case 15 => 0x9D9E_1AE0
  }

  function RowD(l: bv4): bv32 {
    match l
    case 0 => 0xD3D3_E1AB case 1 => 0x21B8_62A8 case 2 => 0x32E8_915C case 3 => 0xC083_125F
    case 4 => 0x1449_76B4 case 5 => 0xE622_F5B7 case 6 => 0xF572_0643 case 7 => 0x0719_8540
    case 8 => 0x590A_B964 case 9 => 0xAB61_3A67 case 10 => 0xB831_C993 case 11 => 0x4A5A_4A90
    case 12 => 0x9E90_2E7B case 13 => 0x6CFB_AD78 case 14 => 0x7FAB_5E8C case 15 => 0x8DC0_DD8F
  }

  function RowE(l: bv4): bv32 {
    match l
    case 0 => 0xE330_A81A case 1 => 0x115B_2B19 case 2 => 0x020B_D8ED case 3 => 0xF060_5BEE
    case 4 => 0x24AA_3F05 case 5 => 0xD6C1_BC06 case 6 => 0xC591_4FF2 case 7 => 0x37FA_CCF1
    case 8 => 0x69E9_F0D5 case 9 => 0x9B82_73D6 case 10 => 0x88D2_8022 case 11 => 0x7AB9_0321
    case 12 => 0xAE73_67CA case 13 => 0x5C18_E4C9 case 14 => 0x4F48_173D case 15 => 0xBD23_943E
  }

  function RowF(l: bv4): bv32 {
    match l
    case 0 => 0xF36E_6F75 case 1 => 0x0105_EC76 case 2 => 0x1255_1F82 case 3 => 0xE03E_9C81
    case 4 => 0x34F4_F86A case 5 => 0xC69F_7B69 case 6 => 0xD5CF_889D case 7 => 0x27A4_0B9E
    case 8 => 0x79B7_37BA case 9 => 0x8BDC_B4B9 case 10 => 0x988C_474D case 11 => 0x6AE7_C44E
    case 12 => 0xBE2D_A0A5 case 13 => 0x4C46_23A6 case 14 => 0x5F16_D052 case 15 => 0xAD7D_5351
  }

  function Entry(h: bv4, l: bv4): bv32 {
    match h
    case 0 => Row0(l) case 1 => Row1(l) case 2 => Row2(l) case 3 => Row3(l)
    case 4 => Row4(l) case 5 => Row5(l) case 6 => Row6(l) case 7 => Row7(l)
    case 8 => Row8(l) case 9 => Row9(l) case 10 => RowA(l) case 11 => RowB(l)
    case 12 => RowC(l) case 13 => RowD(l) case 14 => RowE(l) case 15 => RowF(l)
  }

  function Table(i: bv8): bv32 {
    Entry((i >> 4) as bv4, (i & 0xf) as bv4)
  }

  /** mlfs_crc32c, one byte. */
  function UpdateByte(c: bv32, b: bv8): bv32 {
    LookUp(Table, c, b)
  }

  /** ... with any table. */
  function LookUp(t: bv8 -> bv32, c: bv32, b: bv8): bv32 {
    Xor(t(LowByte(c, b)), c >> 8)
  }

  function LowByte(c: bv32, b: bv8): bv8 {
    ((c ^ (b as bv32)) & 0xff) as bv8
  }

  function Xor(a: bv32, b: bv32): bv32 {
    a ^ b
  }

  // ---------- Reflected division, bit by bit ----------

  /** The CRC32C polynomial 0x1EDC6F41 of section 12.1 of RFC 3720, lowest term in the highest bit. */
  const POLY: bv32 := 0x82F6_3B78

  function Fold(c: bv32): bv32 {
    if c & 1 == 1 then POLY else 0
  }

  /** Multiply by x and reduce: the lowest bit is the highest term. */
  function Shift(c: bv32): bv32 {
    (c >> 1) ^ Fold(c)
  }

  function Shift8(c: bv32): bv32 {
    Shift(Shift(Shift(Shift(Shift(Shift(Shift(Shift(c))))))))
  }

  lemma {:induction false} RowsA(l: bv4)
    ensures Row0(l) == Shift8(0x00 ^ (l as bv32))
    ensures Row1(l) == Shift8(0x10 ^ (l as bv32))
    ensures Row2(l) == Shift8(0x20 ^ (l as bv32))
    ensures Row3(l) == Shift8(0x30 ^ (l as bv32))
  {
    match l
    case 0 => case 1 => case 2 => case 3 => case 4 => case 5 => case 6 => case 7 =>
    case 8 => case 9 => case 10 => case 11 => case 12 => case 13 => case 14 => case 15 =>
  }

  lemma {:induction false} RowsB(l: bv4)
    ensures Row4(l) == Shift8(0x40 ^ (l as bv32))
    ensures Row5(l) == Shift8(0x50 ^ (l as bv32))
    ensures Row6(l) == Shift8(0x60 ^ (l as bv32))
    ensures Row7(l) == Shift8(0x70 ^ (l as bv32))
  {
    match l
    case 0 => case 1 => case 2 => case 3 => case 4 => case 5 => case 6 => case 7 =>
    case 8 => case 9 => case 10 => case 11 => case 12 => case 13 => case 14 => case 15 =>
  }

  lemma {:induction false} RowsC(l: bv4)
    ensures Row8(l) == Shift8(0x80 ^ (l as bv32))
    ensures Row9(l) == Shift8(0x90 ^ (l as bv32))
    ensures RowA(l) == Shift8(0xA0 ^ (l as bv32))
    ensures RowB(l) == Shift8(0xB0 ^ (l as bv32))
  {
    match l
    case 0 => case 1 => case 2 => case 3 => case 4 => case 5 => case 6 => case 7 =>
    case 8 => case 9 => case 10 => case 11 => case 12 => case 13 => case 14 => case 15 =>
  }

  lemma {:induction false} RowsD(l: bv4)
    ensures RowC(l) == Shift8(0xC0 ^ (l as bv32))
    ensures RowD(l) == Shift8(0xD0 ^ (l as bv32))
    ensures RowE(l) == Shift8(0xE0 ^ (l as bv32))
    ensures RowF(l) == Shift8(0xF0 ^ (l as bv32))
  {
    match l
    case 0 => case 1 => case 2 => case 3 => case 4 => case 5 => case 6 => case 7 =>
    case 8 => case 9 => case 10 => case 11 => case 12 => case 13 => case 14 => case 15 =>
  }

  /** Every entry of the table is the division of its index. */
  lemma {:induction false} TableIsDivision(i: bv8)
    ensures Table(i) == Shift8(i as bv32)
  {
    EntryIsDivision((i >> 4) as bv4, (i & 0xf) as bv4);
    Nibbles(i);
  }

  lemma {:induction false} EntryIsDivision(h: bv4, l: bv4)
    ensures Entry(h, l) == Shift8(((h as bv32) << 4) ^ (l as bv32))
  {
    match h
    case 0 => RowsA(l); case 1 => RowsA(l); case 2 => RowsA(l); case 3 => RowsA(l);
    case 4 => RowsB(l); case 5 => RowsB(l); case 6 => RowsB(l); case 7 => RowsB(l);
    case 8 => RowsC(l); case 9 => RowsC(l); case 10 => RowsC(l); case 11 => RowsC(l);
    case 12 => RowsD(l); case 13 => RowsD(l); case 14 => RowsD(l); case 15 => RowsD(l);
  }

  lemma {:induction false} Nibbles(i: bv8)
    ensures ((((i >> 4) as bv4) as bv32) << 4) ^ (((i & 0xf) as bv4) as bv32) == i as bv32
  {
  }

  lemma {:induction false} FoldLinear(a: bv32, b: bv32)
    ensures Fold(a ^ b) == Fold(a) ^ Fold(b)
  {
  }

  lemma {:induction false} HalfLinear(a: bv32, b: bv32)
    ensures (a ^ b) >> 1 == (a >> 1) ^ (b >> 1)
  {
  }

  lemma {:induction false} XorSwap(a: bv32, b: bv32, c: bv32, d: bv32)
    ensures (a ^ b) ^ (c ^ d) == (a ^ c) ^ (b ^ d)
  {
  }

  lemma {:induction false} ShiftSum(a: bv32, b: bv32)
    ensures Shift(a ^ b) == ((a >> 1) ^ (b >> 1)) ^ (Fold(a) ^ Fold(b))
  {
    FoldLinear(a, b);
    HalfLinear(a, b);
  }

  lemma {:induction false} SumOfShifts(a: bv32, b: bv32)
    ensures Shift(a) ^ Shift(b) == ((a >> 1) ^ (b >> 1)) ^ (Fold(a) ^ Fold(b))
  {
    XorSwap(a >> 1, b >> 1, Fold(a), Fold(b));
  }

  lemma {:induction false} ShiftLinear(a: bv32, b: bv32)
    ensures Shift(a ^ b) == Shift(a) ^ Shift(b)
  {
    calc {
      Shift(a ^ b);
      { ShiftSum(a, b); }
      ((a >> 1) ^ (b >> 1)) ^ (Fold(a) ^ Fold(b));
      { SumOfShifts(a, b); }
      Shift(a) ^ Shift(b);
    }
  }

  // ---------- Any number of steps, for any step that is linear and halves even words ----------

  ghost predicate IsShift(f: bv32 -> bv32) {
    && (forall a: bv32, b: bv32 {:trigger f(Xor(a, b))} :: f(Xor(a, b)) == Xor(f(a), f(b)))
    && (forall h: bv32 {:trigger f(h)} :: h & 1 == 0 ==> f(h) == h >> 1)
  }

  lemma {:induction false} ShiftIsShift()
    ensures IsShift(Shift)
  {
    forall a: bv32, b: bv32 ensures Shift(Xor(a, b)) == Xor(Shift(a), Shift(b)) { ShiftLinear(a, b); }
    forall h: bv32 | h & 1 == 0 ensures Shift(h) == h >> 1 { ShiftEven(h); }
  }

  lemma {:induction false} ShiftEven(c: bv32)
    requires c & 1 == 0
    ensures Shift(c) == c >> 1
  {
  }

  function Iter(f: bv32 -> bv32, c: bv32, n: nat): bv32
    decreases n
  {
    if n == 0 then c else Iter(f, f(c), n - 1)
  }

  /** What is left of b after n halvings. */
  function Rest(b: bv32, n: nat): bv32 {
    if n == 0 then b else Rest(b >> 1, n - 1)
  }

  /** Taking in the n lowest bits of b one by one. */
  function TakeLow(f: bv32 -> bv32, c: bv32, b: bv32, n: nat): bv32
    decreases n
  {
    if n == 0 then c else TakeLow(f, f(Xor(c, b & 1)), b >> 1, n - 1)
  }

  lemma {:induction false} IterLinear(f: bv32 -> bv32, a: bv32, b: bv32, n: nat)
    requires IsShift(f)
    ensures Iter(f, Xor(a, b), n) == Xor(Iter(f, a, n), Iter(f, b, n))
    decreases n
  {
    if n > 0 { IterLinear(f, f(a), f(b), n - 1); }
  }

  /** Of a word added to the register, the lowest bit is taken in now and the rest later. */
  lemma {:induction false} StepTakesBit(f: bv32 -> bv32, c: bv32, b: bv32)
    requires IsShift(f)
    ensures f(Xor(c, b)) == Xor(f(Xor(c, b & 1)), b >> 1)
  {
    var low, high := b & 1, b & 0xffff_fffe;
    LowBit(c, b);
    assert f(Xor(Xor(c, low), high)) == Xor(f(Xor(c, low)), f(high));
  }

  lemma {:induction false} LowBit(c: bv32, b: bv32)
    ensures Xor(c, b) == Xor(Xor(c, b & 1), b & 0xffff_fffe)
    ensures (b & 0xffff_fffe) & 1 == 0 && (b & 0xffff_fffe) >> 1 == b >> 1
  {
  }

  /** n steps on a word added at once take in its n lowest bits one by one. */
  lemma {:induction false} IterTakes(f: bv32 -> bv32, c: bv32, b: bv32, n: nat)
    requires IsShift(f)
    ensures Iter(f, Xor(c, b), n) == Xor(TakeLow(f, c, b, n), Rest(b, n))
    decreases n
  {
    if n > 0 {
      StepTakesBit(f, c, b);
      IterTakes(f, f(Xor(c, b & 1)), b >> 1, n - 1);
    }
  }

  /** Stepping over zero bits is halving. */
  lemma {:induction false} IterZeros(f: bv32 -> bv32, h: bv32, n: nat)
    requires IsShift(f) && Zero(h, n)
    ensures Iter(f, h, n) == Rest(h, n)
    decreases n
  {
    if n > 0 { IterZeros(f, h >> 1, n - 1); }
  }

  predicate Zero(h: bv32, n: nat) {
    n == 0 || (h & 1 == 0 && Zero(h >> 1, n - 1))
  }

  lemma {:induction false} Halves(b: bv32)
    ensures (b >> 1) >> 1 == b >> 2 && (b >> 2) >> 1 == b >> 3 && (b >> 3) >> 1 == b >> 4 && (b >> 4) >> 1 == b >> 5
    ensures (b >> 5) >> 1 == b >> 6 && (b >> 6) >> 1 == b >> 7 && (b >> 7) >> 1 == b >> 8
  {
  }

  lemma {:induction false} RestEight(b: bv32, n: nat)
    requires n == 8
    ensures Rest(b, n) == b >> 8
  {
    Halves(b);
    assert Rest(b, n) == Rest(b >> 1, n - 1) == Rest(b >> 2, n - 2) == Rest(b >> 3, n - 3) == Rest(b >> 4, n - 4);
    assert Rest(b >> 4, n - 4) == Rest(b >> 5, n - 5) == Rest(b >> 6, n - 6) == Rest(b >> 7, n - 7) == b >> 8;
  }

  lemma {:induction false} ZeroEight(h: bv32, n: nat)
    requires n == 8 && h & 0xff == 0
    ensures Zero(h, n)
  {
    Halves(h);
    HighBits(h);
    assert Zero(h >> 7, n - 7);
    assert Zero(h >> 6, n - 6);
    assert Zero(h >> 5, n - 5);
    assert Zero(h >> 4, n - 4);
    assert Zero(h >> 3, n - 3);
    assert Zero(h >> 2, n - 2);
    assert Zero(h >> 1, n - 1);
  }

  lemma {:induction false} HighBits(h: bv32)
    requires h & 0xff == 0
    ensures h & 1 == 0 && (h >> 1) & 1 == 0 && (h >> 2) & 1 == 0 && (h >> 3) & 1 == 0
    ensures (h >> 4) & 1 == 0 && (h >> 5) & 1 == 0 && (h >> 6) & 1 == 0 && (h >> 7) & 1 == 0
  {
  }

  lemma {:induction false} LowPart(c: bv32, b: bv8)
    ensures (LowByte(c, b) as bv32) == (c ^ (b as bv32)) & 0xff
  {
  }

  lemma {:induction false} HighPart(c: bv32, b: bv8)
    ensures ((c ^ (b as bv32)) & 0xffff_ff00) >> 8 == c >> 8
  {
  }

  lemma {:induction false} TwoParts(x: bv32)
    ensures x == Xor(x & 0xff, x & 0xffff_ff00) && (x & 0xffff_ff00) & 0xff == 0
  {
  }

  /** The low byte that is looked up and the high bytes that move down. */
  lemma {:induction false} Parts(c: bv32, b: bv8) returns (i: bv8, lo: bv32, hi: bv32, rest: bv32)
    ensures i == LowByte(c, b) && rest == c >> 8
    ensures Xor(c, b as bv32) == Xor(lo, hi) && lo == i as bv32 && hi & 0xff == 0 && hi >> 8 == rest
  {
    var x := Xor(c, b as bv32);
    i, lo, hi, rest := LowByte(c, b), x & 0xff, x & 0xffff_ff00, c >> 8;
    LowPart(c, b);
    HighPart(c, b);
    TwoParts(x);
  }

  /** One turn of the loop is eight steps, for a step whose eightfold use the table holds. */
  lemma {:induction false} ByteIsEight(f: bv32 -> bv32, t: bv8 -> bv32, c: bv32, b: bv8, n: nat)
    requires IsShift(f) && n == 8 && forall i: bv8 :: t(i) == Iter(f, i as bv32, n)
    ensures LookUp(t, c, b) == Iter(f, Xor(c, b as bv32), n)
  {
    var i, lo, hi, rest := Parts(c, b);
    calc {
      LookUp(t, c, b);
      Xor(t(i), rest);
      Xor(Iter(f, lo, n), rest);
      { SplitByte(f, lo, hi, rest, n); }
      Iter(f, Xor(lo, hi), n);
      Iter(f, Xor(c, b as bv32), n);
    }
  }

  lemma {:induction false} SplitByte(f: bv32 -> bv32, lo: bv32, hi: bv32, rest: bv32, n: nat)
    requires IsShift(f) && n == 8 && hi & 0xff == 0 && hi >> 8 == rest
    ensures Xor(Iter(f, lo, n), rest) == Iter(f, Xor(lo, hi), n)
  {
    IterLinear(f, lo, hi, n);
    ZeroEight(hi, n);
    IterZeros(f, hi, n);
    RestEight(hi, n);
  }

  lemma {:induction false} IterEight(c: bv32, n: nat)
    requires n == 8
    ensures Iter(Shift, c, n) == Shift8(c)
  {
    var c1 := Shift(c);
    var c2 := Shift(c1);
    var c3 := Shift(c2);
    var c4 := Shift(c3);
    assert Iter(Shift, c, n) == Iter(Shift, c1, n - 1) == Iter(Shift, c2, n - 2) == Iter(Shift, c3, n - 3)
           == Iter(Shift, c4, n - 4);
    var c5 := Shift(c4);
    var c6 := Shift(c5);
    var c7 := Shift(c6);
    assert Iter(Shift, c4, n - 4) == Iter(Shift, c5, n - 5) == Iter(Shift, c6, n - 6) == Iter(Shift, c7, n - 7)
           == Shift(c7);
  }

  // ---------- Division of polynomials over the two-element field ----------

  /** Coefficients, highest term first. */
  type Poly = seq<bool>

  /** The n lowest bits of b, lowest first. */
  function LowBits(b: bv32, n: nat): (m: Poly)
    ensures |m| == n
    decreases n
  {
    if n == 0 then [] else [b & 1 == 1] + LowBits(b >> 1, n - 1)
  }

  const WIDTH: nat := 32

  /** The register as the coefficients of x^31, ..., x^0. */
  function Coeffs(c: bv32): Poly {
    LowBits(c, WIDTH)
  }

  /** q added to the highest terms of p. */
  function AddTop(p: Poly, q: Poly): Poly
    requires |q| <= |p|
  {
    seq(|p|, i requires 0 <= i < |p| => if i < |q| then p[i] != q[i] else p[i])
  }

  /** The remainder of p modulo x^32 + g, by long division. */
  function Rem(p: Poly, g: Poly): Poly
    requires |g| == WIDTH
    decreases |p|
  {
    if |p| <= WIDTH then p
    else if p[0] then Rem(AddTop(p[1..], g), g)
    else Rem(p[1..], g)
  }

  function Zeros(): Poly {
    seq(WIDTH, _ => false)
  }

  /** Taking in one message bit. */
  function TakeBit(f: bv32 -> bv32, c: bv32, bit: bool): bv32 {
    f(Xor(c, if bit then 1 else 0))
  }

  function TakeBits(f: bv32 -> bv32, c: bv32, m: Poly): bv32
    decreases |m|
  {
    if m == [] then c else TakeBits(f, TakeBit(f, c, m[0]), m[1..])
  }

  /** Taking in one message bit, on coefficients: multiply by x, and take the generator away if the
      highest term differs from the bit. */
  function TakeCoeff(r: Poly, bit: bool, g: Poly): Poly
    requires |r| == |g| == WIDTH
  {
    AddTop(r[1..] + [false], if r[0] != bit then g else Zeros())
  }

  /** The n lowest bits of c are the sums of those of a and b. */
  predicate Adds(a: bv32, b: bv32, c: bv32, n: nat) {
    n == 0 || ((c & 1 == 1) == ((a & 1 == 1) != (b & 1 == 1)) && Adds(a >> 1, b >> 1, c >> 1, n - 1))
  }

  lemma {:induction false} XorAdds(a: bv32, b: bv32, n: nat)
    ensures Adds(a, b, a ^ b, n)
    decreases n
  {
    if n > 0 {
      HalfLinear(a, b);
      XorOdd(a, b);
      XorAdds(a >> 1, b >> 1, n - 1);
    }
  }

  lemma {:induction false} AddsBits(a: bv32, b: bv32, c: bv32, n: nat)
    requires Adds(a, b, c, n)
    ensures LowBits(c, n) == AddTop(LowBits(a, n), LowBits(b, n))
    decreases n
  {
    if n > 0 { AddsBits(a >> 1, b >> 1, c >> 1, n - 1); }
  }

  lemma {:induction false} LowXor(a: bv32, b: bv32, n: nat) returns (c: bv32)
    ensures c == a ^ b && LowBits(c, n) == AddTop(LowBits(a, n), LowBits(b, n))
  {
    c := a ^ b;
    XorAdds(a, b, n);
    AddsBits(a, b, c, n);
  }

  lemma {:induction false} XorOdd(a: bv32, b: bv32)
    ensures ((a ^ b) & 1 == 1) == ((a & 1 == 1) != (b & 1 == 1))
  {
  }

  lemma {:induction false} LowZero(n: nat)
    ensures LowBits(0, n) == seq(n, _ => false)
    decreases n
  {
    if n > 0 {
      ZeroHalf();
      LowZero(n - 1);
    }
  }

  lemma {:induction false} ZeroHalf()
    ensures (0 as bv32) >> 1 == 0 && (1 as bv32) >> 1 == 0 && (0 as bv32) & 1 == 0
  {
  }

  lemma {:induction false} LowSnoc(b: bv32, n: nat)
    ensures LowBits(b, n + 1) == LowBits(b, n) + [Rest(b, n) & 1 == 1]
    decreases n
  {
    if n > 0 { LowSnoc(b >> 1, n - 1); }
  }

  lemma {:induction false} RestAdd(b: bv32, m: nat, n: nat)
    ensures Rest(b, m + n) == Rest(Rest(b, m), n)
    decreases m
  {
    if m > 0 { RestAdd(b >> 1, m - 1, n); }
  }

  lemma {:induction false} RestAll(b: bv32, n: nat)
    requires n == 8
    ensures Rest(b, WIDTH) == 0
  {
    RestAdd(b, n + n, n + n);
    RestTwo(b, n);
    RestTwo((b >> 8) >> 8, n);
    Bytes(b);
  }

  lemma {:induction false} RestTwo(b: bv32, n: nat)
    requires n == 8
    ensures Rest(b, n + n) == (b >> 8) >> 8
  {
    RestAdd(b, n, n);
    RestEight(b, n);
    RestEight(b >> 8, n);
  }

  lemma {:induction false} Bytes(b: bv32)
    ensures (((b >> 8) >> 8) >> 8) >> 8 == 0
  {
  }

  /** Halving a word moves its coefficients up by one. */
  lemma {:induction false} CoeffsHalf(c: bv32)
    ensures Coeffs(c >> 1) == Coeffs(c)[1..] + [false] && Coeffs(c)[0] == (c & 1 == 1)
  {
    RestAll(c, 8);
    ZeroHalf();
    LowTail(c, WIDTH);
  }

  lemma {:induction false} LowTail(c: bv32, n: nat)
    requires n > 0
    ensures LowBits(c >> 1, n) == LowBits(c, n)[1..] + [Rest(c, n) & 1 == 1] && LowBits(c, n)[0] == (c & 1 == 1)
  {
    LowSnoc(c, n);
    assert LowBits(c, n + 1) == [c & 1 == 1] + LowBits(c >> 1, n);
    assert LowBits(c, n + 1)[1..] == LowBits(c >> 1, n);
    assert (LowBits(c, n) + [Rest(c, n) & 1 == 1])[1..] == LowBits(c, n)[1..] + [Rest(c, n) & 1 == 1];
  }

  lemma {:induction false} ShiftCoeffs(c: bv32)
    ensures Coeffs(Shift(c)) == AddTop(Coeffs(c)[1..] + [false], if Coeffs(c)[0] then Coeffs(POLY) else Zeros())
  {
    CoeffsHalf(c);
    var d := LowXor(c >> 1, Fold(c), WIDTH);
    LowZero(WIDTH);
  }

  lemma {:induction false} LowOne(n: nat)
    requires n > 0
    ensures LowBits(1, n) == [true] + seq(n - 1, _ => false) && LowBits(0, n) == [false] + seq(n - 1, _ => false)
  {
    ZeroHalf();
    LowZero(n - 1);
  }

  lemma {:induction false} BitCoeffs(c: bv32, bit: bool, w: bv32, d: bv32)
    requires w == (if bit then 1 else 0) && Adds(c, w, d, WIDTH)
    ensures Coeffs(d)[0] == (Coeffs(c)[0] != bit) && Coeffs(d)[1..] == Coeffs(c)[1..]
  {
    AddsBits(c, w, d, WIDTH);
    LowOne(WIDTH);
    AddFirst(Coeffs(c), Coeffs(w), bit);
  }

  lemma {:induction false} AddFirst(r: Poly, u: Poly, bit: bool)
    requires |r| > 0 && u == [bit] + seq(|r| - 1, _ => false)
    ensures AddTop(r, u)[0] == (r[0] != bit) && AddTop(r, u)[1..] == r[1..]
  {
  }

  lemma {:induction false} TakeBitCoeffs(c: bv32, bit: bool)
    ensures Coeffs(TakeBit(Shift, c, bit)) == TakeCoeff(Coeffs(c), bit, Coeffs(POLY))
  {
    var w: bv32 := if bit then 1 else 0;
    XorAdds(c, w, WIDTH);
    BitCoeffs(c, bit, w, c ^ w);
    ShiftCoeffs(c ^ w);
  }

  /** One step of long division is one step of the register. */
  lemma {:induction false} RemStep(m: Poly, r: Poly, g: Poly)
    requires m != [] && |r| == |g| == WIDTH
    ensures Rem(AddTop(m + Zeros(), r), g) == Rem(AddTop(m[1..] + Zeros(), TakeCoeff(r, m[0], g)), g)
  {
    var p := AddTop(m + Zeros(), r);
    var q := AddTop(m[1..] + Zeros(), TakeCoeff(r, m[0], g));
    if p[0] {
      assert AddTop(p[1..], g) == q;
    } else {
      assert p[1..] == q;
    }
  }

  /** The register after the message bits m is the remainder of m(x) x^32 + c(x) x^|m|. */
  lemma {:induction false} BitsAreDivision(c: bv32, m: Poly)
    ensures Coeffs(TakeBits(Shift, c, m)) == Rem(AddTop(m + Zeros(), Coeffs(c)), Coeffs(POLY))
    decreases |m|
  {
    if m == [] {
      assert AddTop(m + Zeros(), Coeffs(c)) == Coeffs(c);
    } else {
      BitsAreDivision(TakeBit(Shift, c, m[0]), m[1..]);
      TakeBitCoeffs(c, m[0]);
      RemStep(m, Coeffs(c), Coeffs(POLY));
    }
  }

  // ---------- Bytes and buffers ----------

  /** The bits of a byte, lowest first. */
  function ByteBits(b: bv8): Poly {
    [b & 1 != 0, b & 2 != 0, b & 4 != 0, b & 8 != 0, b & 16 != 0, b & 32 != 0, b & 64 != 0, b & 128 != 0]
  }

  function MessageBits(buf: seq<bv8>): Poly {
    if buf == [] then [] else ByteBits(buf[0]) + MessageBits(buf[1..])
  }

  function Update(c: bv32, buf: seq<bv8>): bv32
    decreases |buf|
  {
    if buf == [] then c else Update(UpdateByte(c, buf[0]), buf[1..])
  }

  lemma {:induction false} TakeLowIsTakeBits(f: bv32 -> bv32, c: bv32, b: bv32, n: nat)
    ensures TakeLow(f, c, b, n) == TakeBits(f, c, LowBits(b, n))
    decreases n
  {
    if n > 0 {
      BitAsWord(b);
      TakeLowIsTakeBits(f, TakeBit(f, c, b & 1 == 1), b >> 1, n - 1);
      assert LowBits(b, n)[1..] == LowBits(b >> 1, n - 1);
    }
  }

  lemma {:induction false} BitAsWord(b: bv32)
    ensures b & 1 == if b & 1 == 1 then 1 else 0
  {
  }

  lemma {:induction false} LowFour(b: bv32, n: nat)
    requires n >= 4
    ensures LowBits(b, n) == [b & 1 == 1, (b >> 1) & 1 == 1, (b >> 2) & 1 == 1, (b >> 3) & 1 == 1]
            + LowBits(b >> 4, n - 4)
  {
    Halves(b);
    var r1, r2, r3, r4 := LowBits(b >> 1, n - 1), LowBits(b >> 2, n - 2), LowBits(b >> 3, n - 3),
        LowBits(b >> 4, n - 4);
    assert LowBits(b, n) == [b & 1 == 1] + r1;
    assert r1 == [(b >> 1) & 1 == 1] + r2;
    assert r2 == [(b >> 2) & 1 == 1] + r3;
    assert r3 == [(b >> 3) & 1 == 1] + r4;
  }

  /** 0x1EDC6F41: x^28 + x^27 + x^26 + x^25 + x^23 + x^22 + x^20 + x^19 + x^18 + x^14 + x^13 + x^11
      + x^10 + x^9 + x^8 + x^6 + 1, below x^32. */
  const GENERATOR: Poly :=
    [false, false, false, true, true, true, true, false]
    + [true, true, false, true, true, true, false, false]
    + [false, true, true, false, true, true, true, true]
    + [false, true, false, false, false, false, false, true]

  lemma {:induction false} PolyIsGenerator()
    ensures Coeffs(POLY) == GENERATOR
  {
    PolyByte0();
    PolyByte1();
    PolyByte2();
    PolyByte3();
    Join(LowBits(POLY, WIDTH), LowBits(0x82F63B, WIDTH - 8), LowBits(0x82F6, WIDTH - 16), LowBits(0x82, WIDTH - 24),
         [false, false, false, true, true, true, true, false],
         [true, true, false, true, true, true, false, false],
         [false, true, true, false, true, true, true, true],
         [false, true, false, false, false, false, false, true]);
  }

  lemma {:induction false} Join(p: Poly, q: Poly, r: Poly, t: Poly, a: Poly, b: Poly, c: Poly, d: Poly)
    requires p == a + q && q == b + r && r == c + t && t == d + []
    ensures p == a + b + c + d
  {
  }

  lemma {:induction false} PolyByte0()
    ensures LowBits(POLY, WIDTH) == [false, false, false, true, true, true, true, false] + LowBits(0x82F63B, WIDTH - 8)
  {
    LowFour(POLY, WIDTH);
    LowFour(0x82F63B7, WIDTH - 4);
    Nibbled();
  }

  lemma {:induction false} PolyByte1()
    ensures LowBits(0x82F63B, WIDTH - 8) == [true, true, false, true, true, true, false, false]
            + LowBits(0x82F6, WIDTH - 16)
  {
    LowFour(0x82F63B, WIDTH - 8);
    LowFour(0x82F63, WIDTH - 12);
    Nibbled();
  }

  lemma {:induction false} PolyByte2()
    ensures LowBits(0x82F6, WIDTH - 16) == [false, true, true, false, true, true, true, true]
            + LowBits(0x82, WIDTH - 24)
  {
    LowFour(0x82F6, WIDTH - 16);
    LowFour(0x82F, WIDTH - 20);
    Nibbled();
  }

  lemma {:induction false} PolyByte3()
    ensures LowBits(0x82, WIDTH - 24) == [false, true, false, false, false, false, false, true]
            + LowBits(0x0, WIDTH - 32)
  {
    LowFour(0x82, WIDTH - 24);
    LowFour(0x8, WIDTH - 28);
    Nibbled();
  }

  lemma {:induction false} Nibbled()
    ensures (0x82F63B78 as bv32) >> 4 == 0x82F63B7
         && (0x82F63B7 as bv32) >> 4 == 0x82F63B
         && (0x82F63B as bv32) >> 4 == 0x82F63
         && (0x82F63 as bv32) >> 4 == 0x82F6
         && (0x82F6 as bv32) >> 4 == 0x82F
         && (0x82F as bv32) >> 4 == 0x82
         && (0x82 as bv32) >> 4 == 0x8
         && (0x8 as bv32) >> 4 == 0x0
  {
  }

  lemma {:induction false} ByteBitsAre(b: bv8, n: nat)
    requires n == 8
    ensures ByteBits(b) == LowBits(b as bv32, n)
  {
    var x, y := b as bv32, (b as bv32) >> 4;
    LowFour(x, n);
    LowFour(y, n - 4);
    BitsFour(b);
    Join2(LowBits(x, n), LowBits(y, n - 4), LowBits(y >> 4, n - 8),
          [x & 1 == 1, (x >> 1) & 1 == 1, (x >> 2) & 1 == 1, (x >> 3) & 1 == 1],
          [y & 1 == 1, (y >> 1) & 1 == 1, (y >> 2) & 1 == 1, (y >> 3) & 1 == 1]);
  }

  lemma {:induction false} Join2(p: Poly, q: Poly, r: Poly, a: Poly, b: Poly)
    requires p == a + q && q == b + r && r == []
    ensures p == a + b
  {
  }

  lemma {:induction false} BitsFour(b: bv8)
    ensures var x := b as bv32;
            var y := x >> 4;
            ByteBits(b) == [x & 1 == 1, (x >> 1) & 1 == 1, (x >> 2) & 1 == 1, (x >> 3) & 1 == 1]
                         + [y & 1 == 1, (y >> 1) & 1 == 1, (y >> 2) & 1 == 1, (y >> 3) & 1 == 1]
  {
    BitsAre(b);
  }

  lemma {:induction false} BitsAre(b: bv8)
    ensures var x := b as bv32;
            var y := x >> 4;
            && (b & 1 != 0) == (x & 1 == 1) && (b & 2 != 0) == ((x >> 1) & 1 == 1)
            && (b & 4 != 0) == ((x >> 2) & 1 == 1) && (b & 8 != 0) == ((x >> 3) & 1 == 1)
            && (b & 16 != 0) == (y & 1 == 1) && (b & 32 != 0) == ((y >> 1) & 1 == 1)
            && (b & 64 != 0) == ((y >> 2) & 1 == 1) && (b & 128 != 0) == ((y >> 3) & 1 == 1)
  {
  }

  /** One turn of the loop takes in the eight bits of its byte. */
  lemma {:induction false} UpdateTakesByte(c: bv32, b: bv8, n: nat)
    requires n == 8
    ensures UpdateByte(c, b) == TakeBits(Shift, c, LowBits(b as bv32, n))
  {
    ShiftIsShift();
    forall i: bv8 ensures Table(i) == Iter(Shift, i as bv32, n) {
      TableIsDivision(i);
      IterEight(i as bv32, n);
    }
    ByteThenBits(Shift, Table, c, b, n);
    TakeLowIsTakeBits(Shift, c, b as bv32, n);
  }

  lemma {:induction false} ByteThenBits(f: bv32 -> bv32, t: bv8 -> bv32, c: bv32, b: bv8, n: nat)
    requires IsShift(f) && n == 8 && forall i: bv8 :: t(i) == Iter(f, i as bv32, n)
    ensures LookUp(t, c, b) == TakeLow(f, c, b as bv32, n)
  {
    ByteIsEight(f, t, c, b, n);
    IterTakes(f, c, b as bv32, n);
    RestEight(b as bv32, n);
    NoRest(b);
    XorZero(TakeLow(f, c, b as bv32, n));
  }

  lemma {:induction false} NoRest(b: bv8)
    ensures (b as bv32) >> 8 == 0
  {
  }

  lemma {:induction false} XorZero(c: bv32)
    ensures Xor(c, 0) == c
  {
  }

  lemma {:induction false} TakeConcat(f: bv32 -> bv32, c: bv32, a: Poly, b: Poly)
    ensures TakeBits(f, c, a + b) == TakeBits(f, TakeBits(f, c, a), b)
    decreases |a|
  {
    if a == [] {
      assert a + b == b;
    } else {
      assert (a + b)[1..] == a[1..] + b;
      TakeConcat(f, TakeBit(f, c, a[0]), a[1..], b);
    }
  }

  lemma {:induction false} UpdateTakesBits(c: bv32, buf: seq<bv8>)
    ensures Update(c, buf) == TakeBits(Shift, c, MessageBits(buf))
    decreases |buf|
  {
    if buf != [] {
      UpdateTakesByte(c, buf[0], 8);
      ByteBitsAre(buf[0], 8);
      UpdateTakesBits(UpdateByte(c, buf[0]), buf[1..]);
      TakeConcat(Shift, c, ByteBits(buf[0]), MessageBits(buf[1..]));
    }
  }

  /** For every register and buffer, the table-driven update is the polynomial remainder. */
  lemma {:induction false} UpdateIsDivision(c: bv32, buf: seq<bv8>)
    ensures Coeffs(Update(c, buf)) == Rem(AddTop(MessageBits(buf) + Zeros(), Coeffs(c)), GENERATOR)
  {
    PolyIsGenerator();
    UpdateTakesBits(c, buf);
    BitsAreDivision(c, MessageBits(buf));
  }

  /** Running on a concatenation is chaining the two runs. */
  lemma {:induction false} UpdateChains(c: bv32, a: seq<bv8>, b: seq<bv8>)
    ensures Update(c, a + b) == Update(Update(c, a), b)
    decreases |a|
  {
    if a == [] {
      assert a + b == b;
    } else {
      assert (a + b)[1..] == a[1..] + b;
      UpdateChains(UpdateByte(c, a[0]), a[1..], b);
    }
  }

  /** mlfs_crc32c */
  method Crc(crc: bv32, buf: seq<bv8>) returns (r: bv32)
    ensures r == Update(crc, buf)
    ensures Coeffs(r) == Rem(AddTop(MessageBits(buf) + Zeros(), Coeffs(crc)), GENERATOR)
  {
    r := crc;
    var p: nat, size := 0, |buf|;
    while size > 0
      invariant p <= |buf| && p + size == |buf| && Update(crc, buf) == Update(r, buf[p..])
    {
      size := size - 1;
      assert buf[p..][1..] == buf[p + 1..];
      r := Table(((r ^ (buf[p] as bv32)) & 0xff) as bv8) ^ (r >> 8);
      p := p + 1;
    }
    UpdateIsDivision(crc, buf);
  }
}
