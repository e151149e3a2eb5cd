/** What digest_file in kernfs/fs.c does to the contents of logical blocks, and when that is what
    the log entry says. */
module DigestSpec {
  import opened BlockSize

  type Bytes = seq<bv8>
  type Contents = seq<Bytes>      // logical block to bytes
  type FileMap = map<int, int>     // file block to logical block

  /** s with the bytes from `at` on replaced by t. */
  function Splice(s: Bytes, at: nat, t: Bytes): Bytes
    requires at + |t| <= |s|
  {
    s[..at] + t + s[at + |t|..]
  }

  // ---------- Steps on the contents ----------

  /** The contents of logical blocks k and l exchanged. */
  function Exchange(v: Contents, k: int, l: int): Contents {
    if 0 <= k < |v| && 0 <= l < |v| then v[k := v[l]][l := v[k]] else v
  }

  /** n bytes of logical block l copied to the same place in logical block k. */
  function Copied(v: Contents, k: int, l: int, at: nat, n: nat): Contents {
    if 0 <= k < |v| && 0 <= l < |v| && at + n <= |v[k]| == |v[l]| then v[k := Splice(v[k], at, v[l][at..at + n])] else v
  }

  /** Exchanges for k, k + 1, ... and l, l + 1, ..., n times. */
  ghost function ExchangeRun(v: Contents, k: int, l: int, n: nat): Contents {
    if n == 0 then v else Exchange(ExchangeRun(v, k, l, n - 1), k + (n - 1), l + (n - 1))
  }

  /** The last block of a run: exchanged if whole, else copied up to byte r. */
  function PlacedLast(v: Contents, k: int, l: int, whole: bool, r: nat): Contents {
    if whole then Exchange(v, k, l) else Copied(v, k, l, 0, r)
  }

  /** One round of digest_file, with a run of n blocks. */
  ghost function Placed(v: Contents, k: int, l: int, n: nat, whole: bool, r: nat): Contents
    requires 0 < n
  {
    PlacedLast(ExchangeRun(v, k, l, n - 1), k + (n - 1), l + (n - 1), whole, r)
  }

  // ---------- The whole entry ----------

  function Slot(x: nat, p: nat, y: int): int {
    p + (y - x)
  }

  function BlockOf(b: FileMap, x: int): int {
    if x in b then b[x] else -1
  }

  /** How many blocks digest_file sets out to write. */
  function NrBlocks(length: nat): nat {
    if length < BLOCK then 1 else length / BLOCK + if length % BLOCK != 0 then 1 else 0
  }

  /** A first block that is copied: a short entry, or one that starts inside a block. */
  predicate HasHead(offset: nat, length: nat) {
    length < BLOCK || offset % BLOCK != 0
  }

  function HeadLen(offset: nat, length: nat): nat {
    if length < BLOCK - offset % BLOCK then length else BLOCK - offset % BLOCK
  }

  /** The first d blocks from log block blk on exchanged with the file's from block fb on. */
  ghost function Remapped(v: Contents, b: FileMap, fb: nat, blk: nat, d: nat): Contents {
    if d == 0 then v else Exchange(Remapped(v, b, fb, blk, d - 1), BlockOf(b, fb + (d - 1)), blk + (d - 1))
  }

  /** Blocks fb, ..., fb + total - 1 when `left` bytes remain: all exchanged, except for a last one
      that is only copied in part. */
  ghost function Runs(v: Contents, b: FileMap, fb: nat, blk: nat, total: nat, left: nat): Contents {
    if total * BLOCK <= left then Remapped(v, b, fb, blk, total)
    else if total == 0 || left < (total - 1) * BLOCK then v
    else Copied(Remapped(v, b, fb, blk, total - 1), BlockOf(b, fb + (total - 1)), blk
        + (total - 1), 0, left - (total - 1) * BLOCK)
  }

  /** digest_file, once the file has its blocks.  After a head the cursor into the log stands
      inside the head's block, so the blocks that follow are taken from there on. */
  ghost function Outcome(v: Contents, b: FileMap, offset: nat, length: nat, blk: nat): Contents {
    var fb := offset / BLOCK;
    if HasHead(offset, length) then
      var head := HeadLen(offset, length);
      Runs(Copied(v, BlockOf(b, fb), blk, offset % BLOCK, head), b, fb
          + 1, (blk * BLOCK + head) / BLOCK, NrBlocks(length) - 1, length - head)
    else Runs(v, b, fb, blk, NrBlocks(length), length)
  }

  // ---------- What exchanging blocks does ----------

  ghost predicate Sized(v: Contents) {
    forall l :: 0 <= l < |v| ==> |v[l]| == BLOCK
  }

  ghost predicate OneToOne(b: FileMap) {
    forall x, y {:trigger BlockOf(b, x), BlockOf(b, y)} :: x in b && y in b && x != y ==> BlockOf(b, x) != BlockOf(b, y)
  }

  /** Every block of the file is a block of the device, and none is one of n log blocks. */
  ghost predicate ApartFromLog(v: Contents, b: FileMap, blk: nat, n: nat) {
    && (forall x {:trigger BlockOf(b, x)} :: x in b ==> 0 <= BlockOf(b, x) < |v| && !(blk <= BlockOf(b, x) < blk + n))
    && blk + n <= |v|
  }

  ghost predicate Covers(b: FileMap, fb: nat, n: nat) {
    forall x :: fb <= x < fb + n ==> x in b
  }

  ghost predicate Ground(v: Contents, b: FileMap, fb: nat, blk: nat, n: nat) {
    Sized(v) && OneToOne(b) && ApartFromLog(v, b, blk, n) && Covers(b, fb, n)
  }

  /** Logical block l is not one of the file's blocks fb, ..., fb + d - 1. */
  ghost predicate Untouched(b: FileMap, fb: nat, d: nat, l: int) {
    forall x {:trigger BlockOf(b, x)} :: fb <= x < fb + d ==> BlockOf(b, x) != l
  }

  lemma {:induction false} RemappedKeys(v: Contents, b: FileMap, fb: nat, blk: nat, d: nat)
    requires Sized(v)
    ensures |Remapped(v, b, fb, blk, d)| == |v| && Sized(Remapped(v, b, fb, blk, d))
  {
    if d > 0 { RemappedKeys(v, b, fb, blk, d - 1); }
  }

  lemma {:induction false} RemappedElse(v: Contents, b: FileMap, fb: nat, blk: nat, d: nat, l: int)
    requires Sized(v) && 0 <= l < |v| && !(blk <= l < blk + d) && Untouched(b, fb, d, l)
    ensures |Remapped(v, b, fb, blk, d)| == |v| && Remapped(v, b, fb, blk, d)[l] == v[l]
  {
    if d > 0 {
      RemappedElse(v, b, fb, blk, d - 1, l);
      assert BlockOf(b, fb + (d - 1)) != l;
    }
  }

  /** A file block takes the content of its log block. */
  lemma {:induction false} RemappedOne(v: Contents, b: FileMap, fb: nat, blk: nat, d: nat, x: nat, k: int)
    requires Sized(v) && fb <= x < fb + d && k == BlockOf(b, x) && 0 <= k < |v| && blk + d <= |v|
             && !(blk <= k < blk + d)
    requires forall y {:trigger BlockOf(b, y)} :: fb <= y < fb + d && y != x ==> BlockOf(b, y) != k
    requires Untouched(b, fb, d, Slot(fb, blk, x))
    ensures |Remapped(v, b, fb, blk, d)| == |v| && Remapped(v, b, fb, blk, d)[k] == v[Slot(fb, blk, x)]
  {
    if x == fb + (d - 1) {
      RemappedElse(v, b, fb, blk, d - 1, blk + (d - 1));
    } else {
      RemappedOne(v, b, fb, blk, d - 1, x, k);
      assert BlockOf(b, fb + (d - 1)) != k;
    }
  }

  lemma {:induction false} RemappedAt(v: Contents, b: FileMap, fb: nat, blk: nat, n: nat, d: nat, x: nat)
    requires Ground(v, b, fb, blk, n) && d <= n && fb <= x < fb + d
    ensures var l := Slot(fb, blk, x);
            0 <= l < |v| == |Remapped(v, b, fb, blk, d)| && Remapped(v, b, fb, blk, d)[BlockOf(b, x)] == v[l]
  {
    RemappedOne(v, b, fb, blk, d, x, BlockOf(b, x));
  }

  /** A run of the file exchanged in one go. */
  lemma {:induction false} RemappedRun(v: Contents, b: FileMap, fb: nat, blk: nat, d: nat, p: nat, n: nat, m: nat)
    requires (forall y :: fb + d <= y < fb + d + n ==> BlockOf(b, y) == Slot(fb + d, p, y)) && m <= n
    ensures ExchangeRun(Remapped(v, b, fb, blk, d), p, blk + d, m) == Remapped(v, b, fb, blk, d + m)
  {
    if m > 0 {
      RemappedRun(v, b, fb, blk, d, p, n, m - 1);
      assert BlockOf(b, fb + d + (m - 1)) == Slot(fb + d, p, fb + d + (m - 1));
    }
  }

  /** Only the blocks that were exchanged matter. */
  lemma {:induction false} RemappedSame(v: Contents, b: FileMap, b': FileMap, fb: nat, blk: nat, d: nat)
    requires forall x {:trigger BlockOf(b, x)} :: fb <= x < fb + d ==> BlockOf(b, x) == BlockOf(b', x)
    ensures Remapped(v, b', fb, blk, d) == Remapped(v, b, fb, blk, d)
  {
    if d > 0 {
      RemappedSame(v, b, b', fb, blk, d - 1);
      assert BlockOf(b, fb + (d - 1)) == BlockOf(b', fb + (d - 1));
    }
  }

  // ---------- What the log entry says ----------

  /** Byte i of file block x is one of the logged bytes. */
  predicate Logged(offset: nat, length: nat, x: nat, i: nat) {
    offset <= x * BLOCK + i < offset + length
  }

  /** The entry lies in one block, or starts at a block boundary. */
  predicate OneBlockOrAligned(offset: nat, length: nat) {
    offset % BLOCK + length <= BLOCK || offset % BLOCK == 0
  }

  function ByteOf(v: Contents, l: int, i: nat): bv8 {
    if 0 <= l < |v| && i < |v[l]| then v[l][i] else 0
  }

  /** Byte i of block x of the file. */
  function FileByte(v: Contents, b: FileMap, x: int, i: nat): bv8 {
    ByteOf(v, BlockOf(b, x), i)
  }

  /** Log block blk holds the logged bytes of the first file block, each at its place in the block,
      log block blk + 1 those of the next one, and so on.  The file reads as before, overlaid with
      the logged bytes; no block outside the file and the log entry changes. */
  ghost predicate Overlaid(v0: Contents, b0: FileMap, v: Contents, b: FileMap, offset: nat, length: nat, blk: nat) {
    && |v| == |v0|
    && (forall x :: x in b0 ==> x in b && b[x] == b0[x])
    && (forall x: nat, i: nat :: i < BLOCK && Logged(offset, length, x, i) ==>
          x in b && FileByte(v, b, x, i) == ByteOf(v0, Slot(offset / BLOCK, blk, x), i))
    && (forall x: nat, i: nat :: i < BLOCK && x in b && !Logged(offset, length, x, i) ==>
          FileByte(v, b, x, i) == FileByte(v0, b, x, i))
    && (forall l :: 0 <= l < |v| && !(blk <= l < blk + NrBlocks(length)) && Foreign(b, l) ==> v[l] == v0[l])
  }

  /** Logical block l does not belong to the file. */
  ghost predicate Foreign(b: FileMap, l: int) {
    forall x {:trigger BlockOf(b, x)} :: x in b ==> BlockOf(b, x) != l
  }

  // ---------- When it is what digest_file does ----------

  lemma {:induction false} CopiedByte(v: Contents, k: int, l: int, at: nat, n: nat, x: int, i: nat)
    requires Sized(v) && 0 <= k < |v| && 0 <= l < |v| && 0 <= x < |v| && at + n <= BLOCK && i < BLOCK
    ensures ByteOf(Copied(v, k, l, at, n), x, i) == if x == k
            && at <= i < at + n then ByteOf(v, l, i) else ByteOf(v, x, i)
  {
    var s, t := v[k], v[l][at..at + n];
    assert Splice(s, at, t)[i] == if at <= i < at + n then t[i - at] else s[i];
  }

  /** The last block, or the only one, copied in part. */
  lemma {:induction false} PartByte(v: Contents, b: FileMap, fb: nat, blk: nat, m: nat, at: nat, r: nat, x: nat, i: nat)
    requires Ground(v, b, fb, blk, m + 1) && at + r <= BLOCK && x in b && i < BLOCK
    ensures var w := Copied(Remapped(v, b, fb, blk, m), BlockOf(b, fb + m), blk + m, at, r);
            FileByte(w, b, x, i) == if fb <= x < fb + m || (x == fb + m && at <= i < at + r)
                                    then ByteOf(v, Slot(fb, blk, x), i) else FileByte(v, b, x, i)
  {
    var v1, k, l := Remapped(v, b, fb, blk, m), BlockOf(b, fb + m), blk + m;
    RemappedKeys(v, b, fb, blk, m);
    RemappedElse(v, b, fb, blk, m, l);
    RemappedElse(v, b, fb, blk, m, k);
    CopiedByte(v1, k, l, at, r, BlockOf(b, x), i);
    if fb <= x < fb + m {
      RemappedAt(v, b, fb, blk, m + 1, m, x);
      assert BlockOf(b, x) != k;
    } else if x != fb + m {
      RemappedElse(v, b, fb, blk, m, BlockOf(b, x));
      assert BlockOf(b, x) != k;
    }
  }

  /** All blocks exchanged. */
  lemma {:induction false} WholeByte(v: Contents, b: FileMap, fb: nat, blk: nat, n: nat, x: nat, i: nat)
    requires Ground(v, b, fb, blk, n) && x in b && i < BLOCK
    ensures FileByte(Remapped(v, b, fb, blk, n), b, x, i)
            == if fb <= x < fb + n then ByteOf(v, Slot(fb, blk, x), i) else FileByte(v, b, x, i)
  {
    if fb <= x < fb + n {
      RemappedAt(v, b, fb, blk, n, n, x);
    } else {
      RemappedElse(v, b, fb, blk, n, BlockOf(b, x));
    }
  }

  /** How many blocks the logged bytes lie in. */
  function Touched(offset: nat, length: nat): nat {
    if length == 0 then 1 else (offset + length - 1) / BLOCK - offset / BLOCK + 1
  }

  lemma {:induction false} TouchedNr(offset: nat, length: nat)
    ensures NrBlocks(length) <= Touched(offset, length)
    ensures OneBlockOrAligned(offset, length) ==> NrBlocks(length) == Touched(offset, length)
  {
  }

  /** A file map b that grew out of b0 by the blocks of the entry, on a device where the entry's
      log blocks belong to no file. */
  ghost predicate Setting(v: Contents, b0: FileMap, b: FileMap, offset: nat, length: nat, blk: nat) {
    && Sized(v) && OneToOne(b) && ApartFromLog(v, b, blk, Touched(offset, length))
    && Covers(b, offset / BLOCK, NrBlocks(length))
    && (forall x :: x in b0 ==> x in b && b[x] == b0[x])
    && (forall x :: x in b && x !in b0 ==> offset / BLOCK <= x < offset / BLOCK + NrBlocks(length))
  }

  /** Which bytes are logged: all of the entry's blocks, except that the last one, or the only one,
      may be logged from byte `at` on for r bytes only. */
  ghost predicate LoggedIn(offset: nat, length: nat, whole: bool, at: nat, r: nat) {
    forall x: nat, i: nat :: i < BLOCK ==>
      (Logged(offset, length, x, i) <==>
       var fb, last := offset / BLOCK, offset / BLOCK + NrBlocks(length) - 1;
       fb <= x <= last && (whole || x < last || at <= i < at + r))
  }

  /** The first n - 1 blocks exchanged, and the last one as well or copied in part. */
  ghost function Shape(v: Contents, b: FileMap, fb: nat, blk: nat, n: nat, whole: bool, at: nat, r: nat): Contents
    requires n > 0
  {
    if whole then Remapped(v, b, fb, blk, n)
    else Copied(Remapped(v, b, fb, blk, n - 1), BlockOf(b, fb + (n - 1)), blk + (n - 1), at, r)
  }

  lemma {:induction false} OutcomeShape(v: Contents, b: FileMap, offset: nat, length: nat,
                                        blk: nat) returns (whole: bool, at: nat, r: nat)
    requires OneBlockOrAligned(offset, length)
    ensures at + r <= BLOCK && LoggedIn(offset, length, whole, at, r)
    ensures Outcome(v, b, offset, length, blk) == Shape(v, b, offset / BLOCK, blk, NrBlocks(length), whole, at, r)
  {
    if HasHead(offset, length) {
      whole, at, r := false, offset % BLOCK, length;
    } else {
      whole := length % BLOCK == 0;
      at, r := 0, length % BLOCK;
    }
  }

  lemma {:induction false} ShapeByte(v: Contents, b: FileMap, fb: nat, blk: nat, n: nat, whole: bool, at: nat, r: nat,
                                     x: nat, i: nat)
    requires n > 0 && Ground(v, b, fb, blk, n) && at + r <= BLOCK && x in b && i < BLOCK
    ensures FileByte(Shape(v, b, fb, blk, n, whole, at, r), b, x, i)
            == if fb <= x < fb + n && (whole || x < fb + n - 1 || at <= i < at + r)
               then ByteOf(v, Slot(fb, blk, x), i) else FileByte(v, b, x, i)
  {
    if whole { WholeByte(v, b, fb, blk, n, x, i); } else { PartByte(v, b, fb, blk, n - 1, at, r, x, i); }
  }

  lemma {:induction false} ShapeElse(v: Contents, b: FileMap, fb: nat, blk: nat, n: nat, whole: bool, at: nat, r: nat,
                                     l: int)
    requires n > 0 && Ground(v, b, fb, blk, n) && 0 <= l < |v| && !(blk <= l < blk + n) && Foreign(b, l)
    ensures var w := Shape(v, b, fb, blk, n, whole, at, r); |w| == |v| && w[l] == v[l]
  {
    var m := if whole then n else n - 1;
    RemappedElse(v, b, fb, blk, m, l);
    assert BlockOf(b, fb + (n - 1)) != l;
  }

  lemma {:induction false} ShapeOverlays(v: Contents, b0: FileMap, b: FileMap, offset: nat, length: nat, blk: nat,
                                         whole: bool, at: nat, r: nat, w: Contents)
    requires Setting(v, b0, b, offset, length, blk) && Ground(v, b, offset / BLOCK, blk, NrBlocks(length))
    requires at + r <= BLOCK && LoggedIn(offset, length, whole, at, r)
    requires w == Shape(v, b, offset / BLOCK, blk, NrBlocks(length), whole, at, r)
    ensures Overlaid(v, b0, w, b, offset, length, blk)
  {
    var fb, n := offset / BLOCK, NrBlocks(length);
    RemappedKeys(v, b, fb, blk, if whole then n else n - 1);
    forall x: nat, i: nat | x in b && i < BLOCK
      ensures FileByte(w, b, x, i) == if Logged(offset, length, x, i) then ByteOf(v, Slot(fb, blk, x), i)
              else FileByte(v, b, x, i)
    {
      ShapeByte(v, b, fb, blk, n, whole, at, r, x, i);
    }
    forall l | 0 <= l < |w| && !(blk <= l < blk + n) && Foreign(b, l) ensures w[l] == v[l] {
      ShapeElse(v, b, fb, blk, n, whole, at, r, l);
    }
  }

  /** For an entry in one block, or one that starts at a block boundary, digest_file does what the
      entry says. */
  lemma {:induction false} DigestOverlays(v: Contents, b0: FileMap, b: FileMap, offset: nat, length: nat, blk: nat)
    requires Setting(v, b0, b, offset, length, blk) && OneBlockOrAligned(offset, length)
    ensures Overlaid(v, b0, Outcome(v, b, offset, length, blk), b, offset, length, blk)
  {
    TouchedNr(offset, length);
    var whole, at, r := OutcomeShape(v, b, offset, length, blk);
    ShapeOverlays(v, b0, b, offset, length, blk, whole, at, r, Outcome(v, b, offset, length, blk));
  }

  // ---------- ... and when it is not ----------

  lemma {:induction false} RunsByte(v: Contents, b: FileMap, fb: nat, blk: nat, total: nat, left: nat, x: nat, i: nat)
    requires Ground(v, b, fb, blk, total) && (total > 0 ==> (total - 1) * BLOCK < left) && x in b && i < BLOCK
    ensures FileByte(Runs(v, b, fb, blk, total, left), b, x, i) ==
            if fb <= x < fb + total && i < left - (x - fb) * BLOCK then ByteOf(v, Slot(fb, blk, x), i)
            else FileByte(v, b, x, i)
  {
    if total * BLOCK <= left {
      WholeByte(v, b, fb, blk, total, x, i);
    } else {
      PartByte(v, b, fb, blk, total - 1, 0, left - (total - 1) * BLOCK, x, i);
    }
  }

  lemma {:induction false} RunsFirst(v: Contents, b: FileMap, fb: nat, blk: nat, total: nat, left: nat)
    requires total > 0 && (total - 1) * BLOCK < left && Ground(v, b, fb, blk, total)
    ensures FileByte(Runs(v, b, fb, blk, total, left), b, fb, 0) == ByteOf(v, blk, 0)
  {
    RunsByte(v, b, fb, blk, total, left, fb, 0);
  }

  lemma {:induction false} HeadNumbers(offset: nat, length: nat, blk: nat)
    requires HasHead(offset, length)
    ensures var head, n := HeadLen(offset, length), NrBlocks(length) - 1;
            && head <= length && offset % BLOCK + head <= BLOCK && (blk * BLOCK + head) / BLOCK == blk
            && (n > 0 ==> (n - 1) * BLOCK < length - head)
  {
  }

  lemma {:induction false} HeadLogged(offset: nat, length: nat, x: nat, i: nat)
    requires HasHead(offset, length) && i < BLOCK
    ensures var fb, at, head := offset / BLOCK, offset % BLOCK, HeadLen(offset, length);
            && (x == fb ==> (Logged(offset, length, x, i) <==> at <= i < at + head))
            && (x > fb ==> (Logged(offset, length, x, i) <==> i < length - head - (x - fb - 1) * BLOCK))
  {
  }

  lemma {:induction false} CopiedGround(v: Contents, b: FileMap, fb: nat, blk: nat, n: nat, at: nat, head: nat)
    requires Ground(v, b, fb, blk, n + 1) && at + head <= BLOCK
    ensures Ground(Copied(v, BlockOf(b, fb), blk, at, head), b, fb + 1, blk, n)
  {
    assert fb in b;
  }

  /** Every byte after an entry that has a head, wherever it ends: what is logged of the first block always reaches the
      file; what is logged of the other planned blocks is taken from the log one block too early; the rest stays. */
  lemma {:induction false} HeadedByte(v: Contents, b: FileMap, offset: nat, length: nat, blk: nat, x: nat, i: nat)
    requires HasHead(offset, length) && Ground(v, b, offset / BLOCK, blk, NrBlocks(length)) && x in b && i < BLOCK
    ensures var fb := offset / BLOCK;
            FileByte(Outcome(v, b, offset, length, blk), b, x, i) ==
            if fb <= x < fb + NrBlocks(length) && Logged(offset, length, x, i)
            then ByteOf(v, if x == fb then blk else Slot(fb + 1, blk, x), i)
            else FileByte(v, b, x, i)
  {
    HeadNumbers(offset, length, blk);
    HeadLogged(offset, length, x, i);
    HeadThenRuns(v, b, offset / BLOCK, blk, NrBlocks(length) - 1, offset % BLOCK, HeadLen(offset, length),
                 length - HeadLen(offset, length), x, i);
  }

  lemma {:induction false} HeadThenRuns(v: Contents, b: FileMap, fb: nat, blk: nat, n: nat, at: nat, head: nat,
                                        left: nat, x: nat, i: nat)
    requires Ground(v, b, fb, blk, n + 1) && at + head <= BLOCK && x in b && i < BLOCK
    requires n > 0 ==> (n - 1) * BLOCK < left
    ensures FileByte(Runs(Copied(v, BlockOf(b, fb), blk, at, head), b, fb + 1, blk, n, left), b, x, i) ==
            if x == fb && at <= i < at + head then ByteOf(v, blk, i)
            else if fb < x < fb + n + 1 && i < left - (x - fb - 1) * BLOCK then ByteOf(v, Slot(fb + 1, blk, x), i)
            else FileByte(v, b, x, i)
  {
    var w := Copied(v, BlockOf(b, fb), blk, at, head);
    assert fb in b;
    assert x != fb ==> BlockOf(b, x) != BlockOf(b, fb);
    CopiedByte(v, BlockOf(b, fb), blk, at, head, BlockOf(b, x), i);
    if fb < x < fb + n + 1 {
      CopiedByte(v, BlockOf(b, fb), blk, at, head, Slot(fb + 1, blk, x), i);
    }
    CopiedGround(v, b, fb, blk, n, at, head);
    RunsByte(w, b, fb + 1, blk, n, left, x, i);
  }

  /** ... and no block outside the file and the entry's log blocks changes. */
  lemma {:induction false} HeadedElse(v: Contents, b: FileMap, offset: nat, length: nat, blk: nat, l: int)
    requires HasHead(offset, length) && Ground(v, b, offset / BLOCK, blk, NrBlocks(length))
    requires 0 <= l < |v| && !(blk <= l < blk + NrBlocks(length)) && Foreign(b, l)
    ensures var w := Outcome(v, b, offset, length, blk); |w| == |v| && w[l] == v[l]
  {
    var fb, at, head, n := offset / BLOCK, offset % BLOCK, HeadLen(offset, length), NrBlocks(length) - 1;
    HeadNumbers(offset, length, blk);
    var w := Copied(v, BlockOf(b, fb), blk, at, head);
    assert fb in b && BlockOf(b, fb) != l;
    CopiedGround(v, b, fb, blk, n, at, head);
    RemappedElse(w, b, fb + 1, blk, n, l);
    if n > 0 {
      RemappedElse(w, b, fb + 1, blk, n - 1, l);
      assert BlockOf(b, fb + 1 + (n - 1)) != l;
    }
  }

  /** 200 bytes at offset 4000: one block is planned, 96 bytes are copied, and the bytes from 4096 on
      never reach the file. */
  lemma {:induction false} TailLost(v: Contents, b: FileMap, blk: nat)
    requires Ground(v, b, 0, blk, 2)
    ensures NrBlocks(200) == 1 && HeadLen(4000, 200) == 96 && Logged(4000, 200, 1, 0)
    ensures FileByte(Outcome(v, b, 4000, 200, blk), b, 1, 0) == FileByte(v, b, 1, 0)
  {
    CopiedByte(v, BlockOf(b, 0), blk, 4000, 96, BlockOf(b, 1), 0);
  }

  function Filled(c: bv8): (s: Bytes)
    ensures |s| == BLOCK && s[0] == c
  {
    seq(BLOCK, _ => c)
  }

  /** An entry of at most a block that runs over the block's end: the second block is not even mapped. */
  lemma {:induction false} ShortMisses(offset: nat, length: nat) returns (v: Contents, b: FileMap)
    requires !OneBlockOrAligned(offset, length) && length <= BLOCK
    ensures Setting(v, map[], b, offset, length, 1) && !Overlaid(v, map[], Outcome(v, b, offset, length, 1), b, offset,
            length, 1)
  {
    var fb := offset / BLOCK;
    v, b := [Filled(0), Filled(0), Filled(0)], map[fb := 0];
    assert Logged(offset, length, fb + 1, 0) && fb + 1 !in b;
  }

  ghost function InOrder(fb: nat, n: nat): FileMap {
    map x | fb <= x < fb + n :: Slot(fb, 0, x)
  }

  /** 2 * n + 1 blocks, all of zeros except for block n. */
  ghost function Marked(n: nat): Contents {
    seq(2 * n + 1, l => if l == n then Filled(1) else Filled(0))
  }

  lemma {:induction false} MarkedFacts(n: nat)
    requires n > 0
    ensures |Marked(n)| == 2 * n + 1 && Sized(Marked(n)) && ByteOf(Marked(n), n, 0) == 1
            && ByteOf(Marked(n), n + 1, 0) == 0
  {
    assert forall l :: 0 <= l < |Marked(n)| ==> Marked(n)[l] == if l == n then Filled(1) else Filled(0);
  }

  lemma {:induction false} InOrderGround(v: Contents, fb: nat, n: nat, x: nat, k: nat)
    requires Sized(v) && |v| == 2 * n + 1 && fb <= x && x + k <= fb + n
    ensures Ground(v, InOrder(fb, n), x, n, k)
  {
  }

  lemma {:induction false} LongSetting(offset: nat, length: nat)
    requires !OneBlockOrAligned(offset, length) && length > BLOCK
    ensures Setting(Marked(NrBlocks(length)), map[], InOrder(offset / BLOCK, NrBlocks(length)), offset, length,
            NrBlocks(length))
    ensures NrBlocks(length) >= 2 && Logged(offset, length, offset / BLOCK + 1, 0)
  {
    MarkedFacts(NrBlocks(length));
    InOrderGround(Marked(NrBlocks(length)), offset / BLOCK, NrBlocks(length), offset / BLOCK, NrBlocks(length));
  }

  lemma {:induction false} LongHead(offset: nat, length: nat, n: nat)
    requires !OneBlockOrAligned(offset, length) && length > BLOCK && n == NrBlocks(length)
    ensures var head := HeadLen(offset, length);
            HasHead(offset, length) && offset % BLOCK + head == BLOCK && (n * BLOCK + head) / BLOCK == n
                && (n - 2) * BLOCK < length - head
  {
  }

  lemma {:induction false} LongByte(offset: nat, length: nat, fb: nat, n: nat, b: FileMap)
    requires !OneBlockOrAligned(offset, length) && length > BLOCK
    requires fb == offset / BLOCK && n == NrBlocks(length) >= 2 && b == InOrder(fb, n)
    ensures FileByte(Outcome(Marked(n), b, offset, length, n), b, fb + 1, 0) == 1
  {
    var v, head := Marked(n), HeadLen(offset, length);
    LongHead(offset, length, n);
    MarkedFacts(n);
    var v1 := Copied(v, BlockOf(b, fb), n, offset % BLOCK, head);
    assert BlockOf(b, fb) == 0 by { assert Slot(fb, 0, fb) == 0; }
    CopiedByte(v, 0, n, offset % BLOCK, head, n, 0);
    InOrderGround(v1, fb, n, fb + 1, n - 1);
    RunsFirst(v1, b, fb + 1, n, n - 1, length - head);
  }

  /** A longer one: its second block is taken from the first block's place in the log. */
  lemma {:induction false} LongMisses(offset: nat, length: nat) returns (v: Contents, b: FileMap, blk: nat)
    requires !OneBlockOrAligned(offset, length) && length > BLOCK
    ensures Setting(v, map[], b, offset, length, blk) && !Overlaid(v, map[], Outcome(v, b, offset, length, blk), b,
            offset, length, blk)
  {
    var fb, n := offset / BLOCK, NrBlocks(length);
    v, b, blk := Marked(n), InOrder(fb, n), n;
    LongSetting(offset, length);
    LongByte(offset, length, fb, n, b);
    MarkedFacts(n);
    assert ByteOf(v, Slot(fb, blk, fb + 1), 0) == 0;
  }

  /** Whatever the device and the file hold, the outcome is what the entry says. */
  ghost predicate AlwaysRight(offset: nat, length: nat) {
    forall v, b0, b, blk: nat :: Setting(v, b0, b, offset, length, blk) ==>
      Overlaid(v, b0, Outcome(v, b, offset, length, blk), b, offset, length, blk)
  }

  /** digest_file is right for exactly the entries that lie in one block or start at a block boundary. */
  lemma {:induction false} RightExactly(offset: nat, length: nat)
    ensures AlwaysRight(offset, length) <==> OneBlockOrAligned(offset, length)
  {
    if OneBlockOrAligned(offset, length) {
      forall v, b0, b, blk: nat | Setting(v, b0, b, offset, length, blk)
        ensures Overlaid(v, b0, Outcome(v, b, offset, length, blk), b, offset, length, blk)
      {
        DigestOverlays(v, b0, b, offset, length, blk);
      }
    } else if length <= BLOCK {
      var v, b := ShortMisses(offset, length);
      assert !AlwaysRight(offset, length);
    } else {
      var v, b, blk := LongMisses(offset, length);
      assert !AlwaysRight(offset, length);
    }
  }
}
