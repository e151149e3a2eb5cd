/** The two readings of a batch of log entries in kernfs/fs.c: one entry after the other, and
    through the replay list that merges the entries of one incarnation of an inode. */
module DigestLog {
  import opened BlockSize

  datatype Kind = File | Directory

  /** The dinode that an inode entry of the log carries. */
  datatype Snap = Snap(kind: Kind, size: nat)

  /** Logged bytes of a file or directory. */
  datatype Write = Write(off: nat, bytes: seq<int>)

  /** L_TYPE_INODE_CREATE, L_TYPE_INODE_UPDATE, L_TYPE_FILE or L_TYPE_DIR_*, L_TYPE_UNLINK. */
  datatype Entry =
    | Create(inum: int, snap: Snap)
    | Update(inum: int, snap: Snap)
    | Data(inum: int, w: Write)
    | Unlink(inum: int)

  /** A live inode: its type, size, and the bytes written to it. */
  datatype Inode = Inode(kind: Kind, size: nat, data: map<int, int>)

  /** What is known of one inode number; Crash is a failed assertion. */
  datatype State = Absent | Live(ino: Inode) | Crash

  function Max(a: nat, b: nat): nat {
    if a < b then b else a
  }

  function ByteAt(w: Write, o: int): int
    requires w.off <= o < w.off + |w.bytes|
  {
    w.bytes[o - w.off]
  }

  function BytesOf(w: Write): map<int, int> {
    map o | w.off <= o < w.off + |w.bytes| :: ByteAt(w, o)
  }

  /** The bytes left when the blocks from the end of a file of `size` bytes up to the old last
      block go. */
  function Cut(data: map<int, int>, size: nat, oldSize: nat): map<int, int> {
    var start := size / BLOCK + (if size % BLOCK != 0 then 1 else 0);
    map o | o in data && !(start * BLOCK <= o < (oldSize / BLOCK + 1) * BLOCK) :: data[o]
  }

  /** digest_inode */
  function DigestInode(st: State, s: Snap): State {
    match st
    case Crash => Crash
    case Absent => Live(Inode(s.kind, s.size, map[]))
    case Live(i) =>
      var data := if i.kind == File && s.size < i.size then Cut(i.data, s.size, i.size) else i.data;
      Live(Inode(i.kind, s.size, data))
  }

  /** digest_file, seen from the file: overlay the bytes and extend the size. */
  function DigestData(st: State, w: Write): State {
    match st
    case Live(i) => Live(Inode(i.kind, Max(i.size, w.off + |w.bytes|), i.data + BytesOf(w)))
    case _ => Crash
  }

  /** digest_unlink */
  function DigestUnlink(st: State): State {
    if st == Crash then Crash else Absent
  }

  function DigestEntry(st: State, e: Entry): State {
    match e
    case Create(_, s) => DigestInode(st, s)
    case Update(_, s) => DigestInode(st, s)
    case Data(_, w) => DigestData(st, w)
    case Unlink(_) => DigestUnlink(st)
  }

  // ---------- All inodes ----------

  /** The live inodes, or nothing once an assertion has failed. */
  datatype Outcome = Panic | Run(files: map<int, Inode>)

  function Get(files: map<int, Inode>, n: int): State {
    if n in files then Live(files[n]) else Absent
  }

  function Put(files: map<int, Inode>, n: int, st: State): Outcome {
    match st
    case Crash => Panic
    case Absent => Run(files - {n})
    case Live(i) => Run(files[n := i])
  }

  function Step(o: Outcome, e: Entry): Outcome {
    match o
    case Panic => Panic
    case Run(files) => Put(files, e.inum, DigestEntry(Get(files, e.inum), e))
  }

  /** digest_each_log_entries */
  function StepAll(o: Outcome, log: seq<Entry>): Outcome {
    if log == [] then o else Step(StepAll(o, log[..|log| - 1]), log[|log| - 1])
  }

  function Digest(log: seq<Entry>, files: map<int, Inode>): Outcome {
    StepAll(Run(files), log)
  }

  // ---------- The replay list ----------

  const VERSIONS: nat := 0x1_0000

  datatype Key = Key(inum: int, ver: nat)

  datatype Item =
    | I(key: Key, create: bool, snap: Snap)
    | F(key: Key, iovs: seq<Write>)
    | U(key: Key)

  /** The list and inode_version_table, whose entries are 16 bits wide. */
  datatype Replay = Replay(items: seq<Item>, versions: map<int, nat>)

  function Version(r: Replay, n: int): nat {
    if n in r.versions then r.versions[n] else 0
  }

  /** The first item of the wanted sort with this key gets the newer snapshot; if there is none, a
      new item goes to the end. */
  function AddI(items: seq<Item>, key: Key, create: bool, s: Snap): seq<Item> {
    if items == [] then [I(key, create, s)]
    else match items[0]
      case I(k, c, s0) =>
        if k == key then [I(key, c, s)] + items[1..] else [I(k, c, s0)] + AddI(items[1..], key, create, s)
      case F(k, ws) => [F(k, ws)] + AddI(items[1..], key, create, s)
      case U(k) => [U(k)] + AddI(items[1..], key, create, s)
  }

  function AddF(items: seq<Item>, key: Key, w: Write): seq<Item> {
    if items == [] then [F(key, [w])]
    else match items[0]
      case I(k, c, s0) => [I(k, c, s0)] + AddF(items[1..], key, w)
      case F(k, ws) => if k == key then [F(key, ws + [w])] + items[1..] else [F(k, ws)] + AddF(items[1..], key, w)
      case U(k) => [U(k)] + AddF(items[1..], key, w)
  }

  function DelI(items: seq<Item>, key: Key): seq<Item> {
    if items == [] then []
    else if items[0].I? && items[0].key == key then items[1..]
    else [items[0]] + DelI(items[1..], key)
  }

  function DelF(items: seq<Item>, key: Key): seq<Item> {
    if items == [] then []
    else if items[0].F? && items[0].key == key then items[1..]
    else [items[0]] + DelF(items[1..], key)
  }

  /** Whether the inode item with this key began with a creation. */
  predicate Created(items: seq<Item>, key: Key) {
    items != [] && (if items[0].I? && items[0].key == key then items[0].create else Created(items[1..], key))
  }

  function DropKey(items: seq<Item>, key: Key): seq<Item> {
    DelF(if Created(items, key) then DelI(items, key) else items + [U(key)], key)
  }

  /** One turn of the loop in digest_replay_and_optimize. */
  function Add(r: Replay, e: Entry): Replay {
    var v := Version(r, e.inum);
    match e
    case Create(n, s) =>
      var v' := (v + 1) % VERSIONS;
      Replay(AddI(r.items, Key(n, v'), true, s), r.versions[n := v'])
    case Update(n, s) => Replay(AddI(r.items, Key(n, v), false, s), r.versions)
    case Data(n, w) => Replay(AddF(r.items, Key(n, v), w), r.versions)
    case Unlink(n) => Replay(DropKey(r.items, Key(n, v)), r.versions)
  }

  /** digest_replay_and_optimize */
  function AddAll(r: Replay, log: seq<Entry>): Replay {
    if log == [] then r else Add(AddAll(r, log[..|log| - 1]), log[|log| - 1])
  }

  function Coalesce(log: seq<Entry>, versions: map<int, nat>): Replay {
    AddAll(Replay([], versions), log)
  }

  function DigestAll(st: State, ws: seq<Write>): State {
    if ws == [] then st else DigestData(DigestAll(st, ws[..|ws| - 1]), ws[|ws| - 1])
  }

  function DigestItem(st: State, it: Item): State {
    match it
    case I(_, _, s) => DigestInode(st, s)
    case F(_, ws) => DigestAll(st, ws)
    case U(_) => DigestUnlink(st)
  }

  function StepItem(o: Outcome, it: Item): Outcome {
    match o
    case Panic => Panic
    case Run(files) => Put(files, it.key.inum, DigestItem(Get(files, it.key.inum), it))
  }

  /** digest_log_from_replay_list */
  function ApplyAll(o: Outcome, items: seq<Item>): Outcome {
    if items == [] then o else StepItem(ApplyAll(o, items[..|items| - 1]), items[|items| - 1])
  }

  function Apply(items: seq<Item>, files: map<int, Inode>): Outcome {
    ApplyAll(Run(files), items)
  }
}
