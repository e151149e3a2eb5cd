/** When the coalesced digest does the same as the entry-by-entry one. */
module DigestReplay {
  import opened DigestLog

  // ---------- The part of a replay list that concerns one inode ----------

  function Of(items: seq<Item>, n: int): seq<Item> {
    if items == [] then []
    else if items[0].key.inum == n then [items[0]] + Of(items[1..], n)
    else Of(items[1..], n)
  }

  lemma {:induction false} OfConcat(a: seq<Item>, b: seq<Item>, n: int)
    ensures Of(a + b, n) == Of(a, n) + Of(b, n)
  {
    if a == [] {
      assert a + b == b;
    } else {
      assert (a + b)[1..] == a[1..] + b;
      OfConcat(a[1..], b, n);
    }
  }

  lemma {:induction false} OfHead(x: Item, items: seq<Item>, n: int)
    ensures Of([x] + items, n) == if x.key.inum == n then [x] + Of(items, n) else Of(items, n)
  {
    assert ([x] + items)[1..] == items;
  }

  lemma {:induction false} OfAddI(items: seq<Item>, key: Key, c: bool, s: Snap, n: int)
    ensures Of(AddI(items, key, c, s), n) == if key.inum == n then AddI(Of(items, n), key, c, s) else Of(items, n)
  {
    if items == [] {
      OfHead(I(key, c, s), [], n);
    } else {
      OfAddI(items[1..], key, c, s, n);
      var x := items[0];
      OfHead(x, AddI(items[1..], key, c, s), n);
      if x.I? && x.key == key { OfHead(I(key, x.create, s), items[1..], n); }
      assert x.key.inum == n ==> ([x] + Of(items[1..], n))[1..] == Of(items[1..], n);
    }
  }

  lemma {:induction false} OfAddF(items: seq<Item>, key: Key, w: Write, n: int)
    ensures Of(AddF(items, key, w), n) == if key.inum == n then AddF(Of(items, n), key, w) else Of(items, n)
  {
    if items == [] {
      OfHead(F(key, [w]), [], n);
    } else {
      OfAddF(items[1..], key, w, n);
      var x := items[0];
      OfHead(x, AddF(items[1..], key, w), n);
      if x.F? && x.key == key { OfHead(F(key, x.iovs + [w]), items[1..], n); }
      assert x.key.inum == n ==> ([x] + Of(items[1..], n))[1..] == Of(items[1..], n);
    }
  }

  lemma {:induction false} OfDelI(items: seq<Item>, key: Key, n: int)
    ensures Of(DelI(items, key), n) == if key.inum == n then DelI(Of(items, n), key) else Of(items, n)
  {
    if items != [] {
      OfDelI(items[1..], key, n);
      var x := items[0];
      OfHead(x, DelI(items[1..], key), n);
      assert x.key.inum == n ==> ([x] + Of(items[1..], n))[1..] == Of(items[1..], n);
    }
  }

  lemma {:induction false} OfDelF(items: seq<Item>, key: Key, n: int)
    ensures Of(DelF(items, key), n) == if key.inum == n then DelF(Of(items, n), key) else Of(items, n)
  {
    if items != [] {
      OfDelF(items[1..], key, n);
      var x := items[0];
      OfHead(x, DelF(items[1..], key), n);
      assert x.key.inum == n ==> ([x] + Of(items[1..], n))[1..] == Of(items[1..], n);
    }
  }

  lemma {:induction false} OfCreated(items: seq<Item>, key: Key)
    ensures Created(items, key) == Created(Of(items, key.inum), key)
  {
    if items != [] {
      OfCreated(items[1..], key);
      var x := items[0];
      assert x.key.inum == key.inum ==> ([x] + Of(items[1..], key.inum))[1..] == Of(items[1..], key.inum);
    }
  }

  /** Every entry works on its own inode's part of the list, and only there. */
  lemma {:induction false} OfAdd(r: Replay, e: Entry, n: int)
    ensures var o := Of(r.items, n);
            Of(Add(r, e).items, n) == if e.inum == n then Add(Replay(o, r.versions), e).items else o
    ensures Version(Add(r, e), n) == if e.Create? && e.inum == n then (Version(r, n) + 1) % VERSIONS else Version(r, n)
  {
    var v := Version(r, e.inum);
    match e
    case Create(m, s) => OfAddI(r.items, Key(m, (v + 1) % VERSIONS), true, s, n);
    case Update(m, s) => OfAddI(r.items, Key(m, v), false, s, n);
    case Data(m, w) => OfAddF(r.items, Key(m, v), w, n);
    case Unlink(m) =>
      var key := Key(m, v);
      OfCreated(r.items, key);
      OfDelI(r.items, key, n);
      OfConcat(r.items, [U(key)], n);
      OfHead(U(key), [], n);
      assert [U(key)] + [] == [U(key)] && Of(r.items, n) + [] == Of(r.items, n);
      OfDelF(if Created(r.items, key) then DelI(r.items, key) else r.items + [U(key)], key, n);
  }

  // ---------- Applying the list, inode by inode ----------

  function ApplyOne(o: seq<Item>, st: State): State {
    if o == [] then st else DigestItem(ApplyOne(o[..|o| - 1], st), o[|o| - 1])
  }

  lemma {:induction false} OfSnoc(items: seq<Item>, n: int)
    requires items != []
    ensures var x := items[|items| - 1];
            Of(items, n) == Of(items[..|items| - 1], n) + if x.key.inum == n then [x] else []
  {
    var x := items[|items| - 1];
    assert items == items[..|items| - 1] + [x];
    OfConcat(items[..|items| - 1], [x], n);
    OfHead(x, [], n);
    assert [x] + [] == [x];
  }

  lemma {:induction false} ApplyOneSnoc(o: seq<Item>, x: Item, st: State)
    ensures ApplyOne(o + [x], st) == DigestItem(ApplyOne(o, st), x)
  {
    assert (o + [x])[..|o|] == o;
  }

  lemma {:induction false} CrashStays(ws: seq<Write>)
    ensures DigestAll(Crash, ws) == Crash
  {
    if ws != [] { CrashStays(ws[..|ws| - 1]); }
  }

  /** What inode n's own part of the list makes of it. */
  function Part(items: seq<Item>, files: map<int, Inode>, n: int): State {
    ApplyOne(Of(items, n), Get(files, n))
  }

  lemma {:induction false} PartSnoc(items: seq<Item>, files: map<int, Inode>, n: int)
    requires items != [] && Part(items, files, n) != Crash
    ensures var x, rest := items[|items| - 1], items[..|items| - 1];
            && Part(rest, files, n) != Crash
            && Part(items, files, n) == if x.key.inum == n then DigestItem(Part(rest, files, n), x)
                else Part(rest, files, n)
  {
    var x, rest := items[|items| - 1], items[..|items| - 1];
    OfSnoc(items, n);
    if x.key.inum == n {
      ApplyOneSnoc(Of(rest, n), x, Get(files, n));
      if x.F? { CrashStays(x.iovs); }
    } else {
      assert Of(rest, n) + [] == Of(rest, n);
    }
  }

  lemma {:induction false} ApplySnoc(items: seq<Item>, rest: seq<Item>, files: map<int, Inode>, n: int)
    requires items != [] && rest == items[..|items| - 1] && Apply(rest, files).Run?
    requires forall m :: Part(items, files, m) != Crash
    requires forall m :: Get(Apply(rest, files).files, m) == Part(rest, files, m)
    ensures Apply(items, files).Run? && Get(Apply(items, files).files, n) == Part(items, files, n)
  {
    PartSnoc(items, files, n);
    PartSnoc(items, files, items[|items| - 1].key.inum);
  }

  /** If no inode's own part crashes, the whole list runs, and does to every inode what its part does. */
  lemma {:induction false} ApplyByInode(items: seq<Item>, files: map<int, Inode>)
    requires forall n :: Part(items, files, n) != Crash
    ensures Apply(items, files).Run?
    ensures forall n :: Get(Apply(items, files).files, n) == Part(items, files, n)
  {
    if items != [] {
      var rest := items[..|items| - 1];
      forall n ensures Part(rest, files, n) != Crash { PartSnoc(items, files, n); }
      ApplyByInode(rest, files);
      ApplySnoc(items, rest, files, 0);
      forall n ensures Get(Apply(items, files).files, n) == Part(items, files, n) { ApplySnoc(items, rest, files, n); }
    }
  }

  // ---------- Which batches are meant ----------

  /** Number of creations of inode n. */
  function Creates(log: seq<Entry>, n: int): nat {
    if log == [] then 0
    else Creates(log[..|log| - 1], n) + if log[|log| - 1].Create? && log[|log| - 1].inum == n then 1 else 0
  }

  /** Whether inode n was unlinked. */
  predicate Unlinked(log: seq<Entry>, n: int) {
    Unlink(n) in log
  }

  /** An entry that the file system can have logged in this state: creations hit absent inodes,
      snapshots keep the type and never shrink, only live inodes are written, and after an unlink
      comes a creation. */
  predicate EntryOk(e: Entry, st: State, unlinked: bool) {
    match e
    case Create(_, _) => st == Absent
    case Update(_, s) => (st == Absent && !unlinked) || (st.Live? && s.kind == st.ino.kind && st.ino.size <= s.size)
    case Data(_, _) => st.Live?
    case Unlink(_) => st.Live? || (st == Absent && !unlinked)
  }

  predicate BatchOk(log: seq<Entry>, files: map<int, Inode>) {
    log == [] ||
    var rest, e := log[..|log| - 1], log[|log| - 1];
    && BatchOk(rest, files)
    && Digest(rest, files).Run?
    && EntryOk(e, Get(Digest(rest, files).files, e.inum), Unlinked(rest, e.inum))
    && Creates(log, e.inum) < VERSIONS
  }

  // ---------- What the list holds for one inode ----------

  /** An incarnation that was there before the batch's first creation and is unlinked leaves an
      unlink item, after its inode item if it had one. */
  datatype Past = Open | Gone | GoneAfter(snap: Snap)

  /** The items of the current incarnation, in list order. */
  datatype Now =
    | Nothing
    | OnlyI(create: bool, snap: Snap)
    | OnlyF(ws: seq<Write>)
    | ThenF(create: bool, snap: Snap, ws: seq<Write>)
    | ThenI(ws: seq<Write>, snap: Snap)

  datatype Sum = Sum(past: Past, now: Now)

  function NowSnap(now: Now, s: Snap): Now {
    match now
    case Nothing => OnlyI(false, s)
    case OnlyI(c, _) => OnlyI(c, s)
    case OnlyF(ws) => ThenI(ws, s)
    case ThenF(c, _, ws) => ThenF(c, s, ws)
    case ThenI(ws, _) => ThenI(ws, s)
  }

  function NowWrite(now: Now, w: Write): Now {
    match now
    case Nothing => OnlyF([w])
    case OnlyI(c, s) => ThenF(c, s, [w])
    case OnlyF(ws) => OnlyF(ws + [w])
    case ThenF(c, s, ws) => ThenF(c, s, ws + [w])
    case ThenI(ws, s) => ThenI(ws + [w], s)
  }

  function AfterUnlink(s: Sum): Sum {
    match s.now
    case Nothing => Sum(Gone, Nothing)
    case OnlyI(c, sn) => Sum(if c then s.past else GoneAfter(sn), Nothing)
    case OnlyF(_) => Sum(Gone, Nothing)
    case ThenF(c, sn, _) => Sum(if c then s.past else GoneAfter(sn), Nothing)
    case ThenI(_, sn) => Sum(GoneAfter(sn), Nothing)
  }

  function SumStep(s: Sum, e: Entry): Sum {
    match e
    case Create(_, sn) => Sum(s.past, OnlyI(true, sn))
    case Update(_, sn) => Sum(s.past, NowSnap(s.now, sn))
    case Data(_, w) => Sum(s.past, NowWrite(s.now, w))
    case Unlink(_) => AfterUnlink(s)
  }

  function Summary(log: seq<Entry>, n: int): Sum {
    if log == [] then Sum(Open, Nothing)
    else var e, s := log[|log| - 1], Summary(log[..|log| - 1], n);
      if e.inum == n then SumStep(s, e) else s
  }

  function PastItems(p: Past, k0: Key): seq<Item> {
    match p
    case Open => []
    case Gone => [U(k0)]
    case GoneAfter(s) => [I(k0, false, s), U(k0)]
  }

  function NowItems(now: Now, k: Key): seq<Item> {
    match now
    case Nothing => []
    case OnlyI(c, s) => [I(k, c, s)]
    case OnlyF(ws) => [F(k, ws)]
    case ThenF(c, s, ws) => [I(k, c, s), F(k, ws)]
    case ThenI(ws, s) => [F(k, ws), I(k, false, s)]
  }

  // ---------- The state of one inode, from the summary ----------

  function MaxEnd(ws: seq<Write>): nat {
    if ws == [] then 0 else Max(MaxEnd(ws[..|ws| - 1]), ws[|ws| - 1].off + |ws[|ws| - 1].bytes|)
  }

  function Overlay(data: map<int, int>, ws: seq<Write>): map<int, int> {
    if ws == [] then data else Overlay(data, ws[..|ws| - 1]) + BytesOf(ws[|ws| - 1])
  }

  /** The inode as the current incarnation found it. */
  function Found(s: Sum, creates: nat, st0: State): State {
    if s.past == Open && creates == 0 then st0 else Absent
  }

  function SizeOf(st: State): nat {
    if st.Live? then st.ino.size else 0
  }

  function DataOf(st: State): map<int, int> {
    if st.Live? then st.ino.data else map[]
  }

  function KindOf(st: State, s: Snap): Kind {
    if st.Live? then st.ino.kind else s.kind
  }

  /** The state that the entries of the incarnation lead to from state b. */
  function Meant(now: Now, b: State): State {
    match now
    case Nothing => b
    case OnlyI(_, s) => Live(Inode(KindOf(b, s), s.size, DataOf(b)))
    case OnlyF(ws) => if b.Live? then Live(Inode(b.ino.kind, Max(b.ino.size, MaxEnd(ws)), Overlay(b.ino.data, ws)))
        else Crash
    case ThenF(_, s, ws) => Live(Inode(KindOf(b, s), Max(s.size, MaxEnd(ws)), Overlay(DataOf(b), ws)))
    case ThenI(ws, s) => Live(Inode(KindOf(b, s), Max(s.size, MaxEnd(ws)), Overlay(DataOf(b), ws)))
  }

  /** What the batch's conditions guarantee: creations start from nothing, writes from a live
      inode, and the last snapshot is at least the size that was found. */
  predicate Sound(now: Now, b: State) {
    match now
    case Nothing => true
    case OnlyI(c, s) => (c ==> b == Absent) && b != Crash && SizeOf(b) <= s.size
    case OnlyF(_) => b.Live?
    case ThenF(c, s, _) => (c ==> b == Absent) && b != Crash && SizeOf(b) <= s.size
    case ThenI(_, s) => b.Live? && b.ino.size <= s.size
  }

  predicate Meaning(now: Now, b: State, st: State) {
    Sound(now, b) && st == Meant(now, b)
  }

  // ---------- Looking past items with other keys ----------

  predicate NoI(a: seq<Item>, key: Key) {
    forall i :: 0 <= i < |a| ==> !(a[i].I? && a[i].key == key)
  }

  predicate NoF(a: seq<Item>, key: Key) {
    forall i :: 0 <= i < |a| ==> !(a[i].F? && a[i].key == key)
  }

  lemma {:induction false} SkipAddI(a: seq<Item>, b: seq<Item>, key: Key, c: bool, s: Snap)
    requires NoI(a, key)
    ensures AddI(a + b, key, c, s) == a + AddI(b, key, c, s)
  {
    if a == [] {
      assert a + b == b;
    } else {
      assert (a + b)[1..] == a[1..] + b;
      SkipAddI(a[1..], b, key, c, s);
    }
  }

  lemma {:induction false} SkipAddF(a: seq<Item>, b: seq<Item>, key: Key, w: Write)
    requires NoF(a, key)
    ensures AddF(a + b, key, w) == a + AddF(b, key, w)
  {
    if a == [] {
      assert a + b == b;
    } else {
      assert (a + b)[1..] == a[1..] + b;
      SkipAddF(a[1..], b, key, w);
    }
  }

  lemma {:induction false} SkipDelI(a: seq<Item>, b: seq<Item>, key: Key)
    requires NoI(a, key)
    ensures DelI(a + b, key) == a + DelI(b, key) && Created(a + b, key) == Created(b, key)
  {
    if a == [] {
      assert a + b == b;
    } else {
      assert (a + b)[1..] == a[1..] + b;
      SkipDelI(a[1..], b, key);
    }
  }

  lemma {:induction false} SkipDelF(a: seq<Item>, b: seq<Item>, key: Key)
    requires NoF(a, key)
    ensures DelF(a + b, key) == a + DelF(b, key)
  {
    if a == [] {
      assert a + b == b;
    } else {
      assert (a + b)[1..] == a[1..] + b;
      SkipDelF(a[1..], b, key);
    }
  }

  lemma {:induction false} SkipDrop(a: seq<Item>, b: seq<Item>, key: Key)
    requires forall i :: 0 <= i < |a| ==> a[i].key != key
    ensures DropKey(a + b, key) == a + DropKey(b, key)
  {
    SkipDelI(a, b, key);
    assert a + b + [U(key)] == a + (b + [U(key)]);
    SkipDelF(a, if Created(b, key) then DelI(b, key) else b + [U(key)], key);
  }

  /** The items of one incarnation under each sort of entry. */
  lemma {:induction false} NowAddI(now: Now, k: Key, s: Snap)
    ensures AddI(NowItems(now, k), k, false, s) == NowItems(NowSnap(now, s), k)
  {
    match now
    case Nothing =>
    case OnlyI(_, _) =>
    case OnlyF(ws) => assert [F(k, ws)][1..] == [];
    case ThenF(c, s0, ws) => assert [I(k, c, s0), F(k, ws)][1..] == [F(k, ws)];
    case ThenI(ws, s0) => assert [F(k, ws), I(k, false, s0)][1..] == [I(k, false, s0)];
  }

  lemma {:induction false} NowAddF(now: Now, k: Key, w: Write)
    ensures AddF(NowItems(now, k), k, w) == NowItems(NowWrite(now, w), k)
  {
    match now
    case Nothing =>
    case OnlyI(c, s) => assert [I(k, c, s)][1..] == [];
    case OnlyF(ws) =>
    case ThenF(c, s, ws) => assert [I(k, c, s), F(k, ws)][1..] == [F(k, ws)];
    case ThenI(ws, s) =>
  }

  lemma {:induction false} NowDrop(now: Now, k: Key)
    ensures DropKey(NowItems(now, k), k)
         == match now
            case Nothing => [U(k)]
            case OnlyI(c, s) => if c then [] else [I(k, false, s), U(k)]
            case OnlyF(_) => [U(k)]
            case ThenF(c, s, _) => if c then [] else [I(k, false, s), U(k)]
            case ThenI(_, s) => [I(k, false, s), U(k)]
  {
    var u := [U(k)];
    assert u == [U(k)] + [];
    DelHead(U(k), [], k);
    match now
    case Nothing => assert [] + u == u;
    case OnlyI(c, s) =>
      assert [I(k, c, s)][1..] == [] && [I(k, c, s)] + u == [I(k, c, s), U(k)];
      DelHead(I(k, c, s), u, k);
    case OnlyF(ws) =>
      assert [F(k, ws)][1..] == [];
      DelHead(F(k, ws), u, k);
    case ThenF(c, s, ws) =>
      var f := [F(k, ws)];
      assert [I(k, c, s), F(k, ws)] == [I(k, c, s)] + f && [I(k, c, s)] + f + u == [I(k, c, s)] + (f + u);
      DelHead(I(k, c, s), f, k);
      DelHead(F(k, ws), [], k);
      assert f == [F(k, ws)] + [];
      DelHead(F(k, ws), u, k);
      DelHead(I(k, c, s), f + u, k);
    case ThenI(ws, s) =>
      var i := [I(k, false, s)];
      assert [F(k, ws), I(k, false, s)] == [F(k, ws)] + i && [F(k, ws)] + i + u == [F(k, ws)] + (i + u);
      DelHead(F(k, ws), i, k);
      assert i == [I(k, false, s)] + [];
      DelHead(I(k, false, s), [], k);
      DelHead(F(k, ws), i + u, k);
  }

  lemma {:induction false} DelHead(x: Item, rest: seq<Item>, key: Key)
    ensures DelF([x] + rest, key) == if x.F? && x.key == key then rest else [x] + DelF(rest, key)
    ensures DelI([x] + rest, key) == if x.I? && x.key == key then rest else [x] + DelI(rest, key)
    ensures Created([x] + rest, key) == if x.I? && x.key == key then x.create else Created(rest, key)
  {
    assert ([x] + rest)[1..] == rest;
  }

  // ---------- The invariant of the coalescing loop ----------

  /** After `creates` creations the incarnation's items say whether it was created in the batch. */
  predicate Consistent(s: Sum, creates: nat, st0: State) {
    && st0 != Crash
    && (s.past != Open && creates == 0 ==> s.now == Nothing)
    && (s.past == Open && creates > 0 ==> st0 == Absent)
    && match s.now
       case Nothing => true
       case OnlyI(c, _) => c == (creates > 0)
       case OnlyF(_) => creates == 0
       case ThenF(c, _, _) => c == (creates > 0)
       case ThenI(_, _) => creates == 0
  }

  /** What holds of inode n after a prefix of the log. */
  predicate Shape(s: Sum, creates: nat, unlinked: bool, n: int, v0: nat, v: nat, o: seq<Item>, st0: State, st: State) {
    && creates < VERSIONS && v == (v0 + creates) % VERSIONS && v0 < VERSIONS
    && o == PastItems(s.past, Key(n, v0)) + NowItems(s.now, Key(n, v))
    && Consistent(s, creates, st0)
    && Meaning(s.now, Found(s, creates, st0), st)
    && (s.now == Nothing && (s.past != Open || creates > 0) ==> unlinked)
  }

  lemma {:induction false} PastKeys(p: Past, k0: Key, key: Key)
    requires p == Open || k0 != key
    ensures forall i :: 0 <= i < |PastItems(p, k0)| ==> PastItems(p, k0)[i].key != key
  {
  }

  lemma {:induction false} OverlaySnoc(data: map<int, int>, ws: seq<Write>, w: Write)
    ensures Overlay(data, ws + [w]) == Overlay(data, ws) + BytesOf(w)
            && MaxEnd(ws + [w]) == Max(MaxEnd(ws), w.off + |w.bytes|)
  {
    assert (ws + [w])[..|ws|] == ws;
  }

  lemma {:induction false} ShapeCreate(s: Sum, cr: nat, unl: bool, n: int, v0: nat, v: nat, o: seq<Item>, st0: State,
                                       st: State, sn: Snap)
    requires Shape(s, cr, unl, n, v0, v, o, st0, st) && st == Absent && cr + 1 < VERSIONS
    ensures var v' := (v + 1) % VERSIONS;
            Shape(SumStep(s, Create(n, sn)), cr + 1, unl, n, v0, v', AddI(o, Key(n, v'), true, sn), st0,
                DigestInode(st, sn))
  {
    var v' := (v + 1) % VERSIONS;
    assert s.now == Nothing;
    PastKeys(s.past, Key(n, v0), Key(n, v'));
    SkipAddI(PastItems(s.past, Key(n, v0)), [], Key(n, v'), true, sn);
  }

  lemma {:induction false} Apart(s: Sum, cr: nat, unl: bool, n: int, v0: nat, v: nat, o: seq<Item>, st0: State,
                                 st: State)
    requires Shape(s, cr, unl, n, v0, v, o, st0, st) && (s.past == Open || cr > 0)
    ensures forall i :: 0 <= i < |PastItems(s.past, Key(n, v0))| ==> PastItems(s.past, Key(n, v0))[i].key != Key(n, v)
  {
    PastKeys(s.past, Key(n, v0), Key(n, v));
  }

  lemma {:induction false} UpdateMeaning(now: Now, b: State, st: State, sn: Snap)
    requires Meaning(now, b, st) && b != Crash && st != Crash
    requires st.Live? ==> sn.kind == st.ino.kind && st.ino.size <= sn.size
    ensures Meaning(NowSnap(now, sn), b, DigestInode(st, sn))
  {
    match now
    case Nothing =>
    case OnlyI(_, _) =>
    case OnlyF(_) =>
    case ThenF(_, _, _) =>
    case ThenI(_, _) =>
  }

  lemma {:induction false} ShapeUpdate(s: Sum, cr: nat, unl: bool, n: int, v0: nat, v: nat, o: seq<Item>, st0: State,
                                       st: State, sn: Snap)
    requires Shape(s, cr, unl, n, v0, v, o, st0, st) && EntryOk(Update(n, sn), st, unl)
    ensures Shape(SumStep(s, Update(n, sn)), cr, unl, n, v0, v, AddI(o, Key(n, v), false, sn), st0, DigestInode(st, sn))
  {
    Apart(s, cr, unl, n, v0, v, o, st0, st);
    SkipAddI(PastItems(s.past, Key(n, v0)), NowItems(s.now, Key(n, v)), Key(n, v), false, sn);
    NowAddI(s.now, Key(n, v), sn);
    UpdateMeaning(s.now, Found(s, cr, st0), st, sn);
  }

  lemma {:induction false} DataMeaning(now: Now, b: State, st: State, w: Write)
    requires Meaning(now, b, st) && st.Live?
    ensures Meaning(NowWrite(now, w), b, DigestData(st, w))
  {
    MeantWrite(now, b, w);
  }

  lemma {:induction false} MeantWrite(now: Now, b: State, w: Write)
    requires Sound(now, b) && (now == Nothing ==> b.Live?)
    ensures Meant(NowWrite(now, w), b) == DigestData(Meant(now, b), w)
  {
    match now
    case Nothing => WriteMore(b.ino, [], w);
    case OnlyI(_, s) => WriteMore(Inode(KindOf(b, s), s.size, DataOf(b)), [], w);
    case OnlyF(ws) => WriteMore(b.ino, ws, w);
    case ThenF(_, s, ws) => WriteMore(Inode(KindOf(b, s), s.size, DataOf(b)), ws, w);
    case ThenI(ws, s) => WriteMore(Inode(KindOf(b, s), s.size, DataOf(b)), ws, w);
  }

  lemma {:induction false} WriteMore(i: Inode, ws: seq<Write>, w: Write)
    ensures DigestData(Live(Inode(i.kind, Max(i.size, MaxEnd(ws)), Overlay(i.data, ws))), w)
         == Live(Inode(i.kind, Max(i.size, MaxEnd(ws + [w])), Overlay(i.data, ws + [w])))
    ensures [] + [w] == [w]
  {
    OverlaySnoc(i.data, ws, w);
  }

  lemma {:induction false} ShapeData(s: Sum, cr: nat, unl: bool, n: int, v0: nat, v: nat, o: seq<Item>, st0: State,
                                     st: State, w: Write)
    requires Shape(s, cr, unl, n, v0, v, o, st0, st) && st.Live?
    ensures Shape(SumStep(s, Data(n, w)), cr, unl, n, v0, v, AddF(o, Key(n, v), w), st0, DigestData(st, w))
  {
    Apart(s, cr, unl, n, v0, v, o, st0, st);
    SkipAddF(PastItems(s.past, Key(n, v0)), NowItems(s.now, Key(n, v)), Key(n, v), w);
    NowAddF(s.now, Key(n, v), w);
    DataMeaning(s.now, Found(s, cr, st0), st, w);
  }

  lemma {:induction false} ShapeUnlink(s: Sum, cr: nat, unl: bool, n: int, v0: nat, v: nat, o: seq<Item>, st0: State,
                                       st: State)
    requires Shape(s, cr, unl, n, v0, v, o, st0, st) && EntryOk(Unlink(n), st, unl)
    ensures Shape(SumStep(s, Unlink(n)), cr, true, n, v0, v, DropKey(o, Key(n, v)), st0, DigestUnlink(st))
  {
    Apart(s, cr, unl, n, v0, v, o, st0, st);
    SkipDrop(PastItems(s.past, Key(n, v0)), NowItems(s.now, Key(n, v)), Key(n, v));
    NowDrop(s.now, Key(n, v));
  }

  ghost predicate ShapeOf(log: seq<Entry>, versions: map<int, nat>, files: map<int, Inode>, n: int) {
    && Digest(log, files).Run?
    && ShapeIn(log, n, Version(Replay([], versions), n), Coalesce(log, versions), Get(files, n),
        Get(Digest(log, files).files, n))
  }

  ghost predicate ShapeIn(log: seq<Entry>, n: int, v0: nat, r: Replay, st0: State, st: State) {
    Shape(Summary(log, n), Creates(log, n), Unlinked(log, n), n, v0, Version(r, n), Of(r.items, n), st0, st)
  }

  /** How everything about inode n changes when entry e is appended. */
  lemma {:induction false} Append(rest: seq<Entry>, e: Entry, n: int)
    ensures Summary(rest + [e], n) == if e.inum == n then SumStep(Summary(rest, n), e) else Summary(rest, n)
    ensures Creates(rest + [e], n) == Creates(rest, n) + if e.Create? && e.inum == n then 1 else 0
    ensures Unlinked(rest + [e], n) == (Unlinked(rest, n) || e == Unlink(n))
  {
    assert (rest + [e])[..|rest|] == rest;
  }

  lemma {:induction false} ShapeNext(rest: seq<Entry>, e: Entry, n: int, v0: nat, r: Replay, st0: State, st: State)
    requires ShapeIn(rest, n, v0, r, st0, st)
    requires e.inum == n ==> EntryOk(e, st, Unlinked(rest, n)) && Creates(rest + [e], n) < VERSIONS
    ensures ShapeIn(rest + [e], n, v0, Add(r, e), st0, if e.inum == n then DigestEntry(st, e) else st)
  {
    Append(rest, e, n);
    OfAdd(r, e, n);
    if e.inum == n {
      ShapeStep(Summary(rest, n), Creates(rest, n), Unlinked(rest, n), v0, Version(r, n),
          Replay(Of(r.items, n), r.versions), st0, st, e,
                Creates(rest + [e], n), Unlinked(rest + [e], n), Version(Add(r, e), n), Of(Add(r, e).items, n));
    }
  }

  lemma {:induction false} AppendRun(rest: seq<Entry>, e: Entry, versions: map<int, nat>, files: map<int, Inode>)
    ensures Digest(rest + [e], files) == Step(Digest(rest, files), e)
    ensures Coalesce(rest + [e], versions) == Add(Coalesce(rest, versions), e)
  {
    assert (rest + [e])[..|rest|] == rest;
  }

  lemma {:induction false} ShapeHolds(log: seq<Entry>, versions: map<int, nat>, files: map<int, Inode>, n: int)
    requires BatchOk(log, files) && Version(Replay([], versions), n) < VERSIONS
    ensures ShapeOf(log, versions, files, n)
  {
    if log != [] {
      var rest, e := log[..|log| - 1], log[|log| - 1];
      ShapeHolds(rest, versions, files, n);
      ShapeOfNext(rest, e, versions, files, n);
      assert log == rest + [e];
    }
  }

  lemma {:induction false} ShapeOfNext(rest: seq<Entry>, e: Entry, versions: map<int, nat>, files: map<int, Inode>,
                                       n: int)
    requires ShapeOf(rest, versions, files, n)
    requires EntryOk(e, Get(Digest(rest, files).files, e.inum), Unlinked(rest, e.inum))
             && Creates(rest + [e], e.inum) < VERSIONS
    ensures ShapeOf(rest + [e], versions, files, n)
  {
    var fs := Digest(rest, files).files;
    ShapeNext(rest, e, n, Version(Replay([], versions), n), Coalesce(rest, versions), Get(files, n), Get(fs, n));
    StepAt(fs, e, Unlinked(rest, e.inum), n);
    AppendRun(rest, e, versions, files);
  }

  lemma {:induction false} StepAt(files: map<int, Inode>, e: Entry, unl: bool, n: int)
    requires EntryOk(e, Get(files, e.inum), unl)
    ensures Step(Run(files), e).Run?
    ensures Get(Step(Run(files), e).files, n) == if e.inum == n then DigestEntry(Get(files, n), e) else Get(files, n)
  {
  }

  lemma {:induction false} ShapeStep(s: Sum, cr: nat, unl: bool, v0: nat, v: nat, r: Replay, st0: State, st: State,
                                     e: Entry,
                                     cr': nat, unl': bool, v': nat, o': seq<Item>)
    requires Shape(s, cr, unl, e.inum, v0, v, r.items, st0, st) && EntryOk(e, st, unl) && v == Version(r, e.inum)
    requires cr' == cr + (if e.Create? then 1 else 0) && cr' < VERSIONS && unl' == (unl || e.Unlink?)
    requires v' == (if e.Create? then (v + 1) % VERSIONS else v) && o' == Add(r, e).items
    ensures Shape(SumStep(s, e), cr', unl', e.inum, v0, v', o', st0, DigestEntry(st, e))
  {
    match e
    case Create(n, sn) => ShapeCreate(s, cr, unl, n, v0, v, r.items, st0, st, sn);
    case Update(n, sn) => ShapeUpdate(s, cr, unl, n, v0, v, r.items, st0, st, sn);
    case Data(n, w) => ShapeData(s, cr, unl, n, v0, v, r.items, st0, st, w);
    case Unlink(n) => ShapeUnlink(s, cr, unl, n, v0, v, r.items, st0, st);
  }

  // ---------- What the list then does ----------

  lemma {:induction false} DigestAllIs(i: Inode, ws: seq<Write>)
    ensures DigestAll(Live(i), ws) == Live(Inode(i.kind, Max(i.size, MaxEnd(ws)), Overlay(i.data, ws)))
  {
    if ws != [] { DigestAllIs(i, ws[..|ws| - 1]); }
  }

  lemma {:induction false} ApplyTwo(a: seq<Item>, b: seq<Item>, st: State)
    ensures ApplyOne(a + b, st) == ApplyOne(b, ApplyOne(a, st))
  {
    if b == [] {
      assert a + b == a;
    } else {
      assert (a + b)[..|a + b| - 1] == a + b[..|b| - 1];
      ApplyTwo(a, b[..|b| - 1], st);
    }
  }

  lemma {:induction false} ApplyItems(x: Item, y: Item, st: State)
    ensures ApplyOne([x], st) == DigestItem(st, x) && ApplyOne([x, y], st) == DigestItem(DigestItem(st, x), y)
  {
    assert [x][..0] == [] && [x, y][..1] == [x];
  }

  /** A snapshot that is replayed after the writes must cover them. */
  predicate Covered(now: Now) {
    now.ThenI? ==> MaxEnd(now.ws) <= now.snap.size
  }

  predicate CoveredIn(log: seq<Entry>, n: int) {
    Covered(Summary(log, n).now)
  }

  lemma {:induction false} ApplyNow(now: Now, k: Key, b: State, st: State)
    requires Meaning(now, b, st) && b != Crash
    ensures ApplyOne(NowItems(now, k), b) != Crash
    ensures ApplyOne(NowItems(now, k), b) == st <==> Covered(now)
  {
    match now
    case Nothing =>
    case OnlyI(c, s) => ApplyItems(I(k, c, s), U(k), b);
    case OnlyF(ws) =>
      ApplyItems(F(k, ws), U(k), b);
      DigestAllIs(b.ino, ws);
    case ThenF(c, s, ws) =>
      ApplyItems(I(k, c, s), F(k, ws), b);
      DigestAllIs(DigestInode(b, s).ino, ws);
    case ThenI(ws, s) =>
      ApplyItems(F(k, ws), I(k, false, s), b);
      DigestAllIs(b.ino, ws);
  }

  lemma {:induction false} ApplyShape(s: Sum, cr: nat, unl: bool, n: int, v0: nat, v: nat, o: seq<Item>, st0: State,
                                      st: State)
    requires Shape(s, cr, unl, n, v0, v, o, st0, st)
    ensures ApplyOne(o, st0) != Crash && (ApplyOne(o, st0) == st <==> Covered(s.now))
  {
    var past := PastItems(s.past, Key(n, v0));
    ApplyTwo(past, NowItems(s.now, Key(n, v)), st0);
    match s.past {
      case Open =>
      case Gone => ApplyItems(U(Key(n, v0)), U(Key(n, v0)), st0);
      case GoneAfter(sn) => ApplyItems(I(Key(n, v0), false, sn), U(Key(n, v0)), st0);
    }
    ApplyNow(s.now, Key(n, v), Found(s, cr, st0), st);
  }

  // ---------- The main result ----------

  /** On every batch the file system can have logged, the coalesced digest runs, and it leaves the
      same live inodes, types, sizes and contents as the entry-by-entry digest if and only if
      every snapshot that ends up behind its inode's writes covers them. */
  lemma {:induction false} CoalescedIsSequential(log: seq<Entry>, versions: map<int, nat>, files: map<int, Inode>)
    requires BatchOk(log, files) && forall n :: n in versions ==> versions[n] < VERSIONS
    ensures Digest(log, files).Run? && Apply(Coalesce(log, versions).items, files).Run?
    ensures Apply(Coalesce(log, versions).items, files) == Digest(log, files)
            <==> forall n :: CoveredIn(log, n)
  {
    forall n ensures Digest(log, files).Run? && Agrees(Coalesce(log, versions).items, files, Digest(log, files).files,
        log, n) {
      ResultFor(log, versions, files, n);
    }
    ResultFor(log, versions, files, 0);
    AgreeAll(Coalesce(log, versions).items, files, Digest(log, files).files, log);
  }

  ghost predicate Agrees(items: seq<Item>, files: map<int, Inode>, d: map<int, Inode>, log: seq<Entry>, n: int) {
    var st := Part(items, files, n);
    st != Crash && (st == Get(d, n) <==> CoveredIn(log, n))
  }

  lemma {:induction false} AgreeAll(items: seq<Item>, files: map<int, Inode>, d: map<int, Inode>, log: seq<Entry>)
    requires forall n :: Agrees(items, files, d, log, n)
    ensures Apply(items, files).Run? && (Apply(items, files).files == d <==> forall n :: CoveredIn(log, n))
  {
    forall n ensures Part(items, files, n) != Crash { assert Agrees(items, files, d, log, n); }
    ApplyByInode(items, files);
    var a := Apply(items, files).files;
    SameFiles(a, d);
    if a == d {
      forall n ensures CoveredIn(log, n) { assert Agrees(items, files, d, log, n); }
    }
    if forall n :: CoveredIn(log, n) {
      forall n ensures Get(a, n) == Get(d, n) { assert Agrees(items, files, d, log, n) && CoveredIn(log, n); }
    }
  }

  lemma {:induction false} ResultFor(log: seq<Entry>, versions: map<int, nat>, files: map<int, Inode>, n: int)
    requires BatchOk(log, files) && Version(Replay([], versions), n) < VERSIONS
    ensures Digest(log, files).Run? && Agrees(Coalesce(log, versions).items, files, Digest(log, files).files, log, n)
  {
    ShapeHolds(log, versions, files, n);
    ApplyShape(Summary(log, n), Creates(log, n), Unlinked(log, n), n, Version(Replay([], versions), n),
               Version(Coalesce(log, versions), n), Of(Coalesce(log, versions).items, n), Get(files, n),
                   Get(Digest(log, files).files, n));
  }

  lemma {:induction false} SameFiles(a: map<int, Inode>, b: map<int, Inode>)
    ensures a == b <==> forall n :: Get(a, n) == Get(b, n)
  {
    if forall n :: Get(a, n) == Get(b, n) {
      forall n ensures n in a <==> n in b { assert Get(a, n) == Get(b, n); }
      forall n | n in a ensures a[n] == b[n] { assert Get(a, n) == Get(b, n); }
    }
  }
}
