/** Batches outside the conditions of CoalescedIsSequential, one for each condition, on which the
    coalesced digest goes wrong. */
module DigestLimits {
  import opened DigestLog
  import opened DigestReplay

  lemma {:induction false} Two(a: Entry, b: Entry, versions: map<int, nat>, files: map<int, Inode>)
    ensures Digest([a, b], files) == Step(Step(Run(files), a), b)
    ensures Coalesce([a, b], versions) == Add(Add(Replay([], versions), a), b)
  {
    assert [a, b] == [a] + [b] && [a] == [] + [a];
    AppendRun([], a, versions, files);
    AppendRun([a], b, versions, files);
  }

  lemma {:induction false} ApplySnoc(items: seq<Item>, x: Item, files: map<int, Inode>)
    ensures Apply(items + [x], files) == StepItem(Apply(items, files), x)
  {
    assert (items + [x])[..|items|] == items;
  }

  lemma {:induction false} ApplyTwoItems(x: Item, y: Item, files: map<int, Inode>)
    ensures Apply([x], files) == StepItem(Run(files), x)
    ensures Apply([x, y], files) == StepItem(StepItem(Run(files), x), y)
  {
    assert [x] == [] + [x] && [x, y] == [x] + [y];
    ApplySnoc([], x, files);
    ApplySnoc([x], y, files);
  }

  /** A creation of an inode that is live: the unlink after it vanishes with it. */
  lemma {:induction false} CreateOfLiveInode(n: int, i: Inode, s: Snap)
    ensures var log, files := [Create(n, s), Unlink(n)], map[n := i];
            Apply(Coalesce(log, map[]).items, files) != Digest(log, files)
  {
    var files, k := map[n := i], Key(n, 1);
    Two(Create(n, s), Unlink(n), map[], files);
    NowDrop(OnlyI(true, s), k);
    assert Coalesce([Create(n, s), Unlink(n)], map[]).items == [];
    assert n in Apply([], files).files;
  }

  /** A snapshot after an unlink joins the item in front of the unlink. */
  lemma {:induction false} UpdateAfterUnlink(n: int, i: Inode, s: Snap)
    ensures var log, files := [Update(n, s), Unlink(n)] + [Update(n, s)], map[n := i];
            Apply(Coalesce(log, map[]).items, files) != Digest(log, files)
  {
    var files, k := map[n := i], Key(n, 0);
    Two(Update(n, s), Unlink(n), map[], files);
    AppendRun([Update(n, s), Unlink(n)], Update(n, s), map[], files);
    NowDrop(OnlyI(false, s), k);
    assert [I(k, false, s), U(k)][1..] == [U(k)];
    assert Coalesce([Update(n, s), Unlink(n)] + [Update(n, s)], map[]).items == [I(k, false, s)] + [U(k)]
           == [I(k, false, s), U(k)];
    ApplyTwoItems(I(k, false, s), U(k), files);
    assert n !in Apply([I(k, false, s), U(k)], files).files;
    assert n in Digest([Update(n, s), Unlink(n)] + [Update(n, s)], files).files;
  }

  /** A file cut to nothing and grown again keeps its old bytes. */
  lemma {:induction false} ShrinkAndGrow(n: int)
    ensures var log, files := [Update(n, Snap(File, 0)), Update(n, Snap(File, 1))],
            map[n := Inode(File, 1, map[0 := 7])];
            Apply(Coalesce(log, map[]).items, files) != Digest(log, files)
  {
    var files, k := map[n := Inode(File, 1, map[0 := 7])], Key(n, 0);
    var a, b := Update(n, Snap(File, 0)), Update(n, Snap(File, 1));
    Two(a, b, map[], files);
    assert Coalesce([a, b], map[]).items == [I(k, false, Snap(File, 1))];
    ApplyTwoItems(I(k, false, Snap(File, 1)), U(k), files);
    assert 0 in Apply([I(k, false, Snap(File, 1))], files).files[n].data;
    assert 0 !in Cut(map[0 := 7], 0, 1);
  }

  /** A later snapshot of another type replaces the type of the creation. */
  lemma {:induction false} ChangeOfType(n: int)
    ensures var log := [Create(n, Snap(File, 0)), Update(n, Snap(Directory, 0))];
            Apply(Coalesce(log, map[]).items, map[]) != Digest(log, map[])
  {
    var a, b, k := Create(n, Snap(File, 0)), Update(n, Snap(Directory, 0)), Key(n, 1);
    Two(a, b, map[], map[]);
    assert Coalesce([a, b], map[]).items == [I(k, true, Snap(Directory, 0))];
    ApplyTwoItems(I(k, true, Snap(Directory, 0)), U(k), map[]);
  }

  /** An inode that is updated, unlinked, and then created and unlinked k times. */
  function Cycles(n: int, s: Snap, k: nat): seq<Entry> {
    if k == 0 then [Update(n, s), Unlink(n)] else Cycles(n, s, k - 1) + [Create(n, s)] + [Unlink(n)]
  }

  /** A creation and unlink under a new version leave the list as it was. */
  lemma {:induction false} CycleAdds(r: Replay, old0: seq<Item>, n: int, s: Snap, k: nat)
    requires 0 < k < VERSIONS && r.items == old0 && Version(r, n) == k - 1
    requires forall i :: 0 <= i < |old0| ==> old0[i].key != Key(n, k)
    ensures var r' := Add(Add(r, Create(n, s)), Unlink(n)); r'.items == old0 && Version(r', n) == k
  {
    var key := Key(n, k);
    assert old0 + [] == old0;
    SkipAddI(old0, [], key, true, s);
    SkipDrop(old0, [I(key, true, s)], key);
    NowDrop(OnlyI(true, s), key);
  }

  /** The replay list and the files after k cycles. */
  ghost predicate Left(log: seq<Entry>, n: int, i: Inode, s: Snap, k: nat) {
    && Coalesce(log, map[]).items == [I(Key(n, 0), false, s), U(Key(n, 0))] && Version(Coalesce(log, map[]), n) == k
    && Digest(log, map[n := i]) == Run(map[])
  }

  lemma {:induction false} FirstCycle(n: int, i: Inode, s: Snap)
    ensures Left([Update(n, s), Unlink(n)], n, i, s, 0)
  {
    Two(Update(n, s), Unlink(n), map[], map[n := i]);
    NowDrop(OnlyI(false, s), Key(n, 0));
    assert Digest([Update(n, s), Unlink(n)], map[n := i]).files == map[];
  }

  lemma {:induction false} NextCycle(log: seq<Entry>, n: int, i: Inode, s: Snap, k: nat)
    requires 0 < k < VERSIONS && Left(log, n, i, s, k - 1)
    ensures Left(log + [Create(n, s)] + [Unlink(n)], n, i, s, k)
  {
    AppendRun(log, Create(n, s), map[], map[n := i]);
    AppendRun(log + [Create(n, s)], Unlink(n), map[], map[n := i]);
    CycleAdds(Coalesce(log, map[]), [I(Key(n, 0), false, s), U(Key(n, 0))], n, s, k);
    assert Step(Step(Run(map[]), Create(n, s)), Unlink(n)).files == map[];
  }

  lemma {:induction false} CyclesLeave(n: int, i: Inode, s: Snap, k: nat)
    requires k < VERSIONS
    ensures Left(Cycles(n, s, k), n, i, s, k)
  {
    if k == 0 {
      FirstCycle(n, i, s);
    } else {
      CyclesLeave(n, i, s, k - 1);
      NextCycle(Cycles(n, s, k - 1), n, i, s, k);
    }
  }

  /** With 65536 creations the 16-bit version comes round to the first incarnation, whose items
      are still in the list: the last creation is replayed in front of the old unlink. */
  lemma {:induction false} VersionWraps(n: int, i: Inode, s: Snap)
    ensures var log := Cycles(n, s, VERSIONS - 1) + [Create(n, s)];
            && Apply(Coalesce(log, map[]).items, map[n := i]) == Run(map[])
            && Digest(log, map[n := i]) == Run(map[n := Inode(s.kind, s.size, map[])])
  {
    var log, files, k := Cycles(n, s, VERSIONS - 1), map[n := i], Key(n, 0);
    CyclesLeave(n, i, s, VERSIONS - 1);
    AppendRun(log, Create(n, s), map[], files);
    assert [I(k, false, s), U(k)][1..] == [U(k)];
    assert Coalesce(log + [Create(n, s)], map[]).items == [I(k, false, s)] + [U(k)] == [I(k, false, s), U(k)];
    ApplyTwoItems(I(k, false, s), U(k), files);
    assert Apply([I(k, false, s), U(k)], files).files == map[];
  }
}
