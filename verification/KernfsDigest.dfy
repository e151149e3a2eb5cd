/** kernfs/fs.c: digestion of log headers, as it is done in place on the inode table and the
    replay list. */
module KernfsDigest {
  import opened DigestLog
  import opened DigestReplay

  /** A log header that was read back, with its entries. */
  datatype Header = Header(committed: bool, entries: seq<Entry>)

  function Batch(hs: seq<Header>): seq<Entry> {
    if hs == [] then [] else Batch(hs[..|hs| - 1]) + hs[|hs| - 1].entries
  }

  lemma {:induction false} AddAllConcat(r: Replay, a: seq<Entry>, b: seq<Entry>)
    ensures AddAll(AddAll(r, a), b) == AddAll(r, a + b)
  {
    if b == [] {
      assert a + b == a;
    } else {
      assert (a + b)[..|a + b| - 1] == a + b[..|b| - 1];
      AddAllConcat(r, a, b[..|b| - 1]);
    }
  }

  lemma {:induction false} StepAllConcat(o: Outcome, a: seq<Entry>, b: seq<Entry>)
    ensures StepAll(StepAll(o, a), b) == StepAll(o, a + b)
  {
    if b == [] {
      assert a + b == a;
    } else {
      assert (a + b)[..|a + b| - 1] == a + b[..|b| - 1];
      StepAllConcat(o, a, b[..|b| - 1]);
    }
  }

  /** A table of 16-bit versions. */
  predicate Narrow(versions: map<int, nat>) {
    forall k :: k in versions ==> versions[k] < VERSIONS
  }

  lemma {:induction false} StaysNarrow(r: Replay, log: seq<Entry>)
    requires Narrow(r.versions)
    ensures Narrow(AddAll(r, log).versions)
  {
    if log != [] { StaysNarrow(r, log[..|log| - 1]); }
  }

  /** struct replay_list and inode_version_table.  The three hash tables index the same items as
      the list, by key, so that a look-up is a search of the list. */
  class ReplayList {
    var items: seq<Item>
    var versions: map<int, nat>

    constructor ()
      ensures items == [] && versions == map[]
    {
      items, versions := [], map[];
    }

    ghost function Contents(): Replay
      reads this
    {
      Replay(items, versions)
    }

    /** HASH_FIND in i_digest_hash or f_digest_hash. */
    method Find(inode: bool, key: Key) returns (p: nat)
      ensures p <= |items|
      ensures inode ==> NoI(items[..p], key) && (p < |items| ==> items[p].I? && items[p].key == key)
      ensures !inode ==> NoF(items[..p], key) && (p < |items| ==> items[p].F? && items[p].key == key)
    {
      p := 0;
      while p < |items| && !(items[p].key == key && (if inode then items[p].I? else items[p].F?))
        invariant p <= |items|
        invariant inode ==> NoI(items[..p], key)
        invariant !inode ==> NoF(items[..p], key)
      {
        p := p + 1;
      }
    }

    /** An inode entry: a newer snapshot for the item, or a new item. */
    method AddInode(key: Key, create: bool, s: Snap)
      modifies this`items
      ensures items == AddI(old(items), key, create, s)
    {
      var p := Find(true, key);
      ghost var a, b := items[..p], items[p..];
      assert items == a + b;
      SkipAddI(a, b, key, create, s);
      if p == |items| {
        items := items + [I(key, create, s)];
      } else {
        items := items[p := I(key, items[p].create, s)];
        assert items == a + ([I(key, b[0].create, s)] + b[1..]);
      }
    }

    /** A data entry: one more I/O vector for the item, or a new item. */
    method AddData(key: Key, w: Write)
      modifies this`items
      ensures items == AddF(old(items), key, w)
    {
      var p := Find(false, key);
      ghost var a, b := items[..p], items[p..];
      assert items == a + b;
      SkipAddF(a, b, key, w);
      if p == |items| {
        items := items + [F(key, [w])];
      } else {
        items := items[p := F(key, items[p].iovs + [w])];
        assert items == a + ([F(key, b[0].iovs + [w])] + b[1..]);
      }
    }

    /** An unlink entry: an incarnation that began in the batch goes without a trace, another one
        gets an unlink item; its writes go in both cases. */
    method AddUnlink(key: Key)
      modifies this`items
      ensures items == DropKey(old(items), key)
    {
      var p := Find(true, key);
      ghost var a, b := items[..p], items[p..];
      assert items == a + b;
      SkipDelI(a, b, key);
      if p < |items| && items[p].create {
        items := items[..p] + items[p + 1..];
        assert items == a + b[1..];
      } else {
        items := items + [U(key)];
      }
      ghost var mid := items;
      var q := Find(false, key);
      ghost var c, d := items[..q], items[q..];
      assert items == c + d;
      SkipDelF(c, d, key);
      if q < |items| {
        items := items[..q] + items[q + 1..];
        assert items == c + d[1..];
      } else {
        assert c + [] == c;
      }
      assert items == DelF(mid, key);
    }

    method AddEntry(e: Entry)
      modifies this
      ensures Contents() == Add(old(Contents()), e)
    {
      var v := if e.inum in versions then versions[e.inum] else 0;
      match e
      case Create(n, s) =>
        versions := versions[n := (v + 1) % VERSIONS];
        AddInode(Key(n, (v + 1) % VERSIONS), true, s);
      case Update(n, s) => AddInode(Key(n, v), false, s);
      case Data(n, w) => AddData(Key(n, v), w);
      case Unlink(n) => AddUnlink(Key(n, v));
    }

    /** digest_replay_and_optimize, for one header. */
    method ReplayAndOptimize(entries: seq<Entry>)
      modifies this
      ensures Contents() == AddAll(old(Contents()), entries)
    {
      var i := 0;
      while i < |entries|
        invariant i <= |entries| && Contents() == AddAll(old(Contents()), entries[..i])
      {
        AddEntry(entries[i]);
        assert entries[..i + 1][..i] == entries[..i];
        i := i + 1;
      }
      assert entries[..i] == entries;
    }
  }

  /** The inode table of one KernFS, with its replay list. */
  class Digester {
    var files: map<int, Inode>
    var panicked: bool
    const list: ReplayList

    constructor (files: map<int, Inode>)
      ensures fresh(list) && list.items == [] && list.versions == map[] && this.files == files && !panicked
    {
      this.files, panicked := files, false;
      list := new ReplayList();
    }

    ghost function Result(): Outcome
      reads this
    {
      if panicked then Panic else Run(files)
    }

    /** What the three digest operations do to the inode that they look up. */
    method Store(n: int, st: State)
      requires !panicked
      modifies this
      ensures Result() == Put(old(files), n, st)
    {
      match st
      case Crash => panicked := true;
      case Absent => files := files - {n};
      case Live(i) => files := files[n := i];
    }

    method DigestOne(e: Entry)
      modifies this
      ensures Result() == Step(old(Result()), e)
    {
      if panicked { return; }
      Store(e.inum, DigestEntry(Get(files, e.inum), e));
    }

    /** digest_each_log_entries, for one header. */
    method DigestEachLogEntries(entries: seq<Entry>)
      modifies this
      ensures Result() == StepAll(old(Result()), entries)
    {
      var i := 0;
      while i < |entries|
        invariant i <= |entries| && Result() == StepAll(old(Result()), entries[..i])
      {
        DigestOne(entries[i]);
        assert entries[..i + 1][..i] == entries[..i];
        i := i + 1;
      }
      assert entries[..i] == entries;
    }

    /** The I/O vectors of one file item, in order. */
    method DigestWrites(n: int, ws: seq<Write>)
      requires !panicked
      modifies this
      ensures Result() == Put(old(files), n, DigestAll(Get(old(files), n), ws))
    {
      var st, i := Get(files, n), 0;
      while i < |ws|
        invariant i <= |ws| && st == DigestAll(Get(files, n), ws[..i])
      {
        st := DigestData(st, ws[i]);
        assert ws[..i + 1][..i] == ws[..i];
        i := i + 1;
      }
      assert ws[..i] == ws;
      Store(n, st);
    }

    method DigestItemAt(it: Item)
      modifies this
      ensures Result() == StepItem(old(Result()), it)
    {
      if panicked { return; }
      match it
      case I(k, _, s) => Store(k.inum, DigestInode(Get(files, k.inum), s));
      case F(k, ws) => DigestWrites(k.inum, ws);
      case U(k) => Store(k.inum, DigestUnlink(Get(files, k.inum)));
    }

    /** digest_log_from_replay_list: every item is digested and taken off the list. */
    method DigestLogFromReplayList()
      modifies this, list`items
      ensures Result() == ApplyAll(old(Result()), old(list.items)) && list.items == []
    {
      ghost var done: seq<Item> := [];
      while list.items != []
        invariant done + list.items == old(list.items)
        invariant Result() == ApplyAll(old(Result()), done)
        decreases |list.items|
      {
        var it := list.items[0];
        DigestItemAt(it);
        assert (done + [it])[..|done|] == done;
        done := done + [it];
        list.items := list.items[1..];
      }
      assert done + [] == done;
    }

    /** digest_logs: headers up to the first one that is not committed, with DIGEST_OPT through
        the replay list and otherwise entry by entry.  Either way the files end up as the
        entry-by-entry digest of the batch says, whenever the batch meets the conditions. */
    method DigestLogs(headers: seq<Header>, opt: bool) returns (n: nat)
      requires list.items == [] && Narrow(list.versions)
      modifies this, list
      ensures n <= |headers| && (forall i :: 0 <= i < n ==> headers[i].committed)
              && (n < |headers| ==> !headers[n].committed)
      ensures list.items == [] && Narrow(list.versions)
      ensures !opt ==> Result() == StepAll(old(Result()), Batch(headers[..n]))
      ensures opt ==> Result() == ApplyAll(old(Result()), Coalesce(Batch(headers[..n]), old(list.versions)).items)
      ensures !old(panicked) && BatchOk(Batch(headers[..n]), old(files))
              && (forall k :: CoveredIn(Batch(headers[..n]), k))
              ==> Result() == Digest(Batch(headers[..n]), old(files))
    {
      n := 0;
      while n < |headers| && headers[n].committed
        invariant n <= |headers| && forall i :: 0 <= i < n ==> headers[i].committed
        invariant opt ==>
                    list.Contents() == AddAll(old(list.Contents()), Batch(headers[..n])) && Result() == old(Result())
        invariant !opt ==>
                    list.Contents() == old(list.Contents()) && Result() == StepAll(old(Result()), Batch(headers[..n]))
      {
        assert headers[..n + 1][..n] == headers[..n];
        if opt {
          list.ReplayAndOptimize(headers[n].entries);
          AddAllConcat(old(list.Contents()), Batch(headers[..n]), headers[n].entries);
        } else {
          DigestEachLogEntries(headers[n].entries);
          StepAllConcat(old(Result()), Batch(headers[..n]), headers[n].entries);
        }
        n := n + 1;
      }
      ghost var batch := Batch(headers[..n]);
      if opt {
        StaysNarrow(old(list.Contents()), batch);
        DigestLogFromReplayList();
      }
      if opt && !old(panicked) && BatchOk(batch, old(files)) {
        CoalescedIsSequential(batch, old(list.versions), old(files));
      }
    }
  }
}
