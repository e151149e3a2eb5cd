/** bench/filebench/fileset.c: the entries of a fileset, handed out to threads and given back. Each call runs
    under fs_pick_lock, so a run is a sequence of whole calls. */
module FilebenchFileset {
  import opened AvlTrees
  import opened AvlStore
  import opened FilebenchAvl

  /** The FSE_FREE, FSE_EXISTS and FSE_BUSY bits of fse_flags, and fse_open_cnt. */
  datatype Entry = Entry(free: bool, made: bool, busy: bool, open: int)

  /** Which of the three trees an entry belongs in. */
  datatype Home = Free | Made | Unmade

  function HomeOf(e: Entry): Home {
    if e.free then Free else if e.made then Made else Unmade
  }

  /** The selection flags of fileset_pick: FILESET_PICKUNIQUE, FILESET_PICKBYINDEX, or neither. */
  datatype Choice = Unique(index: int, random: int) | ByIndex(made: bool, index: int) | InTurn(made: bool, tid: nat)

  /** The flags of the entries that a choice allows: free ones, or ones that are not and exist or not. */
  predicate Suits(how: Choice, e: Entry) {
    if how.Unique? then e.free else !e.free && e.made == how.made
  }

  function Wanted(how: Choice): Home {
    if how.Unique? then Free else if how.made then Made else Unmade
  }

  // ------------------------------------------------------------------ The ring of entries

  /** How many entries at the front of s have an index below the given one. */
  ghost function Lower(key: int -> int, s: seq<int>, index: int): (i: nat)
    ensures i <= |s| && Below(key, s[..i], index) && (i < |s| ==> key(s[i]) >= index)
  {
    if s == [] || key(s[0]) >= index then 0
    else
      var i := 1 + Lower(key, s[1..], index);
      assert s[..i] == [s[0]] + s[1..][..i - 1];
      i
  }

  /** Where a search for an index starts: at the entry with that index, or the next higher, or the lowest. */
  ghost function Origin(key: int -> int, s: seq<int>, index: int): (i: nat)
    requires s != []
    ensures i < |s|
  {
    var i := Lower(key, s, index);
    if i < |s| then i else 0
  }

  /** s, begun at place i. */
  function Ring(s: seq<int>, i: nat): seq<int>
    requires i <= |s|
  {
    s[i..] + s[..i]
  }

  predicate Idle(entries: map<int, Entry>, x: int) {
    x in entries && !entries[x].busy
  }

  ghost function FirstIdle(entries: map<int, Entry>, w: seq<int>): int {
    if w == [] then NULL
    else if Idle(entries, w[0]) then w[0]
    else FirstIdle(entries, w[1..])
  }

  /** The rotors after a pick: only a pick in turn moves one, to just past the entry where its search began. */
  ghost function Turned(key: int -> int, s: seq<int>, how: Choice, sought: int, ne: int, ex: seq<int>): (int, seq<int>)
    requires how.InTurn? ==> how.tid < |ex|
  {
    if s == [] || !how.InTurn? then (ne, ex)
    else
      var next := key(s[Origin(key, s, sought)]) + 1;
      if how.made then (ne, ex[how.tid := next]) else (next, ex)
  }

  /** In an ascending sequence the place where the keys reach a value is unique. */
  lemma {:induction false} LowerIs(key: int -> int, s: seq<int>, index: int, i: nat)
    requires i <= |s| && Below(key, s[..i], index) && (i < |s| ==> key(s[i]) >= index)
    ensures Lower(key, s, index) == i
  {
  }

  lemma {:induction false} LowerOf(key: int -> int, s: seq<int>, i: nat)
    requires i < |s| && Ascending(key, s)
    ensures Lower(key, s, key(s[i])) == i
    ensures Lower(key, s, key(s[i]) + 1) == i + 1
  {
    LowerIs(key, s, key(s[i]), i);
    LowerIs(key, s, key(s[i]) + 1, i + 1);
  }

  lemma {:induction false} LowerBetween(key: int -> int, a: seq<int>, b: seq<int>, index: int)
    requires Below(key, a, index) && Above(key, b, index)
    ensures Lower(key, a + b, index) == |a|
  {
    assert (a + b)[..|a|] == a;
    LowerIs(key, a + b, index, |a|);
  }

  /** Picking in rotation: after an entry, the search for the index after its own starts at the next entry, and
      after the last entry at the first. */
  lemma {:induction false} TurnGoesRound(key: int -> int, s: seq<int>, i: nat)
    requires i < |s| && Ascending(key, s)
    ensures Origin(key, s, key(s[i]) + 1) == if i + 1 < |s| then i + 1 else 0
  {
    LowerOf(key, s, i);
  }

  /** What is found is idle and everything before it in the ring is busy; nothing is found exactly when all of the
      ring is busy. */
  lemma {:induction false} FirstIdleFacts(entries: map<int, Entry>, w: seq<int>)
    requires NULL !in w
    ensures FirstIdle(entries, w) == NULL <==> forall x :: x in w ==> !Idle(entries, x)
    ensures FirstIdle(entries, w) != NULL ==>
              exists k :: 0 <= k < |w| && w[k] == FirstIdle(entries, w) && Idle(entries, w[k])
                          && forall j :: 0 <= j < k ==> !Idle(entries, w[j])
  {
    if w != [] {
      var x := FirstIdle(entries, w);
      assert w[0] in w;
      if !Idle(entries, w[0]) {
        FirstIdleFacts(entries, w[1..]);
        assert w == [w[0]] + w[1..];
        if x != NULL {
          var k :| 0 <= k < |w[1..]| && w[1..][k] == x && Idle(entries, w[1..][k])
                   && forall j :: 0 <= j < k ==> !Idle(entries, w[1..][j]);
          assert w[k + 1] == x;
          forall j | 0 <= j < k + 1 ensures !Idle(entries, w[j]) {
            if j > 0 { assert w[j] == w[1..][j - 1]; }
          }
        }
      }
    }
  }

  /** avl_next and, at the end, avl_first lead from one place of the ring to the next. */
  lemma {:induction false} NextInRing(key: int -> int, s: seq<int>, i: nat, k: nat, j: nat, next: int)
    requires i < |s| && k < |s| && j < |s| && Ascending(key, s) && s[j] == Ring(s, i)[k] && NULL !in s
    requires next == if Beside(s, j, true) == NULL then s[0] else Beside(s, j, true)
    ensures next == Ring(s, i)[if k + 1 < |s| then k + 1 else 0]
    ensures next == Ring(s, i)[0] <==> k + 1 == |s|
  {
    var p := if i + k < |s| then i + k else i + k - |s|;
    assert Ring(s, i)[k] == s[p];
    assert p == j by {
      assert key(s[p]) == key(s[j]);
    }
    assert j + 1 < |s| ==> s[j + 1] in s;
    var q := if j + 1 < |s| then j + 1 else 0;
    assert next == s[q];
    assert next == Ring(s, i)[0] <==> q == i by {
      assert Ring(s, i)[0] == s[i];
      assert key(s[q]) == key(s[i]) ==> q == i;
    }
  }

  // ------------------------------------------------------------------ Reading a tree

  /** fileset_find_entry */
  method FindEntry(tree: AvlTree, index: int) returns (x: int)
    requires tree.Valid() && NULL !in Seq(tree.t)
    ensures Seq(tree.t) == [] ==> x == NULL
    ensures Seq(tree.t) != [] ==> x == Seq(tree.t)[Origin(tree.key, Seq(tree.t), index)]
  {
    var prev, child;
    ghost var c;
    ghost var s := Seq(tree.t);
    x, prev, child, c := tree.Find(index);
    if x != NULL {
      ghost var i :| 0 <= i < |s| && s[i] == x;
      LowerOf(tree.key, s, i);
      return;
    }
    HoleSeq(c);
    LowerBetween(tree.key, Before(c), After(c), index);
    assert After(c) != [] ==> After(c)[0] in s;
    x := tree.Nearest(prev, child, true, c);
    if x != NULL { return; }
    x := tree.First();
  }

  /** The loop of fileset_pick: from the entry at place i, round the tree to the first one that is not busy. */
  method SkipBusy(tree: AvlTree, entries: map<int, Entry>, first: int, ghost i: nat) returns (x: int)
    requires tree.Valid() && i < |Seq(tree.t)| && Seq(tree.t)[i] == first
    requires NULL !in Seq(tree.t) && forall y :: y in Seq(tree.t) ==> y in entries
    ensures x == FirstIdle(entries, Ring(Seq(tree.t), i))
  {
    ghost var s := Seq(tree.t);
    ghost var w := Ring(s, i);
    ghost var k: nat := 0;
    assert w[0..] == w;
    x := first;
    while entries[x].busy
      invariant k < |w| == |s| && x == w[k] && x in s && x in entries
      invariant FirstIdle(entries, w) == FirstIdle(entries, w[k..])
      decreases |w| - k
    {
      var was := x;
      x := tree.Walk(was, true);
      ghost var j :| 0 <= j < |s| && s[j] == was && x == Beside(s, j, true);
      if x == NULL { x := tree.First(); }
      NextInRing(tree.key, s, i, k, j, x);
      assert w[k..][1..] == w[k + 1..];
      if x == NULL || x == first {
        return NULL;
      }
      k := k + 1;
    }
  }

  // ------------------------------------------------------------------ What every call keeps

  /** Every entry's index is its own: the indices are those given out by fileset_populate_file. */
  ghost predicate Indexed(key: int -> int, entries: map<int, Entry>) {
    && NULL !in entries && TMP !in entries
    && (forall x :: x in entries ==> key(x) < |entries|)
    && (forall x, y {:trigger key(x), key(y)} :: x in entries && y in entries && key(x) == key(y) ==> x == y)
  }

  ghost function Members(s: seq<int>): set<int> {
    set x | x in s
  }

  ghost function HomeSet(entries: map<int, Entry>, home: Home): set<int> {
    set x | x in entries && HomeOf(entries[x]) == home
  }

  /** The tree holds exactly the entries whose flags name it. */
  ghost predicate Keeps(key: int -> int, tree: AvlTree, entries: map<int, Entry>, home: Home)
    reads tree
  {
    tree.Valid() && tree.key == key && Members(Seq(tree.t)) == HomeSet(entries, home)
  }

  ghost function IdleSet(entries: map<int, Entry>): set<int> {
    set x | x in entries && !entries[x].busy
  }

  ghost function BusySet(entries: map<int, Entry>): set<int> {
    set x | x in entries && entries[x].busy
  }

  /** What fileset_unbusy makes of an entry: not busy and, when asked, no longer free and existing or not as told. */
  function Returned(e: Entry, update: bool, made: bool, incr: int): Entry {
    Entry(e.free && !update, if update then made else e.made, false, e.open + incr)
  }

  lemma {:induction false} SetIdle(entries: map<int, Entry>, x: int, e: Entry)
    requires x in entries
    ensures |IdleSet(entries[x := e])| ==
            |IdleSet(entries)| + (if entries[x].busy then 1 else 0) - (if e.busy then 1 else 0)
    ensures BusySet(entries[x := e]) == if e.busy then BusySet(entries) + {x} else BusySet(entries) - {x}
  {
    var was, now := IdleSet(entries), IdleSet(entries[x := e]);
    assert now - {x} == was - {x};
    assert now == if e.busy then now - {x} else now - {x} + {x};
    assert was == if entries[x].busy then was - {x} else was - {x} + {x};
  }

  lemma {:induction false} NewIdle(entries: map<int, Entry>, x: int, e: Entry)
    requires x !in entries && !e.busy
    ensures |IdleSet(entries[x := e])| == |IdleSet(entries)| + 1 && BusySet(entries[x := e]) == BusySet(entries)
    ensures |entries[x := e]| == |entries| + 1
  {
    assert IdleSet(entries[x := e]) == IdleSet(entries) + {x};
    assert entries[x := e].Keys == entries.Keys + {x};
  }

  lemma {:induction false} IdleAndBusy(entries: map<int, Entry>)
    ensures |IdleSet(entries)| + |BusySet(entries)| == |entries|
  {
    assert IdleSet(entries) + BusySet(entries) == entries.Keys && IdleSet(entries) !! BusySet(entries);
  }

  /** A pick out of the tree of one home fails exactly when every entry with that home is busy. */
  lemma {:induction false} PickFails(entries: map<int, Entry>, s: seq<int>, i: nat, home: Home)
    requires i <= |s| && NULL !in entries && Members(s) == HomeSet(entries, home)
    ensures var x := FirstIdle(entries, Ring(s, i));
            if x == NULL then forall y :: y in entries && HomeOf(entries[y]) == home ==> entries[y].busy
            else x in entries && HomeOf(entries[x]) == home && !entries[x].busy
  {
    var w := Ring(s, i);
    assert s == s[..i] + s[i..];
    assert Members(w) == Members(s);
    assert forall y :: y in w <==> y in Members(w);
    assert forall y :: y in entries && HomeOf(entries[y]) == home <==> y in HomeSet(entries, home);
    FirstIdleFacts(entries, w);
  }

  lemma {:induction false} TakenOut(s: seq<int>, i: nat, r: seq<int>)
    requires i < |s| && r == s[..i] + s[i + 1..] && s[i] !in r
    ensures Members(r) == Members(s) - {s[i]}
  {
    assert s == s[..i] + [s[i]] + s[i + 1..];
  }

  lemma {:induction false} PutIn(s: seq<int>, i: nat, x: int, r: seq<int>)
    requires i <= |s| && r == s[..i] + [x] + s[i..]
    ensures Members(r) == Members(s) + {x}
  {
    assert s == s[..i] + s[i..];
  }

  method TakeFrom(tree: AvlTree, x: int)
    requires tree.Valid() && x in Members(Seq(tree.t))
    modifies tree
    ensures tree.Valid() && Members(Seq(tree.t)) == old(Members(Seq(tree.t))) - {x}
  {
    ghost var s := Seq(tree.t);
    tree.Remove(x);
    ghost var i :| 0 <= i < |s| && s[i] == x && Seq(tree.t) == s[..i] + s[i + 1..];
    TakenOut(s, i, Seq(tree.t));
  }

  method PutInto(tree: AvlTree, x: int)
    requires tree.Valid() && x != NULL && x != TMP && x !in Members(Seq(tree.t))
    requires forall y :: y in Members(Seq(tree.t)) ==> tree.key(y) != tree.key(x)
    modifies tree
    ensures tree.Valid() && Members(Seq(tree.t)) == old(Members(Seq(tree.t))) + {x}
  {
    ghost var s := Seq(tree.t);
    tree.Add(x);
    ghost var i :| 0 <= i <= |s| && Seq(tree.t) == s[..i] + [x] + s[i..];
    PutIn(s, i, x, Seq(tree.t));
  }

  lemma {:induction false} HomeSetMoved(entries: map<int, Entry>, x: int, e: Entry, home: Home)
    requires x in entries
    ensures HomeSet(entries[x := e], home) ==
            if HomeOf(e) == home then HomeSet(entries, home) + {x} else HomeSet(entries, home) - {x}
  {
  }

  /** An entry whose flags change keeps its index and, where they still name the same tree, its place. */
  lemma {:induction false} EntrySet(key: int -> int, entries: map<int, Entry>, x: int, e: Entry)
    requires x in entries && Indexed(key, entries)
    ensures Indexed(key, entries[x := e])
    ensures forall home :: (HomeOf(e) == home <==> HomeOf(entries[x]) == home) ==>
                             HomeSet(entries[x := e], home) == HomeSet(entries, home)
  {
    assert entries[x := e].Keys == entries.Keys;
    forall home | HomeOf(e) == home <==> HomeOf(entries[x]) == home
      ensures HomeSet(entries[x := e], home) == HomeSet(entries, home)
    {
    }
  }

  lemma {:induction false} EntryNew(key: int -> int, entries: map<int, Entry>, x: int, e: Entry)
    requires x !in entries && Indexed(key, entries) && x != NULL && x != TMP && key(x) == |entries|
    ensures Indexed(key, entries[x := e])
    ensures HomeSet(entries[x := e], HomeOf(e)) == HomeSet(entries, HomeOf(e)) + {x}
    ensures forall home :: HomeOf(e) != home ==> HomeSet(entries[x := e], home) == HomeSet(entries, home)
  {
    assert entries[x := e].Keys == entries.Keys + {x};
    forall home | HomeOf(e) != home
      ensures HomeSet(entries[x := e], home) == HomeSet(entries, home)
    {
    }
  }

  lemma {:induction false} SomeIdle(entries: map<int, Entry>, x: int)
    requires x in entries && !entries[x].busy
    ensures |IdleSet(entries)| > 0
  {
    assert x in IdleSet(entries);
  }

  lemma {:induction false} NoNull(key: int -> int, entries: map<int, Entry>, s: seq<int>, home: Home)
    requires Indexed(key, entries) && Members(s) == HomeSet(entries, home)
    ensures NULL !in s && TMP !in s && forall x :: x in s ==> x in entries
  {
    assert forall x :: x in s ==> x in Members(s);
  }

  /** fileset_move_entry, for an entry whose flags have been changed to name the other tree. */
  method MoveEntry(ghost key: int -> int, src: AvlTree, dst: AvlTree, x: int,
                   ghost entries: map<int, Entry>, ghost e: Entry)
    requires src != dst && x in entries && Indexed(key, entries) && HomeOf(e) != HomeOf(entries[x])
    requires Keeps(key, src, entries, HomeOf(entries[x])) && Keeps(key, dst, entries, HomeOf(e))
    modifies src, dst
    ensures Keeps(key, src, entries[x := e], HomeOf(entries[x])) && Keeps(key, dst, entries[x := e], HomeOf(e))
  {
    HomeSetMoved(entries, x, e, HomeOf(entries[x]));
    HomeSetMoved(entries, x, e, HomeOf(e));
    TakeFrom(src, x);
    PutInto(dst, x);
  }

  lemma {:induction false} InHome(entries: map<int, Entry>, s: seq<int>, home: Home, x: int)
    requires x in entries && Members(s) == HomeSet(entries, home)
    ensures x in s <==> HomeOf(entries[x]) == home
  {
    assert x in s <==> x in Members(s);
  }

  datatype Call = Take(how: Choice) | Give(x: int, update: bool, now: bool, incr: int)

  /** The calls that threads make: a pick names its own thread, and what is given back is an entry. */
  ghost predicate Allowed(c: Call, entries: set<int>, maxTid: nat) {
    match c
    case Take(how) => how.InTurn? ==> how.tid < maxTid
    case Give(x, _, _, _) => x in entries
  }

  /** What a call does to the entries. A pick takes an idle entry of the wanted kind if there is one, and otherwise
      nothing; what is given back is idle, with its new flags. */
  ghost predicate Effect(c: Call, before: map<int, Entry>, after: map<int, Entry>) {
    match c
    case Take(how) =>
      if exists x :: x in before && Fit(before, how, x) then
        exists x :: x in before && Fit(before, how, x) && after == before[x := before[x].(busy := true)]
      else after == before
    case Give(x, update, make, incr) => x in before && after == before[x := Returned(before[x], update, make, incr)]
  }

  ghost predicate Fit(entries: map<int, Entry>, how: Choice, x: int) {
    x in entries && Suits(how, entries[x]) && !entries[x].busy
  }

  /** The entries before, between and after the calls. */
  ghost predicate IsTrace(calls: seq<Call>, trace: seq<map<int, Entry>>) {
    |trace| == |calls| + 1 && forall i :: 0 <= i < |calls| ==> Effect(calls[i], trace[i], trace[i + 1])
  }

  lemma {:induction false} TraceGrows(calls: seq<Call>, i: nat, trace: seq<map<int, Entry>>, entries: map<int, Entry>)
    requires i < |calls| && IsTrace(calls[..i], trace) && Effect(calls[i], trace[i], entries)
    ensures IsTrace(calls[..i + 1], trace + [entries])
  {
    var trace' := trace + [entries];
    forall j | 0 <= j < i + 1 ensures Effect(calls[..i + 1][j], trace'[j], trace'[j + 1]) {
      if j < i { assert Effect(calls[..i][j], trace[j], trace[j + 1]); }
    }
  }

  lemma {:induction false} NoneIdle(entries: map<int, Entry>)
    requires |IdleSet(entries)| == 0
    ensures forall x :: x in entries ==> entries[x].busy
  {
    forall x | x in entries ensures entries[x].busy { assert x !in IdleSet(entries); }
  }

  class Fileset {
    /** fse_index, which never changes once an entry is in the fileset. */
    const key: int -> int
    const free: AvlTree
    const made: AvlTree
    const unmade: AvlTree
    var entries: map<int, Entry>
    var idle: int
    var neRotor: int
    const exRotor: array<int>
    /** The entries picked and not yet given back. */
    ghost var out: set<int>

    function TreeOf(home: Home): AvlTree {
      match home case Free => free case Made => made case Unmade => unmade
    }

    ghost predicate Valid()
      reads this`entries, this`idle, this`out, free, made, unmade
    {
      && free != made && made != unmade && unmade != free
      && (forall home {:trigger TreeOf(home)} :: Keeps(key, TreeOf(home), entries, home))
      && Indexed(key, entries) && idle == |IdleSet(entries)| && out == BusySet(entries)
    }

    /** fileset_define: an empty fileset. */
    constructor (key: int -> int, maxTid: nat)
      ensures Valid() && this.key == key && entries == map[] && out == {} && neRotor == 0
      ensures fresh(free) && fresh(made) && fresh(unmade) && fresh(exRotor) && exRotor.Length == maxTid
    {
      this.key := key;
      free := new AvlTree(key, map[]);
      made := new AvlTree(key, map[]);
      unmade := new AvlTree(key, map[]);
      exRotor := new int[maxTid](_ => 0);
      entries, idle, neRotor, out := map[], 0, 0, {};
      new;
      assert forall home :: HomeSet(map[], home) == {} == Members(Seq(Nil));
    }

    /** fileset_populate_file: a new entry takes the next index. Nothing is picked while a fileset is populated. */
    method Populate(x: int)
      requires Valid() && out == {} && x !in entries && x != NULL && x != TMP && key(x) == idle
      modifies this`entries, this`idle, free
      ensures Valid() && entries == old(entries)[x := Entry(true, false, false, 0)]
    {
      assert TreeOf(Free) == free;
      IdleAndBusy(entries);
      NewIdle(entries, x, Entry(true, false, false, 0));
      EntryNew(key, entries, x, Entry(true, false, false, 0));
      idle := idle + 1;
      entries := entries[x := Entry(true, false, false, 0)];
      PutInto(free, x);
    }

    /** The index a pick asks for: the one supplied, a random one, or the rotor. */
    function Sought(how: Choice): int
      requires how.InTurn? ==> how.tid < exRotor.Length
      reads this`neRotor, exRotor
    {
      match how
      case Unique(index, random) => if index != 0 then index else random
      case ByIndex(_, index) => index
      case InTurn(fromMade, tid) => if fromMade then exRotor[tid] else neRotor
    }

    /** Where a pick starts to look, and what it does to the rotors. */
    method Begin(tree: AvlTree, how: Choice) returns (first: int)
      requires tree.Valid() && tree.key == key && NULL !in Seq(tree.t) && Seq(tree.t) != []
      requires how.InTurn? ==> how.tid < exRotor.Length
      modifies this`neRotor, exRotor
      ensures first == Seq(tree.t)[Origin(key, Seq(tree.t), old(Sought(how)))]
      ensures (neRotor, exRotor[..]) == old(Turned(key, Seq(tree.t), how, Sought(how), neRotor, exRotor[..]))
    {
      if how.Unique? {
        first := FindEntry(tree, if how.index != 0 then how.index else how.random);
      } else if how.ByIndex? {
        first := FindEntry(tree, how.index);
      } else if !how.made {
        first := FindEntry(tree, neRotor);
        neRotor := tree.key(first) + 1;
      } else {
        first := FindEntry(tree, exRotor[how.tid]);
        exRotor[how.tid] := tree.key(first) + 1;
      }
    }

    method Select(how: Choice) returns (tree: AvlTree)
      ensures tree == TreeOf(Wanted(how))
    {
      if how.Unique? {
        tree := free;
      } else if !how.made {
        tree := unmade;
      } else {
        tree := made;
      }
    }

    /** The entry that a pick chooses, or NULL. */
    method Choose(how: Choice, ghost tree: AvlTree) returns (x: int)
      requires tree == TreeOf(Wanted(how)) && Keeps(key, tree, entries, Wanted(how)) && Indexed(key, entries)
               && (how.InTurn? ==> how.tid < exRotor.Length)
      modifies this`neRotor, exRotor
      ensures x == if Seq(tree.t) == [] then NULL
                   else FirstIdle(entries, Ring(Seq(tree.t), Origin(key, Seq(tree.t), old(Sought(how)))))
      ensures (neRotor, exRotor[..]) == old(Turned(key, Seq(tree.t), how, Sought(how), neRotor, exRotor[..]))
      ensures if x == NULL then forall y :: y in entries && Suits(how, entries[y]) ==> entries[y].busy
              else x in entries && Suits(how, entries[x]) && !entries[x].busy
    {
      var atp := Select(how);
      NoNull(key, entries, Seq(tree.t), Wanted(how));
      if atp.numnodes == 0 {
        PickFails(entries, Seq(tree.t), 0, Wanted(how));
        return NULL;
      }
      ghost var i := Origin(key, Seq(tree.t), Sought(how));
      var first := Begin(atp, how);
      x := SkipBusy(atp, entries, first, i);
      PickFails(entries, Seq(tree.t), i, Wanted(how));
    }

    /** An entry's flags change, but not the tree they name, and the idle count with them. */
    method Write(x: int, e: Entry, count: int)
      requires Valid() && x in entries && HomeOf(e) == HomeOf(entries[x])
      requires count == idle + (if entries[x].busy then 1 else 0) - (if e.busy then 1 else 0)
      modifies this`entries, this`idle, this`out
      ensures Valid() && entries == old(entries)[x := e] && idle == count
      ensures out == if e.busy then old(out) + {x} else old(out) - {x}
    {
      SetIdle(entries, x, e);
      EntrySet(key, entries, x, e);
      idle, entries := count, entries[x := e];
      out := BusySet(entries);
    }

    /** fileset_pick for a file, once there is an idle file or no file at all. */
    method Pick(how: Choice) returns (x: int)
      requires Valid() && (idle != 0 || entries == map[]) && (how.InTurn? ==> how.tid < exRotor.Length)
      modifies this, exRotor
      ensures Valid()
      ensures var s := Seq(TreeOf(Wanted(how)).t);
              x == if s == [] then NULL else FirstIdle(old(entries), Ring(s, Origin(key, s, old(Sought(how)))))
      ensures (neRotor, exRotor[..]) == old(Turned(key, Seq(TreeOf(Wanted(how)).t), how, Sought(how), neRotor,
              exRotor[..]))
      ensures x == NULL ==> entries == old(entries) && out == old(out)
      ensures x == NULL <==> forall y :: y in old(entries) && Suits(how, old(entries)[y]) ==> y in old(out)
      ensures x != NULL ==> x in old(entries) && Suits(how, old(entries)[x]) && x !in old(out)
                            && entries == old(entries)[x := old(entries)[x].(busy := true)] && out == old(out) + {x}
    {
      x := Choose(how, TreeOf(Wanted(how)));
      if x != NULL {
        Write(x, entries[x].(busy := true), idle - 1);
      }
    }

    method MoveBetween(x: int, ghost e: Entry, src: AvlTree, dst: AvlTree)
      requires Valid() && x in entries && HomeOf(e) != HomeOf(entries[x])
      requires src == TreeOf(HomeOf(entries[x])) && dst == TreeOf(HomeOf(e))
      modifies src, dst
      ensures forall home {:trigger TreeOf(home)} :: Keeps(key, TreeOf(home), entries[x := e], home)
    {
      EntrySet(key, entries, x, e);
      MoveEntry(key, src, dst, x, entries, e);
      forall home ensures Keeps(key, TreeOf(home), entries[x := e], home) {
        if HomeOf(e) != home && HomeOf(entries[x]) != home {
          assert TreeOf(home) != src && TreeOf(home) != dst;
          assert old(Keeps(key, TreeOf(home), entries, home));
        }
      }
    }

    /** An entry's flags change and name another tree. */
    method Move(x: int, e: Entry, src: AvlTree, dst: AvlTree)
      requires Valid() && x in entries && e.busy == entries[x].busy && HomeOf(e) != HomeOf(entries[x])
      requires src == TreeOf(HomeOf(entries[x])) && dst == TreeOf(HomeOf(e))
      modifies this`entries, src, dst
      ensures Valid() && entries == old(entries)[x := e]
    {
      SetIdle(entries, x, e);
      EntrySet(key, entries, x, e);
      MoveBetween(x, e, src, dst);
      entries := entries[x := e];
    }

    /** The part of fileset_unbusy that sets or clears FSE_EXISTS. */
    method SetMade(x: int, now: bool)
      requires Valid() && x in entries
      modifies this`entries, free, made, unmade
      ensures Valid() && entries == old(entries)[x := old(entries)[x].(free := false, made := now)]
    {
      var e := entries[x];
      if now {
        if e.free {
          Move(x, e.(made := true, free := false), free, made);
        } else if !e.made {
          Move(x, e.(made := true), unmade, made);
        }
      } else {
        if e.free {
          Move(x, e.(made := false, free := false), free, unmade);
        } else if e.made {
          Move(x, e.(made := false), made, unmade);
        }
      }
    }

    /** The rest of fileset_unbusy: the open count, the busy flag and the idle count. */
    method Release(x: int, incr: int)
      requires Valid() && x in entries
      modifies this`entries, this`idle, this`out
      ensures Valid() && entries == old(entries)[x := Returned(old(entries)[x], false, false, incr)]
      ensures out == old(out) - {x} && idle > 0
    {
      var e := entries[x].(open := entries[x].open + incr);
      SomeIdle(entries[x := e.(busy := false)], x);
      if e.busy {
        Write(x, e.(busy := false), idle + 1);
      } else {
        Write(x, e, idle);
      }
    }

    /** fileset_unbusy for a file. */
    method Unbusy(x: int, update: bool, now: bool, incr: int)
      requires Valid() && x in entries
      modifies this`entries, this`idle, this`out, free, made, unmade
      ensures Valid() && entries == old(entries)[x := Returned(old(entries)[x], update, now, incr)]
      ensures out == old(out) - {x} && idle > 0
    {
      if update { SetMade(x, now); }
      Release(x, incr);
    }

    /** Every entry is in exactly one tree, which its flags name. */
    lemma {:induction false} InOneTree(x: int)
      requires Valid() && x in entries
      ensures x in Seq(free.t) <==> entries[x].free
      ensures x in Seq(made.t) <==> !entries[x].free && entries[x].made
      ensures x in Seq(unmade.t) <==> !entries[x].free && !entries[x].made
    {
      assert Keeps(key, TreeOf(Free), entries, Free) && Keeps(key, TreeOf(Made), entries, Made);
      assert Keeps(key, TreeOf(Unmade), entries, Unmade);
      InHome(entries, Seq(free.t), Free, x);
      InHome(entries, Seq(made.t), Made, x);
      InHome(entries, Seq(unmade.t), Unmade, x);
    }

    /** One call of a run. A pick that has to wait is not yet made. */
    method Step(c: Call, held: multiset<int>) returns (now: multiset<int>)
      requires Valid() && Allowed(c, entries.Keys, exRotor.Length) && held == multiset(out)
      modifies this, exRotor, free, made, unmade
      ensures Valid() && entries.Keys == old(entries).Keys && now == multiset(out)
      ensures Effect(c, old(entries), entries)
    {
      now := held;
      match c {
        case Take(how) =>
          if idle != 0 || entries == map[] {
            var x := Pick(how);
            if x != NULL { now := held + multiset{x}; }
          } else {
            NoneIdle(entries);
          }
        case Give(x, update, make, incr) =>
          Unbusy(x, update, make, incr);
          now := held - multiset{x};
      }
    }

    /** Any run of calls by any number of threads, from a fileset of which nothing is held. Every call does what it
        promises, and no entry is handed out twice at a time: the entries held at the end are distinct, they are the
        busy ones, and the rest are idle. */
    method Run(calls: seq<Call>) returns (held: multiset<int>, ghost trace: seq<map<int, Entry>>)
      requires Valid() && out == {} && forall c :: c in calls ==> Allowed(c, entries.Keys, exRotor.Length)
      modifies this, exRotor, free, made, unmade
      ensures Valid() && entries.Keys == old(entries).Keys
      ensures IsTrace(calls, trace) && trace[0] == old(entries) && trace[|calls|] == entries
      ensures held == multiset(BusySet(entries)) && |entries| == idle + |held|
    {
      held := multiset{};
      trace := [entries];
      for i := 0 to |calls|
        invariant Valid() && entries.Keys == old(entries).Keys && held == multiset(out)
        invariant IsTrace(calls[..i], trace) && trace[0] == old(entries) && trace[i] == entries
      {
        held := Step(calls[i], held);
        TraceGrows(calls, i, trace, entries);
        trace := trace + [entries];
      }
      assert calls[..|calls|] == calls;
      IdleAndBusy(entries);
    }
  }
}
