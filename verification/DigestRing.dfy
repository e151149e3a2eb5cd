/** The forwarding of digest requests around the ring of KernFS nodes: the distributed parts of
    handle_digest_request and signal_callback in kernfs/fs.c, for one log, as steps that any
    node can take at any time. */
module DigestRing {

  /** How far the handler of the current request has come on one node. */
  datatype Phase = Idle | Got | Forwarded | Digested | Persisted | Done

  function Rank(p: Phase): nat {
    match p
    case Idle => 0
    case Got => 1
    case Forwarded => 2
    case Digested => 3
    case Persisted => 4
    case Done => 5
  }

  /** `digesting` is the flag of the log's peer on this node; `digests` and `persists` count what was done. */
  datatype Node = Node(phase: Phase, digesting: bool, digests: nat, persists: nat)

  /** The nodes, the requests and completions in flight by destination, whether LibFS waits for an
      answer, and how many requests it has made. */
  datatype Ring = Ring(nodes: seq<Node>, reqs: multiset<int>, comps: multiset<int>, outstanding: bool, round: nat)

  // ---------- Who is next and who is last, as the code computes it ----------

  function Next(n: nat, i: nat): nat
    requires n > 0
  {
    (i + 1) % n
  }

  function Prev(n: nat, i: nat): nat
    requires n > 0
  {
    (i + n - 1) % n
  }

  predicate IsLast(n: nat, r: nat, i: nat)
    requires n > 0
  {
    (r + n - 1) % n == i
  }

  // ---------- Steps ----------

  ghost predicate Start(n: nat, r: nat, s: Ring, s': Ring)
    requires n > 0
  {
    && !s.outstanding
    && s' == Ring(seq(|s.nodes|, i requires 0 <= i < |s.nodes| => s.nodes[i].(phase := Idle)),
                  s.reqs + multiset{Next(n, r)}, s.comps, true, s.round + 1)
  }

  /** A request arrives; set_peer_digesting takes the flag. */
  ghost predicate Receive(s: Ring, s': Ring, i: nat) {
    && i < |s.nodes| && i in s.reqs && s.nodes[i].phase == Idle && !s.nodes[i].digesting
    && s' == s.(nodes := s.nodes[i := s.nodes[i].(phase := Got, digesting := true)], reqs := s.reqs - multiset{i})
  }

  /** Pass the request on, unless this node is the requester's or the last one. */
  ghost predicate Forward(n: nat, r: nat, s: Ring, s': Ring, i: nat)
    requires n > 0
  {
    && i < |s.nodes| && s.nodes[i].phase == Got
    && s' == s.(nodes := s.nodes[i := s.nodes[i].(phase := Forwarded)],
                reqs := s.reqs + if i != r && !IsLast(n, r, i) then multiset{Next(n, i)} else multiset{})
  }

  /** digest_logs */
  ghost predicate Digest(s: Ring, s': Ring, i: nat) {
    && i < |s.nodes| && s.nodes[i].phase == Forwarded
    && s' == s.(nodes := s.nodes[i := s.nodes[i].(phase := Digested, digests := s.nodes[i].digests + 1)])
  }

  /** persist_dirty_objects_nvm */
  ghost predicate Persist(s: Ring, s': Ring, i: nat) {
    && i < |s.nodes| && s.nodes[i].phase == Digested
    && s' == s.(nodes := s.nodes[i := s.nodes[i].(phase := Persisted, persists := s.nodes[i].persists + 1)])
  }

  /** Answer to where the request came from: the last node right away, the others once their flag
      has been cleared by the node after them. */
  ghost predicate Respond(n: nat, r: nat, s: Ring, s': Ring, i: nat)
    requires n > 0
  {
    && i < |s.nodes| && s.nodes[i].phase == Persisted
    && (IsLast(n, r, i) || !s.nodes[i].digesting)
    && s' == s.(nodes := s.nodes[i := s.nodes[i].(phase := Done, digesting := false)], comps := s.comps
        + multiset{Prev(n, i)})
  }

  /** A completion arrives at a node of the chain and clears its flag. */
  ghost predicate Complete(r: nat, s: Ring, s': Ring, i: nat) {
    && i < |s.nodes| && i != r && i in s.comps
    && s' == s.(nodes := s.nodes[i := s.nodes[i].(digesting := false)], comps := s.comps - multiset{i})
  }

  /** The completion for LibFS arrives at the requester. */
  ghost predicate Answer(r: nat, s: Ring, s': Ring) {
    r in s.comps && s' == s.(comps := s.comps - multiset{r}, outstanding := false)
  }

  ghost predicate StepAt(n: nat, r: nat, s: Ring, s': Ring, i: nat)
    requires n > 0
  {
    || Receive(s, s', i) || Forward(n, r, s, s', i) || Digest(s, s', i) || Persist(s, s', i)
    || Respond(n, r, s, s', i) || Complete(r, s, s', i)
  }

  ghost predicate Step(n: nat, r: nat, s: Ring, s': Ring)
    requires n > 0
  {
    Start(n, r, s, s') || Answer(r, s, s') || NodeStep(n, r, s, s')
  }

  ghost predicate NodeStep(n: nat, r: nat, s: Ring, s': Ring)
    requires n > 0
  {
    exists i: nat :: StepAt(n, r, s, s', i)
  }

  ghost predicate Init(n: nat, s: Ring) {
    s == Ring(seq(n, _ => Node(Done, false, 0, 0)), multiset{}, multiset{}, false, 0)
  }

  // ---------- Chain positions ----------

  /** The node at position j of the chain: 0 is the one after the requester, n - 2 the last. */
  function At(n: nat, r: nat, j: nat): nat
    requires n > 0
  {
    (r + 1 + j) % n
  }

  function Pos(n: nat, r: nat, i: nat): int {
    if i > r then i - r - 1 else i - r - 1 + n
  }

  lemma {:induction false} Wrap(n: nat, x: nat)
    requires n > 0 && x < 2 * n
    ensures x % n == if x < n then x else x - n
  {
    if x >= n {
      assert x == n + (x - n);
      Mod(n, x - n);
    } else {
      Small(n, x);
    }
  }

  lemma {:induction false} Small(n: nat, x: nat)
    requires x < n
    ensures x % n == x
  {
  }

  lemma {:induction false} Mod(n: nat, y: nat)
    requires y < n
    ensures (n + y) % n == y
  {
    assert (n + y) / n == 1 by { assert n + y == n * ((n + y) / n) + (n + y) % n; }
  }

  lemma {:induction false} AtFacts(n: nat, r: nat, j: nat)
    requires n >= 2 && r < n && j < n - 1
    ensures At(n, r, j) < n && At(n, r, j) != r && Pos(n, r, At(n, r, j)) == j
    ensures j + 1 < n - 1 ==> Next(n, At(n, r, j)) == At(n, r, j + 1) && Prev(n, At(n, r, j + 1)) == At(n, r, j)
    ensures IsLast(n, r, At(n, r, j)) <==> j == n - 2
    ensures Next(n, r) == At(n, r, 0) && Prev(n, At(n, r, 0)) == r
  {
    Wrap(n, r + 1 + j);
    Wrap(n, r + 1);
    Wrap(n, r + n - 1);
    Wrap(n, At(n, r, j) + 1);
    Wrap(n, At(n, r, 0) + n - 1);
    if j + 1 < n - 1 {
      Wrap(n, r + 2 + j);
      Wrap(n, At(n, r, j + 1) + n - 1);
    }
  }

  lemma {:induction false} PosFacts(n: nat, r: nat, i: nat)
    requires n >= 2 && r < n && i < n && i != r
    ensures 0 <= Pos(n, r, i) < n - 1 && At(n, r, Pos(n, r, i)) == i
  {
    Wrap(n, r + 1 + Pos(n, r, i));
  }

  // ---------- The invariant ----------

  ghost predicate Shape(n: nat, r: nat, s: Ring) {
    && 2 <= n == |s.nodes| && r < n
    && (forall x :: x in s.reqs ==> 0 <= x < n) && (forall x :: x in s.comps ==> 0 <= x < n)
  }

  /** The node at position j. */
  ghost function Link(n: nat, r: nat, s: Ring, j: nat): Node
    requires Shape(n, r, s) && j < n - 1
  {
    AtFacts(n, r, j);
    s.nodes[At(n, r, j)]
  }

  /** The request for position j has been sent and not received. */
  ghost predicate Pending(n: nat, r: nat, s: Ring, j: nat)
    requires Shape(n, r, s) && j < n - 1
  {
    && Link(n, r, s, j).phase == Idle
    && if j == 0 then s.outstanding else Rank(Link(n, r, s, j - 1).phase) >= 2
  }

  ghost predicate Active(p: Phase) {
    1 <= Rank(p) <= 4
  }

  ghost predicate LinkOk(n: nat, r: nat, s: Ring, j: nat)
    requires Shape(n, r, s) && j < n - 1
  {
    var a, x := Link(n, r, s, j), At(n, r, j);
    && s.reqs[x] == (if Pending(n, r, s, j) then 1 else 0)
    && (a.digesting ==> Active(a.phase))
    && a.digests + (if Rank(a.phase) >= 3 then 0 else 1) == s.round
    && a.persists + (if Rank(a.phase) >= 4 then 0 else 1) == s.round
    && (!s.outstanding ==> a.phase == Done)
    && if j == n - 2 then
         s.comps[x] == 0 && (Active(a.phase) ==> a.digesting)
       else
         var b := Link(n, r, s, j + 1);
         && (Rank(b.phase) >= 1 ==> Rank(a.phase) >= 2)
         && (a.phase == Done ==> b.phase == Done)
         && (Active(a.phase) && !a.digesting ==> b.phase == Done)
         && s.comps[x] == (if b.phase == Done && a.digesting then 1 else 0)
  }

  ghost predicate HomeOk(n: nat, r: nat, s: Ring)
    requires Shape(n, r, s)
  {
    && !Active(s.nodes[r].phase) && !s.nodes[r].digesting && s.reqs[r] == 0
    && s.comps[r] == (if s.outstanding && Link(n, r, s, 0).phase == Done then 1 else 0)
  }

  ghost predicate Inv(n: nat, r: nat, s: Ring) {
    Shape(n, r, s) && HomeOk(n, r, s) && forall j :: 0 <= j < n - 1 ==> LinkOk(n, r, s, j)
  }

  lemma {:induction false} InitInv(n: nat, r: nat, s: Ring)
    requires n >= 2 && r < n && Init(n, s)
    ensures Inv(n, r, s)
  {
    forall j | 0 <= j < n - 1 ensures LinkOk(n, r, s, j) {
      AtFacts(n, r, j);
    }
  }

  /** Once a node of the chain is done, so are all after it. */
  lemma {:induction false} DoneSuffix(n: nat, r: nat, s: Ring, j: nat, k: nat)
    requires Inv(n, r, s) && j <= k < n - 1 && Link(n, r, s, j).phase == Done
    ensures Link(n, r, s, k).phase == Done
    decreases k - j
  {
    assert LinkOk(n, r, s, j);
    if j < k { DoneSuffix(n, r, s, j + 1, k); }
  }

  lemma {:induction false} StartInv(n: nat, r: nat, s: Ring, s': Ring)
    requires Inv(n, r, s) && Start(n, r, s, s')
    ensures Inv(n, r, s')
  {
    AtFacts(n, r, 0);
    assert Shape(n, r, s');
    forall j | 0 <= j < n - 1 ensures LinkOk(n, r, s', j) {
      assert LinkOk(n, r, s, j);
      AtFacts(n, r, j);
    }
    assert LinkOk(n, r, s, 0);
  }

  lemma {:induction false} AnswerInv(n: nat, r: nat, s: Ring, s': Ring)
    requires Inv(n, r, s) && Answer(r, s, s')
    ensures Inv(n, r, s')
  {
    assert Shape(n, r, s');
    forall j | 0 <= j < n - 1 ensures LinkOk(n, r, s', j) {
      assert LinkOk(n, r, s, j);
      DoneSuffix(n, r, s, 0, j);
      AtFacts(n, r, j);
    }
  }

  /** The positions around the one that moves. */
  lemma {:induction false} Around(n: nat, r: nat, s: Ring, s': Ring, i: nat, j: nat)
    requires Shape(n, r, s) && Shape(n, r, s') && i < n && i != r && j < n - 1
    requires s'.nodes == s.nodes[i := s'.nodes[i]]
    ensures At(n, r, j) == i <==> j == Pos(n, r, i)
    ensures Link(n, r, s', j) == if j == Pos(n, r, i) then s'.nodes[i] else Link(n, r, s, j)
  {
    AtFacts(n, r, j);
    PosFacts(n, r, i);
  }

  /** Only nodes of the chain take steps. */
  lemma {:induction false} InChain(n: nat, r: nat, s: Ring, s': Ring, i: nat)
    requires Inv(n, r, s) && StepAt(n, r, s, s', i)
    ensures i < n && i != r && Shape(n, r, s')
  {
    assert !Active(s.nodes[r].phase) && s.reqs[r] == 0;
    Wrap(n, i + 1);
    Wrap(n, i + n - 1);
  }

  /** What is known of position j and its neighbours before and after a step at node i. */
  ghost predicate Near(n: nat, r: nat, s: Ring, s': Ring, i: nat, j: nat) {
    && Inv(n, r, s) && Shape(n, r, s') && i < n && i != r && s'.nodes == s.nodes[i := s'.nodes[i]]
    && j < n - 1
  }

  lemma {:induction false} Neighbours(n: nat, r: nat, s: Ring, s': Ring, i: nat, j: nat)
    requires Near(n, r, s, s', i, j)
    ensures 0 <= Pos(n, r, i) < n - 1 && LinkOk(n, r, s, j) && LinkOk(n, r, s, Pos(n, r, i))
    ensures At(n, r, j) == i <==> j == Pos(n, r, i)
    ensures Link(n, r, s', j) == if j == Pos(n, r, i) then s'.nodes[i] else Link(n, r, s, j)
    ensures Link(n, r, s, Pos(n, r, i)) == s.nodes[i]
    ensures j > 0 ==> LinkOk(n, r, s, j - 1) && Link(n, r, s', j - 1) == if j - 1 == Pos(n, r, i) then s'.nodes[i]
            else Link(n, r, s, j - 1)
    ensures j + 1 < n - 1 ==> LinkOk(n, r, s, j + 1) && Link(n, r, s', j + 1) == if j + 1 == Pos(n, r, i)
            then s'.nodes[i] else Link(n, r, s, j + 1)
    ensures IsLast(n, r, i) <==> Pos(n, r, i) == n - 2
    ensures At(n, r, j) == Next(n, i) <==> j == Pos(n, r, i) + 1
    ensures At(n, r, j) == Prev(n, i) <==> j + 1 == Pos(n, r, i)
  {
    var k := Pos(n, r, i);
    PosFacts(n, r, i);
    AtFacts(n, r, k);
    AtFacts(n, r, j);
    Around(n, r, s, s', i, j);
    Around(n, r, s, s', i, k);
    if j > 0 { Around(n, r, s, s', i, j - 1); }
    if j + 1 < n - 1 { Around(n, r, s, s', i, j + 1); }
    if k > 0 { AtFacts(n, r, k - 1); }
    NextAt(n, r, k, j);
  }

  lemma {:induction false} NextAt(n: nat, r: nat, k: nat, j: nat)
    requires n >= 2 && r < n && k < n - 1 && j < n - 1
    ensures At(n, r, j) == Next(n, At(n, r, k)) <==> j == k + 1
    ensures At(n, r, j) == Prev(n, At(n, r, k)) <==> j + 1 == k
  {
    AtFacts(n, r, j);
    AtFacts(n, r, k);
    Wrap(n, r + 1 + k);
    Wrap(n, r + 1 + j);
    Wrap(n, At(n, r, k) + 1);
    Wrap(n, At(n, r, k) + n - 1);
  }

  lemma {:induction false} ReceiveLink(n: nat, r: nat, s: Ring, s': Ring, i: nat, j: nat)
    requires Near(n, r, s, s', i, j) && Receive(s, s', i)
    ensures LinkOk(n, r, s', j)
  {
    Neighbours(n, r, s, s', i, j);
  }

  lemma {:induction false} ForwardLink(n: nat, r: nat, s: Ring, s': Ring, i: nat, j: nat)
    requires Near(n, r, s, s', i, j) && Forward(n, r, s, s', i)
    ensures LinkOk(n, r, s', j)
  {
    Neighbours(n, r, s, s', i, j);
  }

  lemma {:induction false} DigestLink(n: nat, r: nat, s: Ring, s': Ring, i: nat, j: nat)
    requires Near(n, r, s, s', i, j) && Digest(s, s', i)
    ensures LinkOk(n, r, s', j)
  {
    Neighbours(n, r, s, s', i, j);
  }

  lemma {:induction false} PersistLink(n: nat, r: nat, s: Ring, s': Ring, i: nat, j: nat)
    requires Near(n, r, s, s', i, j) && Persist(s, s', i)
    ensures LinkOk(n, r, s', j)
  {
    Neighbours(n, r, s, s', i, j);
  }

  lemma {:induction false} RespondLink(n: nat, r: nat, s: Ring, s': Ring, i: nat, j: nat)
    requires Near(n, r, s, s', i, j) && Respond(n, r, s, s', i)
    ensures LinkOk(n, r, s', j)
  {
    Neighbours(n, r, s, s', i, j);
  }

  lemma {:induction false} CompleteLink(n: nat, r: nat, s: Ring, s': Ring, i: nat, j: nat)
    requires Near(n, r, s, s', i, j) && Complete(r, s, s', i)
    ensures LinkOk(n, r, s', j)
  {
    Neighbours(n, r, s, s', i, j);
  }

  lemma {:induction false} StepAtInv(n: nat, r: nat, s: Ring, s': Ring, i: nat)
    requires Inv(n, r, s) && StepAt(n, r, s, s', i)
    ensures Inv(n, r, s')
  {
    InChain(n, r, s, s', i);
    forall j | 0 <= j < n - 1 ensures LinkOk(n, r, s', j) {
      if Receive(s, s', i) { ReceiveLink(n, r, s, s', i, j); }
      else if Forward(n, r, s, s', i) { ForwardLink(n, r, s, s', i, j); }
      else if Digest(s, s', i) { DigestLink(n, r, s, s', i, j); }
      else if Persist(s, s', i) { PersistLink(n, r, s, s', i, j); }
      else if Respond(n, r, s, s', i) { RespondLink(n, r, s, s', i, j); }
      else { CompleteLink(n, r, s, s', i, j); }
    }
    HomeStays(n, r, s, s', i);
  }

  lemma {:induction false} HomeStays(n: nat, r: nat, s: Ring, s': Ring, i: nat)
    requires Near(n, r, s, s', i, 0) && StepAt(n, r, s, s', i)
    ensures HomeOk(n, r, s')
  {
    Neighbours(n, r, s, s', i, 0);
    PosFacts(n, r, i);
    HomeIsNot(n, r, Pos(n, r, i));
    if Respond(n, r, s, s', i) {
      HomeRespond(n, r, s, s', i);
    } else {
      assert s'.comps[r] == s.comps[r];
      assert s'.reqs[r] == 0;
    }
  }

  lemma {:induction false} HomeRespond(n: nat, r: nat, s: Ring, s': Ring, i: nat)
    requires Near(n, r, s, s', i, 0) && Respond(n, r, s, s', i)
    requires Pos(n, r, i) >= 0 && (Prev(n, i) == r <==> Pos(n, r, i) == 0)
    ensures HomeOk(n, r, s')
  {
    Neighbours(n, r, s, s', i, 0);
  }

  /** Only the first of the chain answers to the requester, and nobody forwards to it. */
  lemma {:induction false} HomeIsNot(n: nat, r: nat, k: nat)
    requires n >= 2 && r < n && k < n - 1
    ensures Prev(n, At(n, r, k)) == r <==> k == 0
    ensures k < n - 2 ==> Next(n, At(n, r, k)) != r
  {
    AtFacts(n, r, k);
    if k > 0 {
      AtFacts(n, r, k - 1);
    }
    if k < n - 2 { AtFacts(n, r, k + 1); }
  }

  lemma {:induction false} StepInv(n: nat, r: nat, s: Ring, s': Ring)
    requires Inv(n, r, s) && Step(n, r, s, s')
    ensures Inv(n, r, s')
  {
    if Start(n, r, s, s') {
      StartInv(n, r, s, s');
    } else if Answer(r, s, s') {
      AnswerInv(n, r, s, s');
    } else {
      var i: nat :| StepAt(n, r, s, s', i);
      StepAtInv(n, r, s, s', i);
    }
  }

  // ---------- Runs ----------

  ghost predicate IsRun(n: nat, r: nat, run: seq<Ring>)
    requires n > 0
  {
    run != [] && Init(n, run[0]) && forall i :: 0 <= i < |run| - 1 ==> Step(n, r, run[i], run[i + 1])
  }

  lemma {:induction false} RunInv(n: nat, r: nat, run: seq<Ring>, i: nat)
    requires n >= 2 && r < n && IsRun(n, r, run) && i < |run|
    ensures Inv(n, r, run[i])
  {
    if i == 0 {
      InitInv(n, r, run[0]);
    } else {
      RunInv(n, r, run, i - 1);
      StepInv(n, r, run[i - 1], run[i]);
    }
  }

  /** In every interleaving: a node that has answered and all nodes after it in the chain have
      digested and persisted the current request; every node has digested each request at most
      once, persisted it at most as often, and each finished one exactly once; requests never come
      round to the requester. */
  lemma {:induction false} RingSafe(n: nat, r: nat, run: seq<Ring>, i: nat, j: nat, k: nat)
    requires n >= 2 && r < n && IsRun(n, r, run) && i < |run| && j <= k < n - 1
    ensures Inv(n, r, run[i])
    ensures var s := run[i];
            && (Link(n, r, s, j).phase == Done ==>
                  Link(n, r, s, k).phase == Done && Link(n, r, s, k).digests == Link(n, r, s, k).persists == s.round)
            && Link(n, r, s, j).persists <= Link(n, r, s, j).digests
            && (Link(n, r, s, j).digests == s.round || Link(n, r, s, j).digests == s.round - 1)
            && (!s.outstanding ==> Link(n, r, s, j).digests == Link(n, r, s, j).persists == s.round
                                   && s.reqs == multiset{} && s.comps == multiset{})
            && s.reqs[r] == 0
  {
    RunInv(n, r, run, i);
    var s := run[i];
    assert LinkOk(n, r, s, j) && LinkOk(n, r, s, k);
    if Link(n, r, s, j).phase == Done { DoneSuffix(n, r, s, j, k); }
    if !s.outstanding { Quiet(n, r, s); }
  }

  lemma {:induction false} Quiet(n: nat, r: nat, s: Ring)
    requires Inv(n, r, s) && !s.outstanding
    ensures s.reqs == multiset{} && s.comps == multiset{}
  {
    forall x ensures s.reqs[x] == 0 && s.comps[x] == 0 {
      if 0 <= x < n && x != r {
        PosFacts(n, r, x);
        assert LinkOk(n, r, s, Pos(n, r, x));
      }
    }
  }

  // ---------- No request gets stuck ----------

  /** From an active node on, something can move. */
  lemma {:induction false} ActiveMoves(n: nat, r: nat, s: Ring, j: nat) returns (s': Ring)
    requires Inv(n, r, s) && j < n - 1 && Active(Link(n, r, s, j).phase)
    ensures Step(n, r, s, s')
    decreases n - j
  {
    AtFacts(n, r, j);
    assert LinkOk(n, r, s, j);
    var i := At(n, r, j);
    var a := s.nodes[i];
    if a.phase == Got {
      s' := s.(nodes := s.nodes[i := a.(phase := Forwarded)],
               reqs := s.reqs + if i != r && !IsLast(n, r, i) then multiset{Next(n, i)} else multiset{});
      assert StepAt(n, r, s, s', i);
    } else if a.phase == Forwarded {
      s' := s.(nodes := s.nodes[i := a.(phase := Digested, digests := a.digests + 1)]);
      assert StepAt(n, r, s, s', i);
    } else if a.phase == Digested {
      s' := s.(nodes := s.nodes[i := a.(phase := Persisted, persists := a.persists + 1)]);
      assert StepAt(n, r, s, s', i);
    } else if j == n - 2 || !a.digesting {
      s' := s.(nodes := s.nodes[i := a.(phase := Done, digesting := false)], comps := s.comps + multiset{Prev(n, i)});
      assert StepAt(n, r, s, s', i);
    } else {
      s' := NextMoves(n, r, s, j);
    }
  }

  lemma {:induction false} NextMoves(n: nat, r: nat, s: Ring, j: nat) returns (s': Ring)
    requires Inv(n, r, s) && j < n - 2 && Link(n, r, s, j).phase == Persisted && Link(n, r, s, j).digesting
    ensures Step(n, r, s, s')
    decreases n - j, 0
  {
    AtFacts(n, r, j);
    AtFacts(n, r, j + 1);
    assert LinkOk(n, r, s, j) && LinkOk(n, r, s, j + 1);
    var b, i := Link(n, r, s, j + 1), At(n, r, j);
    if b.phase == Done {
      s' := s.(nodes := s.nodes[i := s.nodes[i].(digesting := false)], comps := s.comps - multiset{i});
      assert StepAt(n, r, s, s', i);
    } else if b.phase == Idle {
      s' := Received(n, r, s, j + 1);
    } else {
      s' := ActiveMoves(n, r, s, j + 1);
    }
  }

  lemma {:induction false} Received(n: nat, r: nat, s: Ring, j: nat) returns (s': Ring)
    requires Inv(n, r, s) && j < n - 1 && Pending(n, r, s, j)
    ensures Step(n, r, s, s')
  {
    AtFacts(n, r, j);
    assert LinkOk(n, r, s, j);
    var i := At(n, r, j);
    s' := s.(nodes := s.nodes[i := s.nodes[i].(phase := Got, digesting := true)], reqs := s.reqs - multiset{i});
    assert StepAt(n, r, s, s', i);
  }

  /** While LibFS waits, some node or message can always move. */
  lemma {:induction false} NeverStuck(n: nat, r: nat, s: Ring) returns (s': Ring)
    requires Inv(n, r, s) && s.outstanding
    ensures Step(n, r, s, s')
  {
    AtFacts(n, r, 0);
    var p := Link(n, r, s, 0).phase;
    if p == Done {
      s' := s.(comps := s.comps - multiset{r}, outstanding := false);
    } else if p == Idle {
      s' := Received(n, r, s, 0);
    } else {
      s' := ActiveMoves(n, r, s, 0);
    }
  }

  // ---------- Every request is answered after a bounded number of steps ----------

  ghost function Weight(a: Node): nat {
    2 * Rank(a.phase) + if Active(a.phase) && !a.digesting then 1 else 0
  }

  ghost function Work(n: nat, r: nat, s: Ring, m: nat): nat
    requires Shape(n, r, s) && m <= n - 1
  {
    if m == 0 then 0 else Work(n, r, s, m - 1) + Weight(Link(n, r, s, m - 1))
  }

  lemma {:induction false} WorkBound(n: nat, r: nat, s: Ring, m: nat)
    requires Shape(n, r, s) && m <= n - 1
    ensures Work(n, r, s, m) <= 10 * m
  {
    if m > 0 { WorkBound(n, r, s, m - 1); }
  }

  lemma {:induction false} WorkGrows(n: nat, r: nat, s: Ring, s': Ring, i: nat, m: nat)
    requires Shape(n, r, s) && Shape(n, r, s') && i < n && i != r && s'.nodes == s.nodes[i := s'.nodes[i]] && m <= n - 1
    requires Weight(s'.nodes[i]) > Weight(s.nodes[i])
    ensures if Pos(n, r, i) < m then Work(n, r, s', m) > Work(n, r, s, m) else Work(n, r, s', m) == Work(n, r, s, m)
  {
    if m > 0 {
      WorkGrows(n, r, s, s', i, m - 1);
      Around(n, r, s, s', i, m - 1);
      AtFacts(n, r, m - 1);
    }
  }

  /** A completion in flight is for a node that still waits. */
  lemma {:induction false} CompleteWaits(n: nat, r: nat, s: Ring, i: nat)
    requires Inv(n, r, s) && i < n && i != r && i in s.comps
    ensures s.nodes[i].digesting && Active(s.nodes[i].phase)
  {
    PosFacts(n, r, i);
    AtFacts(n, r, Pos(n, r, i));
    assert LinkOk(n, r, s, Pos(n, r, i));
  }

  lemma {:induction false} NodeWeighs(n: nat, r: nat, s: Ring, s': Ring, i: nat)
    requires n > 0 && i < |s.nodes| && StepAt(n, r, s, s', i)
    requires Complete(r, s, s', i) ==> s.nodes[i].digesting && Active(s.nodes[i].phase)
    ensures |s'.nodes| == |s.nodes| && s'.nodes == s.nodes[i := s'.nodes[i]]
    ensures Weight(s'.nodes[i]) > Weight(s.nodes[i])
  {
  }

  lemma {:induction false} StepWeighs(n: nat, r: nat, s: Ring, s': Ring, i: nat)
    requires Inv(n, r, s) && StepAt(n, r, s, s', i)
    ensures Shape(n, r, s') && Work(n, r, s', n - 1) > Work(n, r, s, n - 1)
  {
    InChain(n, r, s, s', i);
    PosFacts(n, r, i);
    if Complete(r, s, s', i) { CompleteWaits(n, r, s, i); }
    NodeWeighs(n, r, s, s', i);
    WorkGrows(n, r, s, s', i, n - 1);
  }

  lemma {:induction false} NodeStepWorks(n: nat, r: nat, s: Ring, s': Ring)
    requires n >= 2 && Inv(n, r, s) && NodeStep(n, r, s, s')
    ensures Inv(n, r, s') && Work(n, r, s', n - 1) > Work(n, r, s, n - 1)
  {
    var i: nat :| StepAt(n, r, s, s', i);
    StepAtInv(n, r, s, s', i);
    StepWeighs(n, r, s, s', i);
  }

  ghost predicate NodeSteps(n: nat, r: nat, run: seq<Ring>)
    requires n > 0
  {
    forall k :: 0 <= k < |run| - 1 ==> NodeStep(n, r, run[k], run[k + 1])
  }

  /** Between two messages to or from LibFS there are at most 10 (n - 1) steps. */
  lemma {:induction false} RoundIsBounded(n: nat, r: nat, run: seq<Ring>, k: nat)
    requires n >= 2 && k < |run| && Inv(n, r, run[0]) && NodeSteps(n, r, run)
    ensures Inv(n, r, run[k]) && k <= Work(n, r, run[k], n - 1) <= 10 * (n - 1)
  {
    if k > 0 {
      RoundIsBounded(n, r, run, k - 1);
      assert NodeStep(n, r, run[k - 1], run[k - 1 + 1]);
      NodeStepWorks(n, r, run[k - 1], run[k]);
    }
    WorkBound(n, r, run[k], n - 1);
  }

  // ---------- Several logs at once ----------

  /** Each log has its own peer state on every node; one log takes a step at a time. */
  ghost predicate SystemStep(n: nat, home: map<int, nat>, s: map<int, Ring>, s': map<int, Ring>)
    requires n > 0
  {
    exists l :: l in home && l in s && l in s' && Step(n, home[l], s[l], s'[l]) && s' == s[l := s'[l]]
  }

  ghost predicate SystemInv(n: nat, home: map<int, nat>, s: map<int, Ring>) {
    s.Keys == home.Keys && forall l :: l in home ==> Inv(n, home[l], s[l])
  }

  lemma {:induction false} SystemSafe(n: nat, home: map<int, nat>, run: seq<map<int, Ring>>, k: nat)
    requires n >= 2 && run != [] && run[0].Keys == home.Keys && k < |run|
    requires forall l :: l in home ==> home[l] < n && Init(n, run[0][l])
    requires forall i :: 0 <= i < |run| - 1 ==> SystemStep(n, home, run[i], run[i + 1])
    ensures SystemInv(n, home, run[k])
  {
    if k == 0 {
      forall l | l in home ensures Inv(n, home[l], run[0][l]) { InitInv(n, home[l], run[0][l]); }
    } else {
      SystemSafe(n, home, run, k - 1);
      assert SystemStep(n, home, run[k - 1], run[k - 1 + 1]);
      var s, s' := run[k - 1], run[k];
      var l :| l in home && l in s && l in s' && Step(n, home[l], s[l], s'[l]) && s' == s[l := s'[l]];
      StepInv(n, home[l], s[l], s'[l]);
    }
  }
}
