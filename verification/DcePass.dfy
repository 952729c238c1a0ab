/** Dead code elimination as a whole: analysis, sweep, and what they guarantee. */
module DcePass {
  import opened Cfg
  import opened DataFlow
  import opened Ir
  import opened Dce
  import opened Sweep
  import opened SweepSsa

  // ----- Erasing unused instructions without side effects preserves meaning -----

  lemma OperandsSurvive(f: Function, dead: set<nat>, b: nat, i: nat, d: nat)
    requires Intact(f, dead) && At(f, b, i) && f.blocks[b][i].id !in dead && f.blocks[b][i].Uses(d)
    ensures d !in dead
  {
  }

  lemma SurvivorStep(f: Function, dead: set<nat>, m: Semantics, b: nat, i: nat, l: Local, l': Local)
    requires Intact(f, dead) && Harmless(f, dead) && At(f, b, i)
    requires l.world == l'.world && AgreeOff(dead, l.env, l'.env)
    ensures var s := f.blocks[b][i];
            var r, r' := Exec(m, s, l), if s.id in dead then l' else Exec(m, s, l');
            r.world == r'.world && AgreeOff(dead, r.env, r'.env)
  {
    var s := f.blocks[b][i];
    if s.id !in dead {
      forall d: nat | Ref(d) in s.ops
        ensures Lookup(l.env, d) == Lookup(l'.env, d)
      {
        OperandsSurvive(f, dead, b, i, d);
      }
      SameValues(l.env, l'.env, s.ops);
    }
  }

  lemma {:induction false} SurvivorPrefix(f: Function, dead: set<nat>, m: Semantics, b: nat, i: nat, l: Local,
                                          l': Local)
    requires Intact(f, dead) && Harmless(f, dead) && b < |f.blocks| && i <= |f.blocks[b]|
    requires l.world == l'.world && AgreeOff(dead, l.env, l'.env)
    ensures var r, r' := ExecAll(m, f.blocks[b][..i], l), ExecAll(m, Without(f.blocks[b][..i], dead), l');
            r.world == r'.world && AgreeOff(dead, r.env, r'.env)
  {
    if i > 0 {
      var s := f.blocks[b];
      SurvivorPrefix(f, dead, m, b, i - 1, l, l');
      SurvivorStep(f, dead, m, b, i - 1, ExecAll(m, s[..i - 1], l), ExecAll(m, Without(s[..i - 1], dead), l'));
      ExecOneMore(m, s, i - 1, dead, l, l');
    }
  }

  lemma SurvivorPhis(f: Function, dead: set<nat>, b: nat, p: nat, e: Env, e': Env)
    requires Intact(f, dead) && b < |f.blocks| && AgreeOff(dead, e, e')
    ensures AgreeOff(dead, PhiEnv(f.blocks[b], p, e), PhiEnv(Without(f.blocks[b], dead), p, e'))
  {
    var s := f.blocks[b];
    forall i | 0 <= i < |s| && s[i].kind.Phi? && s[i].id !in dead
      ensures Taken(s[i], p, e) == Taken(s[i], p, e')
    {
      PhiOperandSurvives(f, dead, b, i, p, e, e');
    }
    PhisAgree(s, |s|, dead, p, e, e');
    assert s[..|s|] == s;
  }

  lemma PhiOperandSurvives(f: Function, dead: set<nat>, b: nat, i: nat, p: nat, e: Env, e': Env)
    requires Intact(f, dead) && At(f, b, i) && f.blocks[b][i].id !in dead && f.blocks[b][i].kind.Phi? &&
             AgreeOff(dead, e, e')
    ensures Taken(f.blocks[b][i], p, e) == Taken(f.blocks[b][i], p, e')
  {
    var s := f.blocks[b][i];
    var op := Incoming(s.kind.from, s.ops, p, 0);
    if op.Ref? {
      var k :| 0 <= k < |s.ops| && s.ops[k] == op;
      assert s.Uses(op.id);
      OperandsSurvive(f, dead, b, i, op.id);
    }
  }

  ghost predicate Matching(dead: set<nat>, s: State, s': State) {
    Observe(s) == Observe(s') && (s.Running? ==> AgreeOff(dead, s.local.env, s'.local.env))
  }

  lemma MatchingBlock(f: Function, dead: set<nat>, m: Semantics, s: State, s': State)
    requires WellFormed(f) && Intact(f, dead) && Harmless(f, dead) && Matching(dead, s, s')
    ensures Matching(dead, Step(f, m, s), Step(Erased(f, dead), m, s'))
  {
    if s.Running? && s.block < |f.blocks| {
      var b, code := s.block, f.blocks[s.block];
      assert BlockShape(f, b);
      var i := |code| - 1;
      assert At(f, b, i) && code[i].IsRoot() && code[i].id !in dead;
      SurvivorPhis(f, dead, b, s.prev, s.local.env, s'.local.env);
      assert code[..|code|] == code;
      var kept := Without(code, dead);
      assert kept == Without(code[..i], dead) + [code[i]];
      var l, l' := Local(PhiEnv(code, s.prev, s.local.env), s.local.world),
          Local(PhiEnv(kept, s.prev, s'.local.env), s'.local.world);
      SurvivorPrefix(f, dead, m, b, |code|, l, l');
      var r, r' := ExecAll(m, code, l), ExecAll(m, kept, l');
      forall d: nat | Ref(d) in code[i].ops
        ensures Lookup(r.env, d) == Lookup(r'.env, d)
      {
        OperandsSurvive(f, dead, b, i, d);
      }
      SameValues(r.env, r'.env, code[i].ops);
    }
  }

  lemma {:induction false} MatchingRun(f: Function, dead: set<nat>, m: Semantics, l: Local, k: nat)
    requires WellFormed(f) && Intact(f, dead) && Harmless(f, dead)
    ensures Matching(dead, RunFor(f, m, Running(0, 0, l), k), RunFor(Erased(f, dead), m, Running(0, 0, l), k))
  {
    if k > 0 {
      MatchingRun(f, dead, m, l, k - 1);
      MatchingBlock(f, dead, m, RunFor(f, m, Running(0, 0, l), k - 1),
          RunFor(Erased(f, dead), m, Running(0, 0, l), k - 1));
    }
  }

  lemma ErasingPreservesMeaning(f: Function, dead: set<nat>)
    requires WellFormed(f) && Intact(f, dead) && Harmless(f, dead)
    ensures SameBehaviour(f, Erased(f, dead))
  {
    forall m, l, k: nat
      ensures Observe(RunFor(f, m, Running(0, 0, l), k)) == Observe(RunFor(Erased(f, dead), m, Running(0, 0, l), k))
    {
      MatchingRun(f, dead, m, l, k);
    }
  }

  // ----- The queue holds exactly the unneeded instructions -----

  ghost predicate Exact(f: Function, res: map<nat, BlockResult>) {
    forall b: nat, i: nat :: At(f, b, i) ==>
        b in res && (f.blocks[b][i].id in res[b].inSet <==> Needed(f, f.blocks[b][i].id))
  }

  lemma RootNeeded(f: Function, b: nat, i: nat)
    requires At(f, b, i) && f.blocks[b][i].IsRoot()
    ensures Needed(f, f.blocks[b][i].id)
  {
  }

  lemma OperandNeeded(f: Function, b: nat, i: nat, c: nat, j: nat)
    requires IsUse(f, b, i, c, j) && Needed(f, f.blocks[b][i].id)
    ensures Needed(f, f.blocks[c][j].id)
  {
  }

  lemma DoomedIsUnneeded(f: Function, res: map<nat, BlockResult>, b: nat, i: nat)
    requires Exact(f, res) && At(f, b, i)
    ensures Doomed(f.blocks[b][i], LiveAt(res, b)) <==> !Needed(f, f.blocks[b][i].id)
  {
    if f.blocks[b][i].IsRoot() {
      RootNeeded(f, b, i);
    }
  }

  lemma {:induction false} QueueContains(f: Function, order: seq<nat>, res: map<nat, BlockResult>, x: nat, i: nat)
    requires Listed(f, order) && x < |order| && At(f, order[x], i) &&
             Doomed(f.blocks[order[x]][i], LiveAt(res, order[x]))
    ensures f.blocks[order[x]][i].id in Ids(Queue(f, order, res))
  {
    var front, b := order[..|order| - 1], order[|order| - 1];
    var q, list := Queue(f, front, res), DeleteList(f.blocks[b], LiveAt(res, b));
    if x < |order| - 1 {
      assert front[x] == order[x];
      QueueContains(f, front, res, x, i);
      var k :| 0 <= k < |q| && q[k].id == f.blocks[order[x]][i].id;
      assert (q + list)[k] == q[k];
    } else {
      DeleteListMember(f.blocks[b], LiveAt(res, b), f.blocks[b][i]);
      var k :| 0 <= k < |list| && list[k] == f.blocks[b][i];
      assert (q + list)[|q| + k] == list[k];
    }
  }

  ghost predicate IsUnneeded(f: Function, d: nat) {
    IsInstr(f, d) && !Needed(f, d)
  }

  lemma QueueIsUnneeded(f: Function, order: seq<nat>, res: map<nat, BlockResult>, d: nat)
    requires Listed(f, order) && Exact(f, res) && forall b: nat :: b < |f.blocks| ==> b in order
    ensures d in Ids(Queue(f, order, res)) <==> IsUnneeded(f, d)
  {
    var q := Queue(f, order, res);
    if d in Ids(q) {
      var m :| 0 <= m < |q| && q[m].id == d;
      var c, j := QueuedFrom(f, order, res, m);
      DoomedIsUnneeded(f, res, order[c], j);
      assert DefinedIn(f, d, order[c]);
    }
    if IsUnneeded(f, d) {
      var b: nat :| DefinedIn(f, d, b);
      var i: nat :| At(f, b, i) && f.blocks[b][i].id == d;
      DoomedIsUnneeded(f, res, b, i);
      assert b in order;
      var x :| 0 <= x < |order| && order[x] == b;
      QueueContains(f, order, res, x, i);
    }
  }

  lemma QueueNonempty(f: Function, order: seq<nat>, res: map<nat, BlockResult>)
    requires Listed(f, order) && Exact(f, res) && forall b: nat :: b < |f.blocks| ==> b in order
    ensures Queue(f, order, res) != [] <==> exists d: nat :: IsUnneeded(f, d)
  {
    var q := Queue(f, order, res);
    if q != [] {
      assert q[0].id in Ids(q);
      QueueIsUnneeded(f, order, res, q[0].id);
    }
    if d: nat :| IsUnneeded(f, d) {
      QueueIsUnneeded(f, order, res, d);
    }
  }

  // ----- The order of the queue -----

  /** Where the m-th doomed instruction stands, and that the later ones precede it. */
  lemma {:induction false} DeletePosition(s: seq<Instr>, live: set<nat>, m: nat) returns (j: nat)
    requires m < |DeleteList(s, live)|
    ensures j < |s| && s[j] == DeleteList(s, live)[m] && Doomed(s[j], live)
    ensures forall i :: j < i < |s| && Doomed(s[i], live) ==> s[i].id in Ids(DeleteList(s, live)[..m])
  {
    var front, last := s[..|s| - 1], s[|s| - 1];
    var list, rest := DeleteList(s, live), DeleteList(front, live);
    if Doomed(last, live) && m == 0 {
      j := |s| - 1;
    } else {
      var n := if Doomed(last, live) then m - 1 else m;
      j := DeletePosition(front, live, n);
      assert list[..m] == if Doomed(last, live) then [last] + rest[..n] else rest[..n];
      IdsConcat([last], rest[..n]);
      forall i | j < i < |s| && Doomed(s[i], live)
        ensures s[i].id in Ids(list[..m])
      {
        if i < |s| - 1 {
          assert front[i] == s[i];
        } else {
          assert [last][0].id == s[i].id;
        }
      }
    }
  }

  /** The m-th queued instruction comes after everything queued from earlier blocks and
      after the later doomed instructions of its own block. */
  lemma {:induction false} QueuePosition(f: Function, order: seq<nat>, res: map<nat, BlockResult>, m: nat)
    returns (c: nat, j: nat)
    requires Listed(f, order) && m < |Queue(f, order, res)|
    ensures c < |order| && At(f, order[c], j) && f.blocks[order[c]][j] == Queue(f, order, res)[m]
    ensures Doomed(f.blocks[order[c]][j], LiveAt(res, order[c]))
    ensures Ids(Queue(f, order[..c], res)) <= Ids(Queue(f, order, res)[..m])
    ensures forall i :: j < i < |f.blocks[order[c]]| && Doomed(f.blocks[order[c]][i], LiveAt(res, order[c])) ==>
              f.blocks[order[c]][i].id in Ids(Queue(f, order, res)[..m])
  {
    var front, b := order[..|order| - 1], order[|order| - 1];
    var q, list := Queue(f, front, res), DeleteList(f.blocks[b], LiveAt(res, b));
    if m < |q| {
      c, j := QueuePosition(f, front, res, m);
      assert front[..c] == order[..c];
      assert (q + list)[..m] == q[..m];
    } else {
      c := |order| - 1;
      j := DeletePosition(f.blocks[b], LiveAt(res, b), m - |q|);
      assert (q + list)[..m] == q + list[..m - |q|];
      IdsConcat(q, list[..m - |q|]);
    }
  }

  // ----- Completeness -----

  /** The sweep tries the instruction at (b, i) before the one at (c, j): its block
      finishes earlier, or it stands later in the same block. */
  ghost predicate TriedBefore(g: Graph, b: nat, i: nat, c: nat, j: nat)
    requires g.Valid()
  {
    var order := PostOrder(g);
    (b == c && j < i) || exists x, y :: 0 <= x < y < |order| && order[x] == b && order[y] == c
  }

  /** Every unneeded phi is tried before the unneeded instructions it refers to. */
  ghost predicate DeadPhisFirst(f: Function)
    requires f.graph.Valid()
  {
    forall b: nat, i: nat, c: nat, j: nat ::
      IsUse(f, b, i, c, j) && f.blocks[b][i].kind.Phi? && !Needed(f, f.blocks[b][i].id) &&
          !Needed(f, f.blocks[c][j].id) ==>
        TriedBefore(f.graph, b, i, c, j)
  }

  /** With the depth-first post-order, all users of an unneeded instruction other than
      phis are tried before it: they stand later in its block, or in a block that it
      dominates, and such a block finishes first. */
  lemma UsersComeFirst(f: Function, res: map<nat, BlockResult>, m: nat)
    requires WellFormed(f) && StrictSsa(f) && AllReachable(f.graph) && Exact(f, res) && DeadPhisFirst(f)
    requires Listed(f, PostOrder(f.graph)) && m < |Queue(f, PostOrder(f.graph), res)|
    ensures var q := Queue(f, PostOrder(f.graph), res); UsersGone(f, Ids(q[..m]), q[m].id)
  {
    var order := PostOrder(f.graph);
    var q := Queue(f, order, res);
    var c, j := QueuePosition(f, order, res, m);
    forall b: nat, i: nat | At(f, b, i) && f.blocks[b][i].Uses(q[m].id)
      ensures f.blocks[b][i].id in Ids(q[..m])
    {
      UserQueuedFirst(f, res, m, c, j, b, i);
    }
  }

  lemma UserQueuedFirst(f: Function, res: map<nat, BlockResult>, m: nat, c: nat, j: nat, b: nat, i: nat)
    requires WellFormed(f) && StrictSsa(f) && AllReachable(f.graph) && Exact(f, res) && DeadPhisFirst(f)
    requires Listed(f, PostOrder(f.graph)) && m < |Queue(f, PostOrder(f.graph), res)|
    requires var order, q := PostOrder(f.graph), Queue(f, PostOrder(f.graph), res);
             && c < |order| && At(f, order[c], j) && f.blocks[order[c]][j] == q[m]
             && Doomed(f.blocks[order[c]][j], LiveAt(res, order[c]))
             && Ids(Queue(f, order[..c], res)) <= Ids(q[..m])
             && (forall i :: j < i < |f.blocks[order[c]]| && Doomed(f.blocks[order[c]][i], LiveAt(res, order[c])) ==>
                   f.blocks[order[c]][i].id in Ids(q[..m]))
    requires At(f, b, i) && f.blocks[b][i].Uses(Queue(f, PostOrder(f.graph), res)[m].id)
    ensures f.blocks[b][i].id in Ids(Queue(f, PostOrder(f.graph), res)[..m])
  {
    var order := PostOrder(f.graph);
    assert IsUse(f, b, i, order[c], j);
    assert b in f.graph.Blocks();
    assert !Needed(f, f.blocks[b][i].id) by {
      DoomedIsUnneeded(f, res, order[c], j);
      if Needed(f, f.blocks[b][i].id) {
        OperandNeeded(f, b, i, order[c], j);
      }
    }
    DoomedIsUnneeded(f, res, b, i);
    DoomedIsUnneeded(f, res, order[c], j);
    if b != order[c] || i <= j {
      PostOrderFacts(f.graph);
      var y := EarlierBlock(f, c, j, b, i);
      assert order[..c][y] == b;
      QueueContains(f, order[..c], res, y, i);
    }
  }

  /** The user's block finishes earlier, unless the user stands later in the same block. */
  lemma EarlierBlock(f: Function, c: nat, j: nat, b: nat, i: nat) returns (y: nat)
    requires WellFormed(f) && StrictSsa(f) && AllReachable(f.graph) && DeadPhisFirst(f)
    requires c < |PostOrder(f.graph)| && IsUse(f, b, i, PostOrder(f.graph)[c], j)
    requires !Needed(f, f.blocks[b][i].id) && !Needed(f, f.blocks[PostOrder(f.graph)[c]][j].id)
    requires b != PostOrder(f.graph)[c] || i <= j
    ensures y < c && PostOrder(f.graph)[y] == b
  {
    var order := PostOrder(f.graph);
    PostOrderFacts(f.graph);
    if f.blocks[b][i].kind.Phi? {
      assert TriedBefore(f.graph, b, i, order[c], j);
      var x, z :| 0 <= x < z < |order| && order[x] == b && order[z] == order[c];
      y := x;
    } else {
      assert b in f.graph.Blocks();
      assert DefBeforeUse(f, b, i, order[c], j);
      assert b in order;
      y :| 0 <= y < |order| && order[y] == b;
      DominatedFinishesFirst(f.graph, y, c);
    }
  }

  /** In the list of one block, later instructions come first. */
  lemma {:induction false} DeleteOrder(s: seq<Instr>, live: set<nat>, n: nat, m: nat) returns (i: nat, j: nat)
    requires n < m < |DeleteList(s, live)|
    ensures j < i < |s| && s[i] == DeleteList(s, live)[n] && s[j] == DeleteList(s, live)[m]
  {
    var front, last := s[..|s| - 1], s[|s| - 1];
    var rest := DeleteList(front, live);
    if !Doomed(last, live) {
      i, j := DeleteOrder(front, live, n, m);
    } else if n > 0 {
      i, j := DeleteOrder(front, live, n - 1, m - 1);
    } else {
      i := |s| - 1;
      j := DeletePosition(front, live, m - 1);
    }
  }

  lemma {:induction false} QueueOrder(f: Function, order: seq<nat>, res: map<nat, BlockResult>, n: nat, m: nat)
    returns (x: nat, i: nat, y: nat, j: nat)
    requires Listed(f, order) && n < m < |Queue(f, order, res)|
    ensures x < |order| && At(f, order[x], i) && f.blocks[order[x]][i] == Queue(f, order, res)[n]
    ensures y < |order| && At(f, order[y], j) && f.blocks[order[y]][j] == Queue(f, order, res)[m]
    ensures x < y || (x == y && j < i)
  {
    var front, b := order[..|order| - 1], order[|order| - 1];
    var q, list := Queue(f, front, res), DeleteList(f.blocks[b], LiveAt(res, b));
    if m < |q| {
      x, i, y, j := QueueOrder(f, front, res, n, m);
    } else {
      y := |order| - 1;
      if n < |q| {
        x, i := QueuedFrom(f, front, res, n);
        j := DeletePosition(f.blocks[b], LiveAt(res, b), m - |q|);
      } else {
        x := y;
        i, j := DeleteOrder(f.blocks[b], LiveAt(res, b), n - |q|, m - |q|);
      }
    }
  }

  /** When the queue has every user before what it uses, so do the phis. */
  lemma QueueOrderIsNecessary(f: Function, res: map<nat, BlockResult>)
    requires WellFormed(f) && AllReachable(f.graph) && Exact(f, res) && Listed(f, PostOrder(f.graph))
    requires UsersQueuedFirst(f, Queue(f, PostOrder(f.graph), res))
    ensures DeadPhisFirst(f)
  {
    OrderListed(f);
    forall b: nat, i: nat, c: nat, j: nat |
      IsUse(f, b, i, c, j) && f.blocks[b][i].kind.Phi? && !Needed(f, f.blocks[b][i].id) && !Needed(f, f.blocks[c][j].id)
      ensures TriedBefore(f.graph, b, i, c, j)
    {
      assert DefinedIn(f, f.blocks[c][j].id, c);
      QueueIsUnneeded(f, PostOrder(f.graph), res, f.blocks[c][j].id);
      UserTriedBefore(f, res, b, i, c, j);
    }
  }

  lemma UserTriedBefore(f: Function, res: map<nat, BlockResult>, b: nat, i: nat, c: nat, j: nat)
    requires f.graph.Valid() && UniqueIds(f) && Listed(f, PostOrder(f.graph)) && IsUse(f, b, i, c, j)
    requires UsersQueuedFirst(f, Queue(f, PostOrder(f.graph), res))
    requires f.blocks[c][j].id in Ids(Queue(f, PostOrder(f.graph), res))
    ensures TriedBefore(f.graph, b, i, c, j)
  {
    var q := Queue(f, PostOrder(f.graph), res);
    var n, m := UserFirst(f, q, b, i, f.blocks[c][j].id);
    QueuedEarlier(f, res, n, m, b, i, c, j);
  }

  lemma UserFirst(f: Function, q: seq<Instr>, b: nat, i: nat, d: nat) returns (n: nat, m: nat)
    requires UsersQueuedFirst(f, q) && d in Ids(q) && At(f, b, i) && f.blocks[b][i].Uses(d)
    ensures n < m < |q| && q[n].id == f.blocks[b][i].id && q[m].id == d
  {
    m :| 0 <= m < |q| && q[m].id == d;
    assert UsersGone(f, Ids(q[..m]), q[m].id);
    n :| 0 <= n < |q[..m]| && q[..m][n].id == f.blocks[b][i].id;
  }

  lemma QueuedEarlier(f: Function, res: map<nat, BlockResult>, n: nat, m: nat, b: nat, i: nat, c: nat, j: nat)
    requires f.graph.Valid() && UniqueIds(f) && Listed(f, PostOrder(f.graph)) && At(f, b, i) && At(f, c, j)
    requires n < m < |Queue(f, PostOrder(f.graph), res)|
    requires Queue(f, PostOrder(f.graph), res)[n].id == f.blocks[b][i].id
    requires Queue(f, PostOrder(f.graph), res)[m].id == f.blocks[c][j].id
    ensures TriedBefore(f.graph, b, i, c, j)
  {
    var order := PostOrder(f.graph);
    var x, i0, y, j0 := QueueOrder(f, order, res, n, m);
    assert SameIdSamePlace(f, order[x], i0, b, i);
    assert SameIdSamePlace(f, order[y], j0, c, j);
  }

  // ----- Exactly what goes -----

  /** The user at (b, i) of the instruction at (c, j) is erased, and was tried before it. */
  ghost predicate GoneBefore(f: Function, dead: set<nat>, b: nat, i: nat, c: nat, j: nat)
    requires f.graph.Valid() && At(f, b, i)
  {
    f.blocks[b][i].id in dead && TriedBefore(f.graph, b, i, c, j)
  }

  ghost predicate AllGoneBefore(f: Function, dead: set<nat>, c: nat, j: nat)
    requires f.graph.Valid()
  {
    forall b: nat, i: nat :: IsUse(f, b, i, c, j) ==> GoneBefore(f, dead, b, i, c, j)
  }

  /** An instruction goes exactly when it is reachable, not needed, and all its users have
      gone before its turn. */
  ghost predicate GoesExactly(f: Function, dead: set<nat>)
    requires f.graph.Valid()
  {
    forall c: nat, j: nat :: At(f, c, j) ==>
      (f.blocks[c][j].id in dead <==>
       Reachable(f.graph, c) && !Needed(f, f.blocks[c][j].id) && AllGoneBefore(f, dead, c, j))
  }

  /** The instruction at (c, j) is in use by a survivor, or by an instruction that is tried
      only after it. */
  ghost predicate IsBlocked(f: Function, dead: set<nat>, c: nat, j: nat)
    requires f.graph.Valid()
  {
    exists b: nat, i: nat :: IsUse(f, b, i, c, j) && Blocks(f, dead, b, i, c, j)
  }

  ghost predicate Blocks(f: Function, dead: set<nat>, b: nat, i: nat, c: nat, j: nat)
    requires f.graph.Valid() && At(f, b, i)
  {
    f.blocks[b][i].id !in dead || TriedBefore(f.graph, c, j, b, i)
  }

  /** What is not needed and yet survives is blocked by a user. */
  ghost predicate SurvivorsAreBlocked(f: Function, dead: set<nat>)
    requires f.graph.Valid()
  {
    forall c: nat, j: nat ::
      At(f, c, j) && Reachable(f.graph, c) && !Needed(f, f.blocks[c][j].id) && f.blocks[c][j].id !in dead ==>
        IsBlocked(f, dead, c, j)
  }

  lemma TriedOnce(g: Graph, b: nat, i: nat, c: nat, j: nat)
    requires g.Valid() && TriedBefore(g, b, i, c, j)
    ensures !TriedBefore(g, c, j, b, i)
  {
    PostOrderFacts(g);
  }

  lemma OneIsTriedFirst(g: Graph, b: nat, i: nat, c: nat, j: nat)
    requires g.Valid() && Reachable(g, b) && Reachable(g, c) && (b != c || i != j)
    ensures TriedBefore(g, b, i, c, j) || TriedBefore(g, c, j, b, i)
  {
    PostOrderFacts(g);
    var order := PostOrder(g);
    if b != c {
      var x :| 0 <= x < |order| && order[x] == b;
      var y :| 0 <= y < |order| && order[y] == c;
      assert x != y;
    }
  }

  /** The analysis marks nothing that is not needed. */
  ghost predicate MarksOnlyNeeded(f: Function, res: map<nat, BlockResult>) {
    forall b: nat, i: nat :: At(f, b, i) && f.blocks[b][i].id in LiveAt(res, b) ==> Needed(f, f.blocks[b][i].id)
  }

  lemma QueuedPlace(f: Function, res: map<nat, BlockResult>, c: nat, j: nat)
    requires WellFormed(f) && At(f, c, j) && Listed(f, PostOrder(f.graph))
    requires f.blocks[c][j].id in Ids(Queue(f, PostOrder(f.graph), res))
    ensures Reachable(f.graph, c)
  {
    var order := PostOrder(f.graph);
    var q := Queue(f, order, res);
    var m :| 0 <= m < |q| && q[m].id == f.blocks[c][j].id;
    var x, j0 := QueuedFrom(f, order, res, m);
    assert SameIdSamePlace(f, order[x], j0, c, j);
    PostOrderFacts(f.graph);
    assert c in order;
  }

  lemma UnneededIsQueued(f: Function, res: map<nat, BlockResult>, c: nat, j: nat)
    requires WellFormed(f) && At(f, c, j) && Listed(f, PostOrder(f.graph)) && MarksOnlyNeeded(f, res)
    requires Reachable(f.graph, c) && !Needed(f, f.blocks[c][j].id)
    ensures f.blocks[c][j].id in Ids(Queue(f, PostOrder(f.graph), res))
  {
    var order := PostOrder(f.graph);
    PostOrderFacts(f.graph);
    assert c in order;
    var x :| 0 <= x < |order| && order[x] == c;
    if f.blocks[c][j].IsRoot() {
      RootNeeded(f, c, j);
    }
    QueueContains(f, order, res, x, j);
  }

  /** The users of an erased instruction have gone before. */
  lemma GoneUsersBefore(f: Function, res: map<nat, BlockResult>, dead: set<nat>, c: nat, j: nat)
    requires WellFormed(f) && At(f, c, j) && Listed(f, PostOrder(f.graph)) && f.blocks[c][j].id in dead
    requires TriedInTurn(f, Queue(f, PostOrder(f.graph), res), dead)
    ensures AllGoneBefore(f, dead, c, j)
  {
    var q := Queue(f, PostOrder(f.graph), res);
    var k :| 0 <= k < |q| && q[k].id == f.blocks[c][j].id;
    assert RightAtTurn(f, q, dead, k);
    forall b: nat, i: nat | IsUse(f, b, i, c, j)
      ensures GoneBefore(f, dead, b, i, c, j)
    {
      assert f.blocks[b][i].id in dead * Ids(q[..k]);
      var n :| 0 <= n < |q[..k]| && q[..k][n].id == f.blocks[b][i].id;
      QueuedEarlier(f, res, n, k, b, i, c, j);
    }
  }

  /** A user that goes before its turn stands earlier in the queue. */
  lemma EarlierInQueue(f: Function, res: map<nat, BlockResult>, n: nat, k: nat, b: nat, i: nat, c: nat, j: nat)
    requires WellFormed(f) && Listed(f, PostOrder(f.graph)) && At(f, b, i) && At(f, c, j)
    requires n < |Queue(f, PostOrder(f.graph), res)| && k < |Queue(f, PostOrder(f.graph), res)|
    requires Queue(f, PostOrder(f.graph), res)[n].id == f.blocks[b][i].id
    requires Queue(f, PostOrder(f.graph), res)[k].id == f.blocks[c][j].id
    requires TriedBefore(f.graph, b, i, c, j)
    ensures n < k
  {
    TriedOnce(f.graph, b, i, c, j);
    assert SameIdSamePlace(f, b, i, c, j);
    if k < n {
      QueuedEarlier(f, res, k, n, c, j, b, i);
    }
  }

  lemma GoesAtItsTurn(f: Function, res: map<nat, BlockResult>, dead: set<nat>, c: nat, j: nat)
    requires WellFormed(f) && At(f, c, j) && Listed(f, PostOrder(f.graph)) && AllGoneBefore(f, dead, c, j)
    requires TriedInTurn(f, Queue(f, PostOrder(f.graph), res), dead)
    requires f.blocks[c][j].id in Ids(Queue(f, PostOrder(f.graph), res))
    ensures f.blocks[c][j].id in dead
  {
    var q := Queue(f, PostOrder(f.graph), res);
    var k :| 0 <= k < |q| && q[k].id == f.blocks[c][j].id;
    forall b: nat, i: nat | At(f, b, i) && f.blocks[b][i].Uses(q[k].id)
      ensures f.blocks[b][i].id in dead * Ids(q[..k])
    {
      assert IsUse(f, b, i, c, j);
      assert GoneBefore(f, dead, b, i, c, j);
      var n :| 0 <= n < |q| && q[n].id == f.blocks[b][i].id;
      EarlierInQueue(f, res, n, k, b, i, c, j);
      assert q[..k][n].id == f.blocks[b][i].id;
    }
    assert RightAtTurn(f, q, dead, k);
  }

  lemma SweepGoesExactly(f: Function, res: map<nat, BlockResult>, dead: set<nat>)
    requires WellFormed(f) && Listed(f, PostOrder(f.graph)) && MarksOnlyNeeded(f, res)
    requires TriedInTurn(f, Queue(f, PostOrder(f.graph), res), dead)
    requires forall d: nat :: d in dead ==> IsUnneeded(f, d)
    ensures GoesExactly(f, dead)
  {
    forall c: nat, j: nat | At(f, c, j)
      ensures f.blocks[c][j].id in dead <==>
              Reachable(f.graph, c) && !Needed(f, f.blocks[c][j].id) && AllGoneBefore(f, dead, c, j)
    {
      if f.blocks[c][j].id in dead {
        QueuedPlace(f, res, c, j);
        GoneUsersBefore(f, res, dead, c, j);
      } else if Reachable(f.graph, c) && !Needed(f, f.blocks[c][j].id) && AllGoneBefore(f, dead, c, j) {
        UnneededIsQueued(f, res, c, j);
        GoesAtItsTurn(f, res, dead, c, j);
      }
    }
  }

  lemma ExactlyMeansBlocked(f: Function, dead: set<nat>)
    requires WellFormed(f) && GoesExactly(f, dead)
    ensures SurvivorsAreBlocked(f, dead)
  {
    forall c: nat, j: nat |
      At(f, c, j) && Reachable(f.graph, c) && !Needed(f, f.blocks[c][j].id) && f.blocks[c][j].id !in dead
      ensures IsBlocked(f, dead, c, j)
    {
      assert !AllGoneBefore(f, dead, c, j);
      var b: nat, i: nat :| IsUse(f, b, i, c, j) && !GoneBefore(f, dead, b, i, c, j);
      if f.blocks[b][i].id in dead {
        OneIsTriedFirst(f.graph, b, i, c, j);
      }
      assert Blocks(f, dead, b, i, c, j);
    }
  }

  // ----- The pass -----

  ghost predicate HasReachableUnneeded(f: Function) {
    exists c: nat, j: nat :: At(f, c, j) && Reachable(f.graph, c) && !Needed(f, f.blocks[c][j].id)
  }

  /** What one run of the pass does: it erases a set of instructions that no survivor
      refers to, none of them needed, and among the reachable ones exactly those whose users
      have all gone before their turn; the function means the same as before and is again in
      strict SSA form.  It reports a change if something reachable is unneeded; when all blocks
      are reachable, it does so exactly then, and everything unneeded is gone if and only if
      each unneeded phi is tried before the unneeded instructions it refers to. */
  method RunOnFunction(body: Body, exits: set<nat>) returns (modified: bool, ghost dead: set<nat>)
    requires WellFormed(body.Fn()) && StrictSsa(body.Fn())
    modifies body
    ensures body.Fn() == Erased(old(body.Fn()), dead)
    ensures Intact(old(body.Fn()), dead)
    ensures forall d: nat :: d in dead ==> IsUnneeded(old(body.Fn()), d)
    ensures GoesExactly(old(body.Fn()), dead) && SurvivorsAreBlocked(old(body.Fn()), dead)
    ensures SameBehaviour(old(body.Fn()), body.Fn())
    ensures WellFormed(body.Fn()) && StrictSsa(body.Fn())
    ensures HasReachableUnneeded(old(body.Fn())) ==> modified
    ensures AllReachable(body.graph) ==>
              && (modified <==> exists d: nat :: IsUnneeded(old(body.Fn()), d))
              && ((forall d: nat :: IsUnneeded(old(body.Fn()), d) ==> d in dead) <==> DeadPhisFirst(old(body.Fn())))
  {
    ghost var f := body.Fn();
    var order := PostOrder(body.graph);
    TraversalFacts(DceProblem(f));
    var res := StrongLiveness(Function(body.graph, body.blocks), order, exits);
    OrderListed(f);
    modified, dead := SweepBlocks(body, order, res);
    SweepIntact(f, Queue(f, order, res));
    QueueIsHarmless(f, order, res, dead);
    forall d: nat | d in dead
      ensures IsUnneeded(f, d)
    {
      DeadIsUnneeded(f, dead, d);
    }
    SweepGoesExactly(f, res, dead);
    ExactlyMeansBlocked(f, dead);
    if HasReachableUnneeded(f) {
      var c: nat, j: nat :| At(f, c, j) && Reachable(f.graph, c) && !Needed(f, f.blocks[c][j].id);
      UnneededIsQueued(f, res, c, j);
    }
    ErasingPreservesMeaning(f, dead);
    ErasingKeepsSsa(f, dead);
    if AllReachable(f.graph) {
      QueueNonempty(f, order, res);
      SweepIsCompleteIff(f, res);
    }
  }

  lemma OrderListed(f: Function)
    requires WellFormed(f)
    ensures Listed(f, PostOrder(f.graph)) && Distinct(PostOrder(f.graph))
    ensures AllReachable(f.graph) ==> forall b: nat :: b < |f.blocks| ==> b in PostOrder(f.graph)
  {
    PostOrderFacts(f.graph);
    var order := PostOrder(f.graph);
    forall x | 0 <= x < |order|
      ensures order[x] < |f.blocks|
    {
      assert order[x] in order;
      ReachableIsBlock(f.graph, order[x]);
    }
    assert forall b: nat :: b < |f.blocks| ==> b in f.graph.Blocks();
  }

  /** Whatever the analysis says, only instructions without side effects are queued. */
  lemma QueueIsHarmless(f: Function, order: seq<nat>, res: map<nat, BlockResult>, dead: set<nat>)
    requires UniqueIds(f) && Listed(f, order) && dead <= Ids(Queue(f, order, res))
    ensures Harmless(f, dead) && forall d: nat :: d in dead ==> IsInstr(f, d)
  {
    var q := Queue(f, order, res);
    forall d: nat | d in dead
      ensures IsInstr(f, d)
    {
      var m :| 0 <= m < |q| && q[m].id == d;
      var x, j := QueuedFrom(f, order, res, m);
      assert DefinedIn(f, d, order[x]);
    }
    forall b: nat, i: nat | At(f, b, i) && f.blocks[b][i].id in dead
      ensures !f.blocks[b][i].IsRoot()
    {
      var m :| 0 <= m < |q| && q[m].id == f.blocks[b][i].id;
      var x, j := QueuedFrom(f, order, res, m);
      assert SameIdSamePlace(f, b, i, order[x], j);
    }
  }

  /** What can be erased without leaving a dangling reference is not needed: the
      survivors are closed under operands and contain the roots. */
  lemma DeadIsUnneeded(f: Function, dead: set<nat>, d: nat)
    requires Intact(f, dead) && Harmless(f, dead) && d in dead && IsInstr(f, d)
    ensures IsUnneeded(f, d)
  {
    var kept := AllIds(f) - dead;
    forall b: nat, i: nat, c: nat, j: nat | IsUse(f, b, i, c, j) && f.blocks[b][i].id in kept
      ensures f.blocks[c][j].id in kept
    {
      assert f.blocks[c][j].id in dead ==> UsersGone(f, dead, f.blocks[c][j].id);
    }
    assert NeedClosed(f, kept);
  }

  /** The queue has every user before what it uses exactly when the phis do. */
  lemma QueueOrderIff(f: Function, res: map<nat, BlockResult>)
    requires WellFormed(f) && StrictSsa(f) && AllReachable(f.graph) && Exact(f, res) && Listed(f, PostOrder(f.graph))
    ensures UsersQueuedFirst(f, Queue(f, PostOrder(f.graph), res)) <==> DeadPhisFirst(f)
  {
    var q := Queue(f, PostOrder(f.graph), res);
    if DeadPhisFirst(f) {
      forall m | 0 <= m < |q|
        ensures UsersGone(f, Ids(q[..m]), q[m].id)
      {
        UsersComeFirst(f, res, m);
      }
    }
    if UsersQueuedFirst(f, q) {
      QueueOrderIsNecessary(f, res);
    }
  }

  /** One sweep removes everything unneeded exactly when the unneeded phis come first. */
  lemma SweepIsCompleteIff(f: Function, res: map<nat, BlockResult>)
    requires WellFormed(f) && StrictSsa(f) && AllReachable(f.graph) && Exact(f, res)
    ensures Listed(f, PostOrder(f.graph))
    ensures (forall d: nat :: IsUnneeded(f, d) ==> d in ErasedBy(f, Queue(f, PostOrder(f.graph), res))) <==>
            DeadPhisFirst(f)
  {
    OrderListed(f);
    var order := PostOrder(f.graph);
    var q := Queue(f, order, res);
    QueueDistinct(f, order, res);
    QueueOrderIff(f, res);
    ErasedIsQueued(f, q);
    SweepCompleteIff(f, q);
    forall d: nat
      ensures IsUnneeded(f, d) <==> d in Ids(q)
    {
      QueueIsUnneeded(f, order, res, d);
    }
  }

  // ----- A function on which one sweep is not enough -----

  /** A loop that counts and never looks at its counter. */
  const COUNTER := Function(
    Graph([[1], [1, 2], []]),
    [[Instr(2, Term, [])],
     [Instr(0, Phi([0, 1]), [Const(0), Ref(1)]), Instr(1, Pure, [Ref(0)]), Instr(3, Term, [])],
     [Instr(4, Term, [])]])

  lemma CounterAt(b: nat, i: nat)
    requires At(COUNTER, b, i)
    ensures b < 3 && (i > 0 ==> b == 1 && i < 3)
    ensures COUNTER.blocks[b][i] ==
            if b == 0 then Instr(2, Term, [])
            else if b == 2 then Instr(4, Term, [])
            else if i == 0 then Instr(0, Phi([0, 1]), [Const(0), Ref(1)])
            else if i == 1 then Instr(1, Pure, [Ref(0)])
            else Instr(3, Term, [])
  {
  }

  lemma CounterUse(b: nat, i: nat, c: nat, j: nat)
    requires IsUse(COUNTER, b, i, c, j)
    ensures b == c == 1 && ((i == 0 && j == 1) || (i == 1 && j == 0))
  {
    CounterAt(b, i);
    CounterAt(c, j);
  }

  lemma CounterShape(b: nat)
    requires b < 3
    ensures BlockShape(COUNTER, b)
  {
    assert COUNTER.graph.Edge(0, 1) && COUNTER.graph.Edge(1, 1);
  }

  lemma CounterIsSsa()
    ensures WellFormed(COUNTER) && StrictSsa(COUNTER) && AllReachable(COUNTER.graph)
  {
    var g := COUNTER.graph;
    assert IsPath(g, [0], 0) && IsPath(g, [0, 1], 1) && IsPath(g, [0, 1, 2], 2);
    forall b: nat, i: nat, c: nat, j: nat | At(COUNTER, b, i) && At(COUNTER, c, j)
      ensures SameIdSamePlace(COUNTER, b, i, c, j)
    {
      CounterAt(b, i);
      CounterAt(c, j);
    }
    forall b: nat | b < 3
      ensures BlockShape(COUNTER, b)
    {
      CounterShape(b);
    }
    forall b: nat, i: nat, c: nat, j: nat | IsUse(COUNTER, b, i, c, j)
      ensures DefBeforeUse(COUNTER, b, i, c, j) && !COUNTER.blocks[c][j].kind.Term?
    {
      CounterUse(b, i, c, j);
      CounterAt(b, i);
      CounterAt(c, j);
      DomRefl(g, 1);
    }
  }

  lemma CounterNeeds()
    ensures NeedClosed(COUNTER, {2, 3, 4})
  {
    forall b: nat, i: nat | At(COUNTER, b, i) && COUNTER.blocks[b][i].IsRoot()
      ensures COUNTER.blocks[b][i].id in {2, 3, 4}
    {
      CounterAt(b, i);
    }
    forall b: nat, i: nat, c: nat, j: nat | IsUse(COUNTER, b, i, c, j)
      ensures COUNTER.blocks[b][i].id !in {2, 3, 4}
    {
      CounterUse(b, i, c, j);
      CounterAt(b, i);
    }
  }

  lemma CounterCycle(d: nat)
    requires d in {0, 1}
    ensures UsedWithin(COUNTER, {0, 1}, d) && DefinedIn(COUNTER, d, 1)
  {
    var user := 1 - d;
    assert At(COUNTER, 1, d) && At(COUNTER, 1, user);
    CounterAt(1, d);
    CounterAt(1, user);
  }

  lemma UnneededOutside(f: Function, kept: set<nat>, d: nat, c: nat)
    requires NeedClosed(f, kept) && d !in kept && DefinedIn(f, d, c)
    ensures IsUnneeded(f, d)
  {
  }

  /** The counter and its increment keep each other in use: neither is needed and the
      sweep erases neither. */
  lemma CounterSurvives(q: seq<Instr>, d: nat)
    requires d in {0, 1}
    ensures IsUnneeded(COUNTER, d) && d !in ErasedBy(COUNTER, q)
  {
    CounterNeeds();
    CounterCycle(d);
    UnneededOutside(COUNTER, {2, 3, 4}, d, 1);
    var cycle: set<nat> := {0, 1};
    forall x | x in cycle
      ensures UsedWithin(COUNTER, cycle, x)
    {
      CounterCycle(x);
    }
    CycleSurvives(COUNTER, q, cycle);
  }
}
