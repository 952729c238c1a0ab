/** What strong liveness says about every block, not only about the block of a definition. */
module StrongLive {
  import opened Cfg
  import opened DataFlow
  import opened Ir
  import opened PhiVals
  import opened Dce

  /** Block `c` has the root `d`, or a needed instruction other than a phi that uses `d`. */
  ghost predicate NeedsHere(f: Function, c: nat, d: nat) {
    exists i: nat :: At(f, c, i) && InstrNeeds(f, f.blocks[c][i], d)
  }

  ghost predicate InstrNeeds(f: Function, s: Instr, d: nat) {
    (s.IsRoot() && s.id == d) || (!s.kind.Phi? && Needed(f, s.id) && s.Uses(d))
  }

  /** A needed phi of `c` takes `d` when control comes from `a`. */
  ghost predicate NeedsOnEdge(f: Function, a: nat, c: nat, d: nat) {
    exists i: nat :: At(f, c, i) && Needed(f, f.blocks[c][i].id) && PhiTakes(f.blocks[c][i], AllIds(f), a, d)
  }

  ghost predicate NeededAtEnd(f: Function, w: seq<nat>, d: nat) {
    && w != []
    && (NeedsHere(f, w[|w| - 1], d) || (|w| >= 2 && NeedsOnEdge(f, w[|w| - 2], w[|w| - 1], d)))
  }

  /** `d` is an instruction, and some walk from `b` on arrives where it is needed. */
  ghost predicate StrongLiveIn(f: Function, b: nat, d: nat) {
    d in AllIds(f) && exists w :: NeededAtEnd(f, w, d) && IsWalk(f.graph, w, b, w[|w| - 1])
  }

  lemma NeedsMeansNeeded(f: Function, s: Instr, c: nat, i: nat, d: nat)
    requires At(f, c, i) && f.blocks[c][i] == s && Needed(f, s.id) && s.Uses(d) && d in AllIds(f)
    ensures Needed(f, d)
  {
    var e: nat :| DefinedIn(f, d, e);
    var j: nat :| At(f, e, j) && f.blocks[e][j].id == d;
    assert IsUse(f, c, i, e, j);
  }

  lemma StrongLiveIsNeeded(f: Function, b: nat, d: nat)
    requires StrongLiveIn(f, b, d)
    ensures Needed(f, d)
  {
    var w :| NeededAtEnd(f, w, d) && IsWalk(f.graph, w, b, w[|w| - 1]);
    var c := w[|w| - 1];
    if NeedsHere(f, c, d) {
      var i: nat :| At(f, c, i) && InstrNeeds(f, f.blocks[c][i], d);
      if !f.blocks[c][i].IsRoot() || f.blocks[c][i].id != d {
        NeedsMeansNeeded(f, f.blocks[c][i], c, i, d);
      }
    } else {
      var i: nat :| At(f, c, i) && Needed(f, f.blocks[c][i].id) && PhiTakes(f.blocks[c][i], AllIds(f), w[|w| - 2], d);
      assert f.blocks[c][i].Uses(d);
      NeedsMeansNeeded(f, f.blocks[c][i], c, i, d);
    }
  }

  // ----- Nothing else is marked -----

  ghost function LiveIds(f: Function, b: nat): set<nat> {
    set d | d in AllIds(f) && StrongLiveIn(f, b, d)
  }

  ghost function LiveResults(f: Function): (s: map<nat, BlockResult>)
    ensures DceProblem(f).Covers(s)
  {
    map b | b in f.graph.Blocks() ::
      BlockResult(LiveIds(f, b), if f.graph.succ[b] == [] then {} else LiveIds(f, b),
                  TransferOutput(LiveIds(f, b),
                                 if b < |f.blocks| then NeighborVals(f.blocks[b], LiveIds(f, b), AllIds(f)) else map[]))
  }

  lemma OpsLive(f: Function, b: nat, i: nat)
    requires WellFormed(f) && At(f, b, i) && f.blocks[b][i].id in LiveIds(f, b) && !f.blocks[b][i].kind.Phi?
    ensures OpIds(f.blocks[b][i], AllIds(f)) <= LiveIds(f, b)
  {
    var s := f.blocks[b][i];
    StrongLiveIsNeeded(f, b, s.id);
    forall d | d in OpIds(s, AllIds(f))
      ensures d in LiveIds(f, b)
    {
      assert InstrNeeds(f, s, d);
      assert NeededAtEnd(f, [b], d) && IsWalk(f.graph, [b], b, b);
    }
  }

  lemma RootsLive(f: Function, b: nat)
    requires WellFormed(f) && b < |f.blocks|
    ensures RootIds(f.blocks[b]) <= LiveIds(f, b)
  {
    var s := f.blocks[b];
    forall d | d in RootIds(s)
      ensures d in LiveIds(f, b)
    {
      var i :| 0 <= i < |s| && s[i].IsRoot() && s[i].id == d;
      assert At(f, b, i) && InstrNeeds(f, s[i], d);
      assert NeededAtEnd(f, [b], d) && IsWalk(f.graph, [b], b, b);
    }
  }

  lemma LiveStays(f: Function, x: set<nat>, b: nat)
    requires WellFormed(f) && b < |f.blocks| && x <= LiveIds(f, b)
    ensures LiveIn(f.blocks[b], x, AllIds(f)) <= LiveIds(f, b)
  {
    var s := f.blocks[b];
    RootsLive(f, b);
    forall i: nat | i < |s| && s[i].id in LiveIds(f, b) && !s[i].kind.Phi?
      ensures OpIds(s[i], AllIds(f)) <= LiveIds(f, b)
    {
      OpsLive(f, b, i);
    }
    MarkWithin(s, x + RootIds(s), AllIds(f), LiveIds(f, b));
  }

  /** What is live at a successor is live before the edge. */
  lemma LiveBack(f: Function, b: nat, c: nat)
    requires WellFormed(f) && b < |f.blocks| && f.graph.Edge(b, c)
    ensures LiveIds(f, c) <= LiveIds(f, b)
  {
    forall d | d in LiveIds(f, c)
      ensures d in LiveIds(f, b)
    {
      var w :| NeededAtEnd(f, w, d) && IsWalk(f.graph, w, c, w[|w| - 1]);
      WalkCons(f.graph, w, b, c, w[|w| - 1]);
      var v := [b] + w;
      assert v[|v| - 1] == w[|w| - 1] && (|w| >= 2 ==> v[|v| - 2] == w[|w| - 2]);
      assert NeededAtEnd(f, v, d);
    }
  }

  lemma PhiLive(f: Function, b: nat, c: nat, i: nat, d: nat)
    requires WellFormed(f) && b < |f.blocks| && At(f, c, i) && f.graph.Edge(b, c)
    requires StrongLiveIn(f, c, f.blocks[c][i].id) && PhiTakes(f.blocks[c][i], AllIds(f), b, d)
    ensures StrongLiveIn(f, b, d)
  {
    StrongLiveIsNeeded(f, c, f.blocks[c][i].id);
    assert NeedsOnEdge(f, b, c, d);
    var w := [b, c];
    assert NeededAtEnd(f, w, d) && IsWalk(f.graph, w, b, w[|w| - 1]);
  }

  lemma TakenLive(f: Function, b: nat, c: nat)
    requires WellFormed(f) && b < |f.blocks| && c < |f.blocks| && f.graph.Edge(b, c)
    ensures TakenFrom(f.blocks[c], LiveIds(f, c), AllIds(f), b) <= LiveIds(f, b)
  {
    var s := f.blocks[c];
    forall d | d in TakenFrom(s, LiveIds(f, c), AllIds(f), b)
      ensures d in LiveIds(f, b)
    {
      var i :| 0 <= i < |s| && s[i].id in LiveIds(f, c) && PhiTakes(s[i], AllIds(f), b, d);
      PhiLive(f, b, c, i, d);
    }
  }

  lemma LiveInput(f: Function, b: nat)
    requires WellFormed(f) && b < |f.blocks|
    ensures NewInput(DceProblem(f), LiveResults(f), b) <= LiveIds(f, b)
  {
    var p, s := DceProblem(f), LiveResults(f);
    var ms, ns := MeetInputs(p, s, b), p.Neighbors(b);
    NeighborsAreBlocks(p, b);
    forall i | 0 <= i < |ms|
      ensures ms[i] <= LiveIds(f, b)
    {
      assert f.graph.Edge(b, ns[i]);
      LiveBack(f, b, ns[i]);
      TakenLive(f, b, ns[i]);
    }
    MeetWithin(Union, ms, LiveIds(f, b));
  }

  lemma LiveStep(f: Function, b: nat)
    requires WellFormed(f) && b < |f.blocks|
    ensures var p, s := DceProblem(f), LiveResults(f);
            TLe(Union, Visited(p, s, b).transferOutput, s[b].transferOutput)
  {
    var p, s := DceProblem(f), LiveResults(f);
    LiveInput(f, b);
    var x := NewInput(p, s, b);
    LiveStays(f, x, b);
    NeighborValsMono(f.blocks[b], LiveIn(f.blocks[b], x, AllIds(f)), LiveIds(f, b), AllIds(f));
    EdgeMono(Visited(p, s, b).transferOutput, s[b].transferOutput);
  }

  lemma LiveWithin(f: Function)
    requires WellFormed(f)
    ensures AllWithin(DceProblem(f), LiveResults(f))
  {
    var p, s := DceProblem(f), LiveResults(f);
    forall b: nat | b < |f.blocks|
      ensures Within(p, s[b].transferOutput)
    {
      PhiSourcesAreBlocks(f, b);
    }
  }

  lemma LiveIsPostSolution(f: Function, order: seq<nat>, exits: set<nat>)
    requires WellFormed(f)
    ensures PostSolution(DceProblem(f), order, Start(DceProblem(f), exits, {}, {}, {}), LiveResults(f))
  {
    var p, s := DceProblem(f), LiveResults(f);
    var start := Start(p, exits, {}, {}, {});
    LiveWithin(f);
    forall b: nat | b < |f.blocks|
      ensures TLe(Union, Visited(p, s, b).transferOutput, s[b].transferOutput)
      ensures TLe(Union, start[b].transferOutput, s[b].transferOutput)
      ensures p.Neighbors(b) == [] ==> p.Input(s[b]) == p.Input(start[b])
    {
      LiveStep(f, b);
    }
  }

  lemma MarkedIsLive(f: Function, exits: set<nat>, res: map<nat, BlockResult>, b: nat, d: nat)
    requires WellFormed(f) && Solved(DceProblem(f), exits, {}, res) && b < |f.blocks| && d in res[b].inSet
    ensures StrongLiveIn(f, b, d)
  {
    var p := DceProblem(f);
    var order :| IsOrder(p, order) && SolvedIn(p, order, exits, {}, res);
    SolvedSound(p, exits, {}, res, b);
    LiveIsPostSolution(f, order, exits);
    assert Below(p, res, LiveResults(f));
    assert TLe(Union, res[b].transferOutput, LiveResults(f)[b].transferOutput);
  }

  // ----- All of it is marked -----

  lemma NeededHereIsMarked(f: Function, exits: set<nat>, res: map<nat, BlockResult>, c: nat, d: nat)
    requires WellFormed(f) && StrictSsa(f) && AllReachable(f.graph) && Solved(DceProblem(f), exits, {}, res)
    requires c < |f.blocks| && NeedsHere(f, c, d) && d in AllIds(f)
    ensures d in res[c].inSet
  {
    assert c in f.graph.Blocks();
    var i: nat :| At(f, c, i) && InstrNeeds(f, f.blocks[c][i], d);
    var s := f.blocks[c][i];
    if s.IsRoot() && s.id == d {
      RootIsMarked(f, exits, res, c, i);
    } else {
      DceExact(f, exits, res, c, i);
      SolvedAt(DceProblem(f), exits, {}, res, c);
      BlockUsesBackwards(f, c);
      MarkClosed(f.blocks[c], res[c].outSet + RootIds(f.blocks[c]), AllIds(f), i);
      assert d in OpIds(s, AllIds(f));
    }
  }

  lemma PhiIsOffered(f: Function, exits: set<nat>, res: map<nat, BlockResult>, a: nat, c: nat, i: nat, d: nat)
    requires WellFormed(f) && Solved(DceProblem(f), exits, {}, res) && Reachable(f.graph, c)
    requires At(f, c, i) && f.blocks[c][i].id in res[c].inSet && PhiTakes(f.blocks[c][i], AllIds(f), a, d)
    ensures d in EdgeValue(res[c].transferOutput, a)
  {
    var s := f.blocks[c][i];
    SolvedAt(DceProblem(f), exits, {}, res, c);
    var k :| 0 <= k < |s.ops| && k < |s.kind.from| && s.kind.from[k] == a && s.ops[k] == Ref(d) && d in AllIds(f);
    PhiOffers(f.blocks[c], res[c].inSet, AllIds(f), i, k, d);
  }

  lemma NeededOnEdgeIsMarked(f: Function, exits: set<nat>, res: map<nat, BlockResult>, a: nat, c: nat, d: nat)
    requires WellFormed(f) && StrictSsa(f) && AllReachable(f.graph) && Solved(DceProblem(f), exits, {}, res)
    requires f.graph.Edge(a, c) && NeedsOnEdge(f, a, c, d)
    ensures a < |f.blocks| && d in res[a].inSet
  {
    var i: nat :| At(f, c, i) && Needed(f, f.blocks[c][i].id) && PhiTakes(f.blocks[c][i], AllIds(f), a, d);
    assert a in f.graph.Blocks() && c in f.graph.Blocks();
    DceExact(f, exits, res, c, i);
    PhiIsOffered(f, exits, res, a, c, i, d);
    OfferedIsMarked(f, exits, res, a, c, d);
  }

  lemma LiveIsMarked(f: Function, exits: set<nat>, res: map<nat, BlockResult>, b: nat, d: nat)
    requires WellFormed(f) && StrictSsa(f) && AllReachable(f.graph) && Solved(DceProblem(f), exits, {}, res)
    requires b < |f.blocks| && StrongLiveIn(f, b, d)
    ensures b in res && d in res[b].inSet
  {
    var w :| NeededAtEnd(f, w, d) && IsWalk(f.graph, w, b, w[|w| - 1]);
    var c := w[|w| - 1];
    WalkInBlocks(f.graph, w, b, c);
    assert c in w && b in f.graph.Blocks();
    if NeedsHere(f, c, d) {
      NeededHereIsMarked(f, exits, res, c, d);
      FlowsBack(f, exits, res, w, b, c, d);
    } else {
      var a := w[|w| - 2];
      assert f.graph.Edge(a, c);
      NeededOnEdgeIsMarked(f, exits, res, a, c, d);
      WalkPrefix(f.graph, w, b, c, |w| - 2);
      FlowsBack(f, exits, res, w[..|w| - 1], b, a, d);
    }
  }

  /** In every block the analysis marks exactly the instructions that some walk from the
      start of the block on needs; a phi needs an operand only on the operand's edge. */
  lemma StrongLiveExact(f: Function, exits: set<nat>, res: map<nat, BlockResult>, b: nat, d: nat)
    requires WellFormed(f) && StrictSsa(f) && AllReachable(f.graph) && Solved(DceProblem(f), exits, {}, res)
    requires b < |f.blocks|
    ensures b in res && (d in res[b].inSet <==> StrongLiveIn(f, b, d))
  {
    if d in res[b].inSet {
      MarkedIsLive(f, exits, res, b, d);
    }
    if StrongLiveIn(f, b, d) {
      LiveIsMarked(f, exits, res, b, d);
    }
  }
}
