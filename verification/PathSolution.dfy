/** For analyses of the gen/kill form the solver's answer is a statement about paths:
    a forward must-analysis computes what holds along every path from the entry, a
    backward may-analysis what holds along some path onwards. */
module PathSolution {
  import opened Cfg
  import opened DataFlow

  type BlockSets = nat -> set<nat>

  // ----- Forward, intersection -----

  ghost predicate IsForwardGenKill(p: Problem, gen: BlockSets, kill: BlockSets) {
    && p.graph.Valid() && p.direction.Forward? && p.meet.Intersection?
    && (forall b :: gen(b) <= p.domain)
    && (forall x, b :: p.transfer(x, b) == TransferOutput(gen(b) + (x - kill(b)), map[]))
  }

  ghost predicate UntouchedAfter(kill: BlockSets, q: seq<nat>, i: nat, d: nat) {
    forall j :: i < j < |q| - 1 ==> d !in kill(q[j])
  }

  /** Along `q`, some block before the last one generates `d` and no block between
      it and the last one kills `d`. */
  ghost predicate ArrivesAlong(gen: BlockSets, kill: BlockSets, q: seq<nat>, d: nat) {
    exists i: nat :: i < |q| - 1 && d in gen(q[i]) && UntouchedAfter(kill, q, i, d)
  }

  ghost predicate HoldsOnAllPaths(g: Graph, gen: BlockSets, kill: BlockSets, b: nat, d: nat) {
    forall q :: IsPath(g, q, b) ==> ArrivesAlong(gen, kill, q, d)
  }

  lemma ArrivesSnoc(gen: BlockSets, kill: BlockSets, q: seq<nat>, c: nat, d: nat)
    requires q != []
    ensures var last := q[|q| - 1];
            ArrivesAlong(gen, kill, q + [c], d) <==>
            d in gen(last) || (d !in kill(last) && ArrivesAlong(gen, kill, q, d))
  {
    var r := q + [c];
    var n := |q| - 1;
    assert r[n] == q[n];
    if ArrivesAlong(gen, kill, r, d) && d !in gen(q[n]) {
      var i: nat :| i < |r| - 1 && d in gen(r[i]) && UntouchedAfter(kill, r, i, d);
      assert r[i] == q[i] && d !in kill(r[n]);
      assert forall j :: i < j < |q| - 1 ==> r[j] == q[j];
      assert UntouchedAfter(kill, q, i, d);
    }
    if d in gen(q[n]) {
      assert UntouchedAfter(kill, r, n, d);
    } else if d !in kill(q[n]) && ArrivesAlong(gen, kill, q, d) {
      var i: nat :| i < |q| - 1 && d in gen(q[i]) && UntouchedAfter(kill, q, i, d);
      assert r[i] == q[i];
      assert forall j :: i < j < |r| - 1 ==> r[j] == q[j];
      assert UntouchedAfter(kill, r, i, d);
    }
  }

  lemma ForwardWellBehaved(p: Problem, gen: BlockSets, kill: BlockSets)
    requires IsForwardGenKill(p, gen, kill)
    ensures WellBehaved(p)
  {
  }

  /** Membership in the input of a block with predecessors. */
  lemma ForwardInput(p: Problem, res: Results, b: nat, d: nat)
    requires p.graph.Valid() && p.Covers(res) && b < |p.graph.succ|
    requires p.direction.Forward? && p.meet.Intersection?
    requires forall a: nat :: a < |p.graph.succ| ==> res[a].transferOutput.neighborVals == map[]
    requires p.Neighbors(b) != []
    ensures d in NewInput(p, res, b) <==> forall a: nat :: p.graph.Edge(a, b) ==> d in res[a].transferOutput.element
  {
    var ns, ms := p.Neighbors(b), MeetInputs(p, res, b);
    NeighborsAreBlocks(p, b);
    assert forall i :: 0 <= i < |ns| ==> ms[i] == res[ns[i]].transferOutput.element;
    if d in NewInput(p, res, b) {
      forall a: nat | p.graph.Edge(a, b)
        ensures d in res[a].transferOutput.element
      {
        var i :| 0 <= i < |ns| && ns[i] == a;
        assert d in ms[i];
      }
    }
    if forall a: nat :: p.graph.Edge(a, b) ==> d in res[a].transferOutput.element {
      forall i | 0 <= i < |ms|
        ensures d in ms[i]
      {
        assert ns[i] in ns;
      }
    }
  }

  ghost predicate NoNeighborVals(p: Problem, res: Results)
    requires p.Covers(res)
  {
    forall a: nat :: a < |p.graph.succ| ==> res[a].transferOutput.neighborVals == map[]
  }

  lemma ForwardNoNeighborVals(p: Problem, gen: BlockSets, kill: BlockSets, exits: set<nat>, interior: set<nat>,
                              res: Results)
    requires IsForwardGenKill(p, gen, kill) && Solved(p, exits, interior, res)
    ensures NoNeighborVals(p, res)
  {
    forall a: nat | a < |p.graph.succ|
      ensures res[a].transferOutput.neighborVals == map[]
    {
      SolvedSound(p, exits, interior, res, a);
    }
  }

  lemma EntryInput(p: Problem, exits: set<nat>, interior: set<nat>, res: Results)
    requires p.graph.Valid() && p.direction.Forward? && Solved(p, exits, interior, res)
    ensures res[0].inSet == {}
  {
    EntryHasNoPreds(p.graph, |p.graph.succ|);
    SolvedSound(p, exits, interior, res, 0);
  }

  /** An element of a block's input set comes out of each predecessor. */
  lemma ForwardBack(p: Problem, gen: BlockSets, kill: BlockSets, exits: set<nat>, interior: set<nat>,
                    res: Results, a: nat, b: nat, d: nat)
    requires IsForwardGenKill(p, gen, kill) && Solved(p, exits, interior, res)
    requires Reachable(p.graph, a) && p.graph.Edge(a, b) && d in res[b].inSet
    ensures d in gen(a) || (d in res[a].inSet && d !in kill(a))
  {
    ReachableStep(p.graph, a, b);
    SolvedAt(p, exits, interior, res, a);
    SolvedAt(p, exits, interior, res, b);
    ForwardNoNeighborVals(p, gen, kill, exits, interior, res);
    assert a in p.Neighbors(b);
    ForwardInput(p, res, b, d);
  }

  /** Everything in the solver's input set of a block arrives along every path to it. */
  lemma {:induction false} ForwardSound(p: Problem, gen: BlockSets, kill: BlockSets, exits: set<nat>,
                                        interior: set<nat>, res: Results, q: seq<nat>, b: nat, d: nat)
    requires IsForwardGenKill(p, gen, kill) && Solved(p, exits, interior, res)
    requires IsPath(p.graph, q, b) && b < |p.graph.succ| && d in res[b].inSet
    ensures ArrivesAlong(gen, kill, q, d)
    decreases |q|
  {
    if |q| == 1 {
      EntryInput(p, exits, interior, res);
    } else {
      var a, front := q[|q| - 2], q[..|q| - 1];
      assert p.graph.Edge(a, q[|q| - 1]);
      WalkPrefix(p.graph, q, 0, b, |q| - 2);
      assert IsPath(p.graph, front, a);
      assert Reachable(p.graph, a);
      ForwardBack(p, gen, kill, exits, interior, res, a, b, d);
      if d !in gen(a) {
        ForwardSound(p, gen, kill, exits, interior, res, front, a, d);
      }
      ArrivesSnoc(gen, kill, front, b, d);
      assert front + [b] == q;
    }
  }

  /** The assignment described by paths, as a candidate solution. */
  ghost function PathInput(p: Problem, gen: BlockSets, kill: BlockSets, b: nat): set<nat> {
    set d | d in p.domain && HoldsOnAllPaths(p.graph, gen, kill, b, d)
  }

  ghost function PathResults(p: Problem, gen: BlockSets, kill: BlockSets): (s: Results)
    ensures p.Covers(s)
  {
    map b | b in p.graph.Blocks() ::
      if b in PathReached(p) then
        var input := PathInput(p, gen, kill, b);
        BlockResult(input, {}, TransferOutput(gen(b) + (input - kill(b)), map[]))
      else BlockResult({}, {}, TransferOutput(p.domain, map[]))
  }

  ghost function PathReached(p: Problem): set<nat> {
    set b | b in p.graph.Blocks() && Reachable(p.graph, b)
  }

  lemma PathInputAcross(p: Problem, gen: BlockSets, kill: BlockSets, a: nat, b: nat, d: nat)
    requires IsForwardGenKill(p, gen, kill) && p.graph.Edge(a, b) && Reachable(p.graph, a)
    requires d in PathInput(p, gen, kill, b)
    ensures d in gen(a) + (PathInput(p, gen, kill, a) - kill(a))
  {
    if d !in gen(a) {
      forall q | IsPath(p.graph, q, a)
        ensures d !in kill(a) && ArrivesAlong(gen, kill, q, d)
      {
        WalkExtend(p.graph, q, 0, a, b);
        assert IsPath(p.graph, q + [b], b);
        ArrivesSnoc(gen, kill, q, b, d);
      }
      var q :| IsPath(p.graph, q, a);
    }
  }

  lemma EntryPathInput(p: Problem, gen: BlockSets, kill: BlockSets)
    requires p.graph.Valid()
    ensures PathInput(p, gen, kill, 0) == {}
  {
    assert IsPath(p.graph, [0], 0);
    forall d | d in p.domain
      ensures !HoldsOnAllPaths(p.graph, gen, kill, 0, d)
    {
      assert !ArrivesAlong(gen, kill, [0], d);
    }
  }

  lemma PathInputBelow(p: Problem, gen: BlockSets, kill: BlockSets, b: nat)
    requires IsForwardGenKill(p, gen, kill) && b < |p.graph.succ| && Reachable(p.graph, b)
    ensures PathInput(p, gen, kill, b) <= NewInput(p, PathResults(p, gen, kill), b)
  {
    var s := PathResults(p, gen, kill);
    if p.Neighbors(b) != [] {
      forall d | d in PathInput(p, gen, kill, b)
        ensures d in NewInput(p, s, b)
      {
        forall a: nat | p.graph.Edge(a, b)
          ensures d in s[a].transferOutput.element
        {
          if Reachable(p.graph, a) {
            PathInputAcross(p, gen, kill, a, b, d);
          }
        }
        ForwardInput(p, s, b, d);
      }
    }
  }

  lemma PathResultsWithin(p: Problem, gen: BlockSets, kill: BlockSets)
    requires IsForwardGenKill(p, gen, kill)
    ensures AllWithin(p, PathResults(p, gen, kill))
  {
  }

  lemma PathIsPostSolution(p: Problem, gen: BlockSets, kill: BlockSets, order: seq<nat>, exits: set<nat>,
                           interior: set<nat>)
    requires IsForwardGenKill(p, gen, kill) && IsOrder(p, order)
    ensures PostSolution(p, order, Start(p, exits, {}, p.Bottom(), interior), PathResults(p, gen, kill))
  {
    PathResultsWithin(p, gen, kill);
    var s := PathResults(p, gen, kill);
    var start := Start(p, exits, {}, p.Bottom(), interior);
    forall b: nat | b < |p.graph.succ| && b in order
      ensures p.Neighbors(b) == [] ==> p.Input(s[b]) == p.Input(start[b])
      ensures TLe(p.meet, Visited(p, s, b).transferOutput, s[b].transferOutput)
    {
      PathStep(p, gen, kill, exits, interior, b);
    }
    forall b: nat | b < |p.graph.succ| && b !in order
      ensures TLe(p.meet, start[b].transferOutput, s[b].transferOutput)
    {
      EntryReachable(p.graph);
    }
  }

  lemma PathStep(p: Problem, gen: BlockSets, kill: BlockSets, exits: set<nat>, interior: set<nat>, b: nat)
    requires IsForwardGenKill(p, gen, kill) && b < |p.graph.succ| && Reachable(p.graph, b)
    ensures var s := PathResults(p, gen, kill);
            && (p.Neighbors(b) == [] ==> p.Input(s[b]) == p.Input(Start(p, exits, {}, p.Bottom(), interior)[b]))
            && TLe(p.meet, Visited(p, s, b).transferOutput, s[b].transferOutput)
  {
    PathInputBelow(p, gen, kill, b);
    if p.Neighbors(b) == [] {
      NoPredsIsEntry(p.graph, b);
      EntryPathInput(p, gen, kill);
    }
  }

  lemma NoPredsIsEntry(g: Graph, b: nat)
    requires Reachable(g, b)
    ensures b == 0 || g.Preds(b) != []
  {
    var q :| IsPath(g, q, b);
    if b != 0 {
      assert g.Edge(q[|q| - 2], q[|q| - 1]);
      assert q[|q| - 2] in g.Preds(b);
    }
  }

  /** The solver's input set of a reachable block is exactly what holds on all paths. */
  lemma ForwardExact(p: Problem, gen: BlockSets, kill: BlockSets, exits: set<nat>, interior: set<nat>,
                     res: Results, b: nat, d: nat)
    requires IsForwardGenKill(p, gen, kill) && Solved(p, exits, interior, res)
    requires b < |p.graph.succ| && Reachable(p.graph, b)
    ensures d in res[b].inSet <==> d in p.domain && HoldsOnAllPaths(p.graph, gen, kill, b, d)
  {
    if d in res[b].inSet {
      SolvedSound(p, exits, interior, res, b);
      forall q | IsPath(p.graph, q, b)
        ensures ArrivesAlong(gen, kill, q, d)
      {
        ForwardSound(p, gen, kill, exits, interior, res, q, b, d);
      }
    }
    if d in PathInput(p, gen, kill, b) {
      ForwardComplete(p, gen, kill, exits, interior, res, b, d);
    }
  }

  lemma ForwardComplete(p: Problem, gen: BlockSets, kill: BlockSets, exits: set<nat>, interior: set<nat>,
                        res: Results, b: nat, d: nat)
    requires IsForwardGenKill(p, gen, kill) && Solved(p, exits, interior, res)
    requires b < |p.graph.succ| && Reachable(p.graph, b) && d in PathInput(p, gen, kill, b)
    ensures d in res[b].inSet
  {
    var order :| IsOrder(p, order) && SolvedIn(p, order, exits, interior, res);
    PathIsPostSolution(p, gen, kill, order, exits, interior);
    var s := PathResults(p, gen, kill);
    assert Below(p, res, s);
    SolvedAt(p, exits, interior, res, b);
    if p.Neighbors(b) == [] {
      NoPredsIsEntry(p.graph, b);
      EntryPathInput(p, gen, kill);
    } else {
      ForwardNoNeighborVals(p, gen, kill, exits, interior, res);
      forall a: nat | p.graph.Edge(a, b)
        ensures d in res[a].transferOutput.element
      {
        if Reachable(p.graph, a) {
          PathInputAcross(p, gen, kill, a, b, d);
        }
        assert TLe(p.meet, res[a].transferOutput, s[a].transferOutput);
      }
      ForwardInput(p, res, b, d);
    }
  }

  // ----- Backward, union, with values that belong to one edge -----

  type EdgeSets = nat -> map<nat, set<nat>>

  ghost predicate IsBackwardGenKill(p: Problem, gen: BlockSets, kill: BlockSets, edge: EdgeSets) {
    && p.graph.Valid() && p.direction.Backward? && p.meet.Union?
    && (forall b :: gen(b) <= p.domain && Within(p, TransferOutput({}, edge(b))))
    && (forall x, b :: p.transfer(x, b) == TransferOutput(gen(b) + (x - kill(b)), edge(b)))
  }

  /** `w` leads to a block that uses `d`, or ends with an edge on which a phi takes
      `d`, and no block strictly in between kills `d`. */
  ghost predicate NeededAlong(gen: BlockSets, kill: BlockSets, edge: EdgeSets, w: seq<nat>, d: nat) {
    && |w| >= 2
    && (forall i :: 0 < i < |w| - 1 ==> d !in kill(w[i]))
    && (d in gen(w[|w| - 1]) || d in EdgeValue(TransferOutput({}, edge(w[|w| - 1])), w[|w| - 2]))
  }

  ghost predicate NeededOnSomePath(g: Graph, gen: BlockSets, kill: BlockSets, edge: EdgeSets, b: nat, d: nat) {
    exists w :: w != [] && IsWalk(g, w, b, w[|w| - 1]) && NeededAlong(gen, kill, edge, w, d)
  }

  lemma BackwardWellBehaved(p: Problem, gen: BlockSets, kill: BlockSets, edge: EdgeSets)
    requires IsBackwardGenKill(p, gen, kill, edge)
    ensures WellBehaved(p)
  {
    forall x, b | x <= p.domain
      ensures Within(p, p.transfer(x, b))
    {
      var t := TransferOutput({}, edge(b));
      assert Within(p, t);
      forall c: nat
        ensures EdgeValue(p.transfer(x, b), c) <= p.domain
      {
        assert EdgeValue(t, c) <= p.domain;
      }
    }
  }

  lemma BackwardInput(p: Problem, res: Results, b: nat, d: nat)
    requires p.graph.Valid() && p.Covers(res) && b < |p.graph.succ|
    requires p.direction.Backward? && p.meet.Union? && p.graph.succ[b] != []
    ensures d in NewInput(p, res, b) <==>
            exists c: nat :: p.graph.Edge(b, c) && c in res && d in EdgeValue(res[c].transferOutput, b)
  {
    var ns, ms := p.Neighbors(b), MeetInputs(p, res, b);
    NeighborsAreBlocks(p, b);
    if d in NewInput(p, res, b) {
      var i :| 0 <= i < |ms| && d in ms[i];
      assert p.graph.Edge(b, ns[i]);
    }
    if c: nat :| p.graph.Edge(b, c) && c in res && d in EdgeValue(res[c].transferOutput, b) {
      var i :| 0 <= i < |ns| && ns[i] == c;
      assert d in ms[i];
    }
  }

  /** What is needed right after an edge, or after a block that does not kill it, is in
      the output set before the edge. */
  lemma BackwardStep(p: Problem, gen: BlockSets, kill: BlockSets, edge: EdgeSets, order: seq<nat>, res: Results,
                     b: nat, c: nat, d: nat)
    requires IsBackwardGenKill(p, gen, kill, edge) && p.Covers(res) && IsSolution(p, order, res)
    requires b in order && c in order && p.graph.Edge(b, c)
    requires d in gen(c) || d in EdgeValue(TransferOutput({}, edge(c)), b) || (d in res[c].outSet && d !in kill(c))
    ensures d in res[b].outSet
  {
    assert StableAt(p, res, b) && StableAt(p, res, c);
    assert res[c].transferOutput == TransferOutput(gen(c) + (res[c].outSet - kill(c)), edge(c));
    assert d in EdgeValue(res[c].transferOutput, b);
    BackwardInput(p, res, b, d);
  }

  /** Whatever some path needs is in the solver's output set. */
  lemma {:induction false} BackwardComplete(p: Problem, gen: BlockSets, kill: BlockSets, edge: EdgeSets,
                                            order: seq<nat>, res: Results, w: seq<nat>, b: nat, d: nat)
    requires IsBackwardGenKill(p, gen, kill, edge) && p.Covers(res) && IsSolution(p, order, res)
    requires forall c: nat :: Reachable(p.graph, c) ==> c in order
    requires Reachable(p.graph, b) && w != [] && IsWalk(p.graph, w, b, w[|w| - 1])
    requires NeededAlong(gen, kill, edge, w, d)
    ensures b in res && d in res[b].outSet
    decreases |w|
  {
    var c := w[1];
    assert p.graph.Edge(w[0], c);
    ReachableStep(p.graph, b, c);
    ReachableIsBlock(p.graph, b);
    if |w| > 2 {
      WalkSuffix(p.graph, w, b, w[|w| - 1], 1);
      TailNeeded(gen, kill, edge, w, d);
      BackwardComplete(p, gen, kill, edge, order, res, w[1..], c, d);
    }
    BackwardStep(p, gen, kill, edge, order, res, b, c, d);
  }

  lemma TailNeeded(gen: BlockSets, kill: BlockSets, edge: EdgeSets, w: seq<nat>, d: nat)
    requires |w| > 2 && NeededAlong(gen, kill, edge, w, d)
    ensures d !in kill(w[1]) && NeededAlong(gen, kill, edge, w[1..], d)
  {
    var t := w[1..];
    assert forall i :: 0 < i < |t| - 1 ==> t[i] == w[i + 1];
    assert t[|t| - 1] == w[|w| - 1] && t[|t| - 2] == w[|w| - 2];
  }

  ghost function NeededSet(p: Problem, gen: BlockSets, kill: BlockSets, edge: EdgeSets, b: nat): set<nat> {
    set d | d in p.domain && NeededOnSomePath(p.graph, gen, kill, edge, b, d)
  }

  ghost function NeededResults(p: Problem, gen: BlockSets, kill: BlockSets, edge: EdgeSets): (s: Results)
    ensures p.Covers(s)
  {
    map b | b in p.graph.Blocks() ::
      var output := NeededSet(p, gen, kill, edge, b);
      BlockResult({}, output, TransferOutput(gen(b) + (output - kill(b)), edge(b)))
  }

  lemma NeededAcross(p: Problem, gen: BlockSets, kill: BlockSets, edge: EdgeSets, b: nat, c: nat, d: nat)
    requires p.graph.Valid() && p.graph.Edge(b, c) && d in p.domain
    requires d in gen(c) || d in EdgeValue(TransferOutput({}, edge(c)), b) ||
             (d !in kill(c) && NeededOnSomePath(p.graph, gen, kill, edge, c, d))
    ensures NeededOnSomePath(p.graph, gen, kill, edge, b, d)
  {
    if d in gen(c) || d in EdgeValue(TransferOutput({}, edge(c)), b) {
      assert IsWalk(p.graph, [b, c], b, c) && NeededAlong(gen, kill, edge, [b, c], d);
    } else {
      var w :| w != [] && IsWalk(p.graph, w, c, w[|w| - 1]) && NeededAlong(gen, kill, edge, w, d);
      var v := [b] + w;
      WalkCons(p.graph, w, b, c, w[|w| - 1]);
      assert forall i :: 0 < i < |v| - 1 ==> v[i] == w[i - 1];
      assert v[|v| - 2] == w[|w| - 2] && v[|v| - 1] == w[|w| - 1];
      assert NeededAlong(gen, kill, edge, v, d);
    }
  }

  /** What a neighbour offers under the path assignment is needed before the edge. */
  lemma NeededOffer(p: Problem, gen: BlockSets, kill: BlockSets, edge: EdgeSets, b: nat, c: nat, d: nat)
    requires IsBackwardGenKill(p, gen, kill, edge) && p.graph.Edge(b, c)
    requires d in EdgeValue(NeededResults(p, gen, kill, edge)[c].transferOutput, b)
    ensures d in NeededSet(p, gen, kill, edge, b)
  {
    assert Within(p, TransferOutput({}, edge(c)));
    assert EdgeValue(TransferOutput({}, edge(c)), b) <= p.domain;
    NeededAcross(p, gen, kill, edge, b, c, d);
  }

  lemma NeededStep(p: Problem, gen: BlockSets, kill: BlockSets, edge: EdgeSets, b: nat)
    requires IsBackwardGenKill(p, gen, kill, edge) && b < |p.graph.succ|
    ensures var s := NeededResults(p, gen, kill, edge);
            && NewInput(p, s, b) <= s[b].outSet <= p.domain
            && s[b].transferOutput == p.transfer(s[b].outSet, b)
            && (p.Neighbors(b) == [] ==> s[b].outSet == {})
  {
    var s := NeededResults(p, gen, kill, edge);
    if p.Neighbors(b) == [] {
      forall d
        ensures !NeededOnSomePath(p.graph, gen, kill, edge, b, d)
      {
        forall w | w != [] && IsWalk(p.graph, w, b, w[|w| - 1])
          ensures |w| < 2
        {
          assert |w| >= 2 ==> p.graph.Edge(w[0], w[1]);
        }
      }
    } else {
      forall d | d in NewInput(p, s, b)
        ensures d in s[b].outSet
      {
        BackwardInput(p, s, b, d);
        var c: nat :| p.graph.Edge(b, c) && c in s && d in EdgeValue(s[c].transferOutput, b);
        NeededOffer(p, gen, kill, edge, b, c, d);
      }
    }
  }

  lemma NeededIsPostSolution(p: Problem, gen: BlockSets, kill: BlockSets, edge: EdgeSets, order: seq<nat>,
                             exits: set<nat>)
    requires IsBackwardGenKill(p, gen, kill, edge)
    ensures PostSolution(p, order, Start(p, exits, {}, p.Bottom(), {}), NeededResults(p, gen, kill, edge))
  {
    BackwardWellBehaved(p, gen, kill, edge);
    var s := NeededResults(p, gen, kill, edge);
    var start := Start(p, exits, {}, p.Bottom(), {});
    forall b: nat | b < |p.graph.succ|
      ensures Within(p, s[b].transferOutput) && p.Input(s[b]) <= p.domain
      ensures p.Neighbors(b) == [] ==> p.Input(s[b]) == p.Input(start[b])
      ensures TLe(p.meet, Visited(p, s, b).transferOutput, s[b].transferOutput)
      ensures TLe(p.meet, start[b].transferOutput, s[b].transferOutput)
    {
      NeededStep(p, gen, kill, edge, b);
      assert Grows(p.meet, p.transfer(NewInput(p, s, b), b), p.transfer(s[b].outSet, b));
    }
  }

  /** The solver's OUT set of a reachable block is exactly what some path needs. */
  lemma BackwardExact(p: Problem, gen: BlockSets, kill: BlockSets, edge: EdgeSets, exits: set<nat>,
                      res: Results, b: nat, d: nat)
    requires IsBackwardGenKill(p, gen, kill, edge) && Solved(p, exits, {}, res)
    requires b < |p.graph.succ| && Reachable(p.graph, b)
    ensures d in res[b].outSet <==> NeededOnSomePath(p.graph, gen, kill, edge, b, d)
  {
    if w :| w != [] && IsWalk(p.graph, w, b, w[|w| - 1]) && NeededAlong(gen, kill, edge, w, d) {
      var order :| IsOrder(p, order) && SolvedIn(p, order, exits, {}, res);
      BackwardComplete(p, gen, kill, edge, order, res, w, b, d);
    }
    if d in res[b].outSet {
      BackwardSound(p, gen, kill, edge, exits, res, b, d);
    }
  }

  lemma BackwardSound(p: Problem, gen: BlockSets, kill: BlockSets, edge: EdgeSets, exits: set<nat>,
                      res: Results, b: nat, d: nat)
    requires IsBackwardGenKill(p, gen, kill, edge) && Solved(p, exits, {}, res)
    requires b < |p.graph.succ| && Reachable(p.graph, b) && d in res[b].outSet
    ensures NeededOnSomePath(p.graph, gen, kill, edge, b, d)
  {
    var order :| IsOrder(p, order) && SolvedIn(p, order, exits, {}, res);
    NeededIsPostSolution(p, gen, kill, edge, order, exits);
    var s := NeededResults(p, gen, kill, edge);
    assert Below(p, res, s);
    SolvedAt(p, exits, {}, res, b);
    SolvedSound(p, exits, {}, res, b);
    BackwardInput(p, res, b, d);
    var c: nat :| p.graph.Edge(b, c) && c in res && d in EdgeValue(res[c].transferOutput, b);
    assert TLe(p.meet, res[c].transferOutput, s[c].transferOutput);
    NeededOffer(p, gen, kill, edge, b, c, d);
  }
}
