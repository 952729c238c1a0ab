/** Dominators of a function's blocks and their immediate dominators. */
module Dominance {
  import opened Cfg
  import opened DataFlow
  import opened PathSolution

  /** GEN of a block is the block itself and nothing is ever killed. */
  function SelfSet(g: Graph): nat -> set<nat> {
    b => {b} * g.Blocks()
  }

  function NoSet(): nat -> set<nat> {
    _ => {}
  }

  function DominanceProblem(g: Graph): Problem {
    Problem(g, Forward, Intersection, (x: set<nat>, b: nat) => TransferOutput(x + ({b} * g.Blocks()), map[]),
        g.Blocks())
  }

  lemma DominanceIsGenKill(g: Graph)
    requires g.Valid()
    ensures IsForwardGenKill(DominanceProblem(g), SelfSet(g), NoSet())
  {
    var p := DominanceProblem(g);
    forall x, b
      ensures p.transfer(x, b) == TransferOutput(SelfSet(g)(b) + (x - NoSet()(b)), map[])
    {
      assert x + ({b} * g.Blocks()) == SelfSet(g)(b) + (x - NoSet()(b));
    }
  }

  /** A block arrives along a path exactly when the path meets it before its end. */
  lemma ArrivesIsOnPath(g: Graph, q: seq<nat>, b: nat, d: nat)
    requires g.Valid() && IsPath(g, q, b)
    ensures ArrivesAlong(SelfSet(g), NoSet(), q, d) <==> d in q[..|q| - 1]
  {
    WalkInBlocks(g, q, 0, b);
    if d in q[..|q| - 1] {
      var i: nat :| i < |q| - 1 && q[i] == d;
      assert d in q;
      assert UntouchedAfter(NoSet(), q, i, d);
    }
  }

  lemma AllPathsIsSDom(g: Graph, b: nat, d: nat)
    requires g.Valid() && Reachable(g, b)
    ensures HoldsOnAllPaths(g, SelfSet(g), NoSet(), b, d) <==> SDom(g, d, b)
  {
    if HoldsOnAllPaths(g, SelfSet(g), NoSet(), b, d) {
      forall q | IsPath(g, q, b)
        ensures d in q
      {
        ArrivesIsOnPath(g, q, b, d);
        assert d in q[..|q| - 1];
      }
      var q := FreshPath(g, b);
      ArrivesIsOnPath(g, q, b, d);
    }
    if SDom(g, d, b) {
      forall q | IsPath(g, q, b)
        ensures ArrivesAlong(SelfSet(g), NoSet(), q, d)
      {
        assert d in q && q == q[..|q| - 1] + [b];
        ArrivesIsOnPath(g, q, b, d);
      }
    }
  }

  lemma SDomIsBlock(g: Graph, a: nat, b: nat)
    requires g.Valid() && Reachable(g, b) && Dom(g, a, b)
    ensures a < |g.succ|
  {
    DominatorReachable(g, a, b);
    ReachableIsBlock(g, a);
  }

  /** The IN sets hold strict dominance; a block that cannot be reached keeps the
      universal set it started with. */
  ghost predicate IsDominance(g: Graph, res: Results) {
    && DominanceProblem(g).Covers(res)
    && (forall y: nat, x: nat :: y < |g.succ| && Reachable(g, y) ==> (x in res[y].inSet <==> SDom(g, x, y)))
    && (forall y: nat :: y < |g.succ| && !Reachable(g, y) ==> res[y].inSet == g.Blocks())
  }

  /** Strict dominance, for any order of visiting that starts with the entry block. */
  method ComputeDom(g: Graph, order: seq<nat>) returns (res: Results)
    requires g.Valid() && IsOrder(DominanceProblem(g), order)
    ensures IsDominance(g, res)
  {
    var p := DominanceProblem(g);
    DominanceIsGenKill(g);
    ForwardWellBehaved(p, SelfSet(g), NoSet());
    res := Run(p, order, {}, g.Blocks(), g.Blocks());
    forall y: nat | y < |g.succ|
      ensures Reachable(g, y) ==> forall x: nat :: x in res[y].inSet <==> SDom(g, x, y)
      ensures !Reachable(g, y) ==> res[y].inSet == g.Blocks()
    {
      if Reachable(g, y) {
        forall x: nat
          ensures x in res[y].inSet <==> SDom(g, x, y)
        {
          ForwardExact(p, SelfSet(g), NoSet(), {}, g.Blocks(), res, y, x);
          AllPathsIsSDom(g, y, x);
          if SDom(g, x, y) {
            SDomIsBlock(g, x, y);
          }
        }
      } else {
        Unreached(g, res, y);
      }
    }
  }

  lemma Unreached(g: Graph, res: Results, y: nat)
    requires g.Valid() && Solved(DominanceProblem(g), {}, g.Blocks(), res)
    requires y < |g.succ| && !Reachable(g, y)
    ensures res[y].inSet == g.Blocks()
  {
    var p := DominanceProblem(g);
    EntryReachable(g);
    SolvedSound(p, {}, g.Blocks(), res, y);
  }

  // ----- Why the entry must come first -----

  /** The entry block and one block that loops. */
  const SELF_LOOP := Graph([[1], [1]])

  lemma SelfLoopVisit(res: Results)
    requires SELF_LOOP.Valid() && DominanceProblem(SELF_LOOP).Covers(res)
    requires res[0].transferOutput.neighborVals == map[] && res[1].transferOutput.neighborVals == map[]
    ensures var p, input := DominanceProblem(SELF_LOOP), res[0].transferOutput.element * res[1].transferOutput.element;
            Visited(p, res, 1) == BlockResult(input, input + {1}, TransferOutput(input + {1}, map[]))
    ensures var p, input := DominanceProblem(SELF_LOOP), res[0].inSet;
            Visited(p, res, 0) == BlockResult(input, input + {0}, TransferOutput(input + {0}, map[]))
  {
    var p := DominanceProblem(SELF_LOOP);
    EntryHasNoPreds(SELF_LOOP, 2);
    assert {0} * SELF_LOOP.Blocks() == {0} && {1} * SELF_LOOP.Blocks() == {1};
    assert SELF_LOOP.Edge(0, 1) && SELF_LOOP.Edge(1, 1) && 0 in p.Neighbors(1);
    forall d: nat
      ensures d in NewInput(p, res, 1) <==> d in res[0].transferOutput.element && d in res[1].transferOutput.element
    {
      ForwardInput(p, res, 1, d);
    }
    assert NewInput(p, res, 1) == res[0].transferOutput.element * res[1].transferOutput.element;
  }

  /** Visiting the loop before the entry ends in a solution that misses a dominator: the
      entry's output starts at the empty set, and what it takes away never comes back. */
  lemma EntryFirstMatters()
    ensures SELF_LOOP.Valid() && SDom(SELF_LOOP, 0, 1)
    ensures var p := DominanceProblem(SELF_LOOP);
            var start := Start(p, {}, {}, p.Bottom(), SELF_LOOP.Blocks());
            var first := start[1 := Visited(p, start, 1)];
            var second := first[0 := Visited(p, first, 0)];
            IsSolution(p, [1, 0], second) && 0 !in second[1].inSet
  {
    var g, p := SELF_LOOP, DominanceProblem(SELF_LOOP);
    assert g.Valid();
    EntryDominates(g, 1);
    var start := Start(p, {}, {}, p.Bottom(), g.Blocks());
    SelfLoopVisit(start);
    var first := start[1 := Visited(p, start, 1)];
    assert first[1] == BlockResult({}, {1}, TransferOutput({1}, map[])) by {
      assert start[0].transferOutput.element * start[1].transferOutput.element == {};
      assert {} + {1} == {1};
    }
    SelfLoopVisit(first);
    var second := first[0 := Visited(p, first, 0)];
    assert second[0] == BlockResult({}, {0}, TransferOutput({0}, map[])) by {
      assert {} + {0} == {0};
    }
    SelfLoopVisit(second);
    assert {0} * {1} == {};
  }

  // ----- Immediate dominators -----

  /** The look-up `dominates` of the pass: strict dominance of `y` by `x`. */
  predicate Dominates(res: Results, x: nat, y: nat)
    requires y in res
  {
    x in res[y].inSet
  }

  /** `a` dominates `b` and no third block lies between them. */
  ghost predicate IsCandidate(res: Results, n: nat, a: nat, b: nat)
    requires forall y: nat :: y < n ==> y in res
  {
    && a < n && b < n && a != b && Dominates(res, a, b)
    && forall c: nat :: c < n && c != a && c != b ==> !(Dominates(res, a, c) && Dominates(res, c, b))
  }

  /** The assertion of the pass that a block gets one immediate dominator only. */
  datatype IdomResult = Idom(parent: map<nat, nat>) | AlreadyPresent(block: nat)

  ghost predicate CandidatesBelow(res: Results, n: nat, b: nat, limit: nat, idom: map<nat, nat>)
    requires forall y: nat :: y < n ==> y in res
  {
    && (b in idom ==> idom[b] < limit && IsCandidate(res, n, idom[b], b))
    && (forall a: nat :: a < limit && IsCandidate(res, n, a, b) ==> b in idom && idom[b] == a)
  }

  method ComputeIdom(res: Results, n: nat) returns (r: IdomResult)
    requires forall y: nat :: y < n ==> y in res
    ensures r.Idom? ==> r.parent.Keys <= Upto(n) && forall b: nat :: b < n ==> CandidatesBelow(res, n, b, n, r.parent)
    ensures r.AlreadyPresent? <==> TwoCandidates(res, n)
  {
    var idom: map<nat, nat> := map[];
    for b := 0 to n
      invariant idom.Keys <= Upto(b)
      invariant forall x: nat :: x < b ==> CandidatesBelow(res, n, x, n, idom)
    {
      assert CandidatesBelow(res, n, b, 0, idom);
      for a := 0 to n
        invariant idom.Keys <= Upto(b + 1)
        invariant forall x: nat :: x < b ==> CandidatesBelow(res, n, x, n, idom)
        invariant CandidatesBelow(res, n, b, a, idom)
      {
        if a != b && Dominates(res, a, b) {
          var isIdom := HasNothingBetween(res, n, a, b);
          if isIdom {
            assert IsCandidate(res, n, a, b);
            if b in idom {
              return AlreadyPresent(b);
            }
            ghost var before := idom;
            idom := idom[b := a];
            forall x: nat | x < b
              ensures CandidatesBelow(res, n, x, n, idom)
            {
              assert CandidatesBelow(res, n, x, n, before);
            }
          }
        }
      }
    }
    OneCandidateEach(res, n, idom);
    r := Idom(idom);
  }

  lemma OneCandidateEach(res: Results, n: nat, idom: map<nat, nat>)
    requires forall y: nat :: y < n ==> y in res
    requires forall b: nat :: b < n ==> CandidatesBelow(res, n, b, n, idom)
    ensures !TwoCandidates(res, n)
  {
    forall b: nat, a1: nat, a2: nat | IsCandidate(res, n, a1, b) && IsCandidate(res, n, a2, b)
      ensures a1 == a2
    {
      assert CandidatesBelow(res, n, b, n, idom);
    }
  }

  method HasNothingBetween(res: Results, n: nat, a: nat, b: nat) returns (isIdom: bool)
    requires a < n && b < n && a != b && forall y: nat :: y < n ==> y in res
    ensures isIdom && Dominates(res, a, b) <==> IsCandidate(res, n, a, b)
  {
    isIdom := true;
    for c := 0 to n
      invariant forall x: nat :: x < c && x != a && x != b ==> !(Dominates(res, a, x) && Dominates(res, x, b))
    {
      if c != a && c != b && Dominates(res, a, c) && Dominates(res, c, b) {
        return false;
      }
    }
  }

  /** `a` is the closest strict dominator of `b`. */
  ghost predicate IDom(g: Graph, a: nat, b: nat) {
    SDom(g, a, b) && forall c: nat :: SDom(g, c, b) ==> Dom(g, c, a)
  }

  lemma IDomUnique(g: Graph, a1: nat, a2: nat, b: nat)
    requires IDom(g, a1, b) && IDom(g, a2, b) && Reachable(g, b)
    ensures a1 == a2
  {
    DominatorReachable(g, a1, b);
    DomAntisym(g, a1, a2);
  }

  lemma CandidateIsIDom(g: Graph, res: Results, a: nat, b: nat)
    requires g.Valid() && IsDominance(g, res) && b < |g.succ| && Reachable(g, b)
    ensures IsCandidate(res, |g.succ|, a, b) <==> IDom(g, a, b)
  {
    if IsCandidate(res, |g.succ|, a, b) {
      forall c: nat | SDom(g, c, b)
        ensures Dom(g, c, a)
      {
        DomChain(g, a, c, b);
        SDomIsBlock(g, c, b);
        DominatorReachable(g, c, b);
        DomRefl(g, a);
        assert Dominates(res, c, b);
        assert c == a || !Dominates(res, a, c);
      }
    }
    if IDom(g, a, b) {
      SDomIsBlock(g, a, b);
      forall c: nat | c < |g.succ| && c != a && c != b
        ensures !(Dominates(res, a, c) && Dominates(res, c, b))
      {
        if Dominates(res, a, c) && Dominates(res, c, b) {
          DominatorReachable(g, c, b);
          DomAntisym(g, c, a);
        }
      }
    }
  }

  /** Every reachable block other than the entry has an immediate dominator: move
      down from any strict dominator until nothing lies between. */
  lemma {:induction false} FindIDom(g: Graph, from: nat, b: nat) returns (a: nat)
    requires g.Valid() && Reachable(g, b) && SDom(g, from, b)
    ensures IDom(g, a, b)
    decreases set c: nat | c in g.Blocks() && SDom(g, from, c) && SDom(g, c, b)
  {
    if c: nat :| SDom(g, from, c) && SDom(g, c, b) {
      ShrinkBetween(g, from, c, b);
      a := FindIDom(g, c, b);
    } else {
      a := from;
      forall c: nat | SDom(g, c, b)
        ensures Dom(g, c, a)
      {
        DomChain(g, a, c, b);
        DomRefl(g, a);
      }
    }
  }

  lemma ShrinkBetween(g: Graph, from: nat, c: nat, b: nat)
    requires g.Valid() && Reachable(g, b) && SDom(g, from, c) && SDom(g, c, b)
    ensures (set x: nat | x in g.Blocks() && SDom(g, c, x) && SDom(g, x, b)) <
            (set x: nat | x in g.Blocks() && SDom(g, from, x) && SDom(g, x, b))
  {
    var small := set x: nat | x in g.Blocks() && SDom(g, c, x) && SDom(g, x, b);
    var big := set x: nat | x in g.Blocks() && SDom(g, from, x) && SDom(g, x, b);
    SDomIsBlock(g, c, b);
    assert c in big && c !in small;
    forall x | x in small
      ensures x in big
    {
      SDomTrans(g, from, c, x, b);
    }
  }

  lemma SDomTrans(g: Graph, a: nat, c: nat, x: nat, b: nat)
    requires SDom(g, a, c) && SDom(g, c, x) && Dom(g, x, b) && Reachable(g, b)
    ensures SDom(g, a, x)
  {
    DomTrans(g, a, c, x);
    DominatorReachable(g, x, b);
    if a == x {
      DomAntisym(g, x, c);
    }
  }

  /** What the triple loop finds for the reachable blocks is right: every one of them
      except the entry gets its immediate dominator. */
  lemma IdomIsRight(g: Graph, res: Results, idom: map<nat, nat>)
    requires g.Valid() && IsDominance(g, res)
    requires forall b: nat :: b < |g.succ| ==> CandidatesBelow(res, |g.succ|, b, |g.succ|, idom)
    ensures IsIdomMap(g, idom)
  {
    forall b: nat | Reachable(g, b)
      ensures b in idom <==> b != 0
      ensures b in idom ==> IDom(g, idom[b], b)
    {
      ReachableIsBlock(g, b);
      assert CandidatesBelow(res, |g.succ|, b, |g.succ|, idom);
      if b in idom {
        CandidateIsIDom(g, res, idom[b], b);
        if b == 0 {
          EntryHasNoDominator(g, idom[b]);
        }
      } else if b != 0 {
        EntryDominates(g, b);
        var a := FindIDom(g, 0, b);
        CandidateIsIDom(g, res, a, b);
      }
    }
  }

  lemma EntryHasNoDominator(g: Graph, a: nat)
    requires g.Valid()
    ensures !SDom(g, a, 0)
  {
    assert IsPath(g, [0], 0);
  }

  /** Every reachable block except the entry is mapped to its immediate dominator. */
  ghost predicate IsIdomMap(g: Graph, idom: map<nat, nat>) {
    forall b: nat :: Reachable(g, b) ==> (b in idom <==> b != 0) && (b in idom ==> IDom(g, idom[b], b))
  }

  // ----- What happens when some block cannot be reached -----

  /** A reachable block that strictly dominates no reachable block. */
  ghost predicate IsLeaf(g: Graph, a: nat) {
    Reachable(g, a) && forall c: nat :: Reachable(g, c) ==> !SDom(g, a, c)
  }

  ghost predicate OneUnreachableBlock(g: Graph, u: nat) {
    u < |g.succ| && forall b: nat :: b < |g.succ| ==> (!Reachable(g, b) <==> b == u)
  }

  /** A single block is unreachable and the dominator tree of the others has at least two
      leaves. */
  ghost predicate IdomClash(g: Graph) {
    exists u: nat, a1: nat, a2: nat :: OneUnreachableBlock(g, u) && a1 != a2 && IsLeaf(g, a1) && IsLeaf(g, a2)
  }

  ghost predicate TwoCandidates(res: Results, n: nat)
    requires forall y: nat :: y < n ==> y in res
  {
    exists b: nat, a1: nat, a2: nat :: a1 != a2 && IsCandidate(res, n, a1, b) && IsCandidate(res, n, a2, b)
  }

  /** Some block has two candidates exactly then. */
  lemma AssertionFires(g: Graph, res: Results)
    requires g.Valid() && IsDominance(g, res)
    ensures TwoCandidates(res, |g.succ|) <==> IdomClash(g)
  {
    var n := |g.succ|;
    if b: nat, a1: nat, a2: nat :| a1 != a2 && IsCandidate(res, n, a1, b) && IsCandidate(res, n, a2, b) {
      if Reachable(g, b) {
        CandidateIsIDom(g, res, a1, b);
        CandidateIsIDom(g, res, a2, b);
        IDomUnique(g, a1, a2, b);
      } else {
        assert OneUnreachableBlock(g, b) by {
          forall u: nat | u < n && !Reachable(g, u)
            ensures u == b
          {
            if u != b {
              OtherUnreached(g, res, a1, b, u);
              OtherUnreached(g, res, a2, b, u);
            }
          }
        }
        LeafCandidate(g, res, a1, b);
        LeafCandidate(g, res, a2, b);
      }
    }
    if u: nat, a1: nat, a2: nat :| OneUnreachableBlock(g, u) && a1 != a2 && IsLeaf(g, a1) && IsLeaf(g, a2) {
      LeafCandidate(g, res, a1, u);
      LeafCandidate(g, res, a2, u);
      assert IsCandidate(res, n, a1, u) && IsCandidate(res, n, a2, u);
    }
  }

  /** With all blocks reachable the assertion never fires. */
  lemma NoClash(g: Graph)
    requires AllReachable(g)
    ensures !IdomClash(g)
  {
    forall u: nat | u < |g.succ|
      ensures !OneUnreachableBlock(g, u)
    {
      assert u in g.Blocks();
    }
  }

  /** Both steps together: the assertion fires exactly in case of a clash; otherwise the
      result maps each reachable block except the entry to its immediate dominator. */
  method ImmediateDominators(g: Graph) returns (r: IdomResult)
    requires g.Valid()
    ensures r.AlreadyPresent? <==> IdomClash(g)
    ensures r.Idom? ==> IsIdomMap(g, r.parent)
  {
    TraversalFacts(DominanceProblem(g));
    var dom := ComputeDom(g, Traversal(DominanceProblem(g)));
    r := ComputeIdom(dom, |g.succ|);
    AssertionFires(g, dom);
    if r.Idom? {
      IdomIsRight(g, dom, r.parent);
    }
  }

  // ----- A function on which the assertion fires -----

  /** An entry that branches to two returns, and a block that nothing leads to. */
  const TWO_RETURNS := Graph([[1, 2], [], [], []])

  lemma TwoReturnsEdge(a: nat, b: nat)
    requires TWO_RETURNS.Edge(a, b)
    ensures a == 0 && (b == 1 || b == 2)
  {
  }

  lemma TwoReturnsReach(b: nat)
    ensures TWO_RETURNS.Valid() && (Reachable(TWO_RETURNS, b) <==> b < 3)
  {
    var g := TWO_RETURNS;
    assert IsPath(g, [0], 0) && IsPath(g, [0, 1], 1) && IsPath(g, [0, 2], 2);
    if p :| IsPath(g, p, b) {
      if |p| > 1 {
        assert g.Edge(p[|p| - 2], p[|p| - 1]);
        TwoReturnsEdge(p[|p| - 2], p[|p| - 1]);
      }
    }
  }

  lemma TwoReturnsLeaf(a: nat)
    requires a == 1 || a == 2
    ensures IsLeaf(TWO_RETURNS, a)
  {
    var g := TWO_RETURNS;
    TwoReturnsReach(a);
    assert IsPath(g, [0], 0) && IsPath(g, [0, 1], 1) && IsPath(g, [0, 2], 2);
    forall c: nat | Reachable(g, c)
      ensures !SDom(g, a, c)
    {
      TwoReturnsReach(c);
      var p := if c == 0 then [0] else [0, c];
      assert IsPath(g, p, c) && (a != c ==> a !in p);
    }
  }

  /** Both returns are candidates for the unreachable block, so the assertion fires. */
  lemma AssertionFiresHere(res: Results)
    requires IsDominance(TWO_RETURNS, res)
    ensures TWO_RETURNS.Valid() && IdomClash(TWO_RETURNS)
    ensures IsCandidate(res, 4, 1, 3) && IsCandidate(res, 4, 2, 3)
  {
    var g := TWO_RETURNS;
    assert OneUnreachableBlock(g, 3) by {
      forall b: nat
        ensures g.Valid() && (Reachable(g, b) <==> b < 3)
      {
        TwoReturnsReach(b);
      }
    }
    TwoReturnsReach(0);
    TwoReturnsLeaf(1);
    TwoReturnsLeaf(2);
    LeafCandidate(g, res, 1, 3);
    LeafCandidate(g, res, 2, 3);
  }

  lemma OtherUnreached(g: Graph, res: Results, a: nat, b: nat, u: nat)
    requires g.Valid() && IsDominance(g, res) && IsCandidate(res, |g.succ|, a, b)
    requires u < |g.succ| && !Reachable(g, b) && !Reachable(g, u) && u != b
    ensures a == u
  {
    assert Dominates(res, a, u) && Dominates(res, u, b);
  }

  lemma LeafCandidate(g: Graph, res: Results, a: nat, u: nat)
    requires g.Valid() && IsDominance(g, res) && OneUnreachableBlock(g, u)
    ensures IsCandidate(res, |g.succ|, a, u) <==> IsLeaf(g, a)
  {
    if IsLeaf(g, a) {
      ReachableIsBlock(g, a);
    }
    if IsCandidate(res, |g.succ|, a, u) {
      forall c: nat | Reachable(g, c)
        ensures !SDom(g, a, c)
      {
        ReachableIsBlock(g, c);
        assert c != a ==> !(Dominates(res, a, c) && Dominates(res, c, u));
      }
    }
  }
}
