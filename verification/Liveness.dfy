/** Live variables, with phi operands live on the edge they come from. */
module Liveness {
  import opened Cfg
  import opened DataFlow
  import opened PathSolution
  import opened Ir
  import opened PhiVals

  // ----- What a block uses and defines -----

  ghost predicate DefinesBefore(s: seq<Instr>, i: nat, d: nat)
    requires i <= |s|
  {
    exists j :: 0 <= j < i && s[j].id == d
  }

  /** An instruction other than a phi uses `d` before the block defines it. */
  ghost predicate Exposed(s: seq<Instr>, d: nat) {
    exists i :: 0 <= i < |s| && !s[i].kind.Phi? && s[i].Uses(d) && !DefinesBefore(s, i, d)
  }

  /** The values used as operands anywhere in the function. */
  function Domain(f: Function): set<nat> {
    set b, i, k | 0 <= b < |f.blocks| && 0 <= i < |f.blocks[b]| && 0 <= k < |f.blocks[b][i].ops| &&
        f.blocks[b][i].ops[k].Ref? ::
      f.blocks[b][i].ops[k].id
  }

  lemma UsedInDomain(f: Function, b: nat, i: nat, d: nat)
    requires At(f, b, i) && f.blocks[b][i].Uses(d)
    ensures d in Domain(f)
  {
    var k :| 0 <= k < |f.blocks[b][i].ops| && f.blocks[b][i].ops[k] == Ref(d);
  }

  /** The domain as the pass collects it: each value once, in order of first use. */
  method CollectDomain(f: Function) returns (domain: seq<nat>)
    ensures Distinct(domain) && forall d: nat :: d in domain <==> d in Domain(f)
  {
    domain := [];
    for b := 0 to |f.blocks|
      invariant Distinct(domain)
      invariant forall d: nat :: d in domain ==> d in Domain(f)
      invariant forall c: nat, i: nat, d: nat :: c < b && At(f, c, i) && f.blocks[c][i].Uses(d) ==> d in domain
    {
      for i := 0 to |f.blocks[b]|
        invariant Distinct(domain)
        invariant forall d: nat :: d in domain ==> d in Domain(f)
        invariant forall c: nat, x: nat, d: nat ::
                  (c < b || (c == b && x < i)) && At(f, c, x) && f.blocks[c][x].Uses(d) ==> d in domain
      {
        ghost var before := domain;
        domain := AddOperands(f, b, i, domain);
      }
    }
    forall d: nat | d in Domain(f)
      ensures d in domain
    {
      var b, i, k :| 0 <= b < |f.blocks| && 0 <= i < |f.blocks[b]| && 0 <= k < |f.blocks[b][i].ops| &&
          f.blocks[b][i].ops[k].Ref? && f.blocks[b][i].ops[k].id == d;
      assert At(f, b, i) && f.blocks[b][i].Uses(d);
    }
  }

  method AddOperands(f: Function, b: nat, i: nat, before: seq<nat>) returns (domain: seq<nat>)
    requires At(f, b, i) && Distinct(before) && forall d: nat :: d in before ==> d in Domain(f)
    ensures Distinct(domain) && forall d: nat :: d in domain ==> d in Domain(f)
    ensures forall d: nat :: d in before || f.blocks[b][i].Uses(d) ==> d in domain
  {
    domain := before;
    var ops := f.blocks[b][i].ops;
    for k := 0 to |ops|
      invariant Distinct(domain)
      invariant forall d: nat :: d in domain ==> d in Domain(f)
      invariant forall d: nat :: d in before ==> d in domain
      invariant forall x :: 0 <= x < k && ops[x].Ref? ==> ops[x].id in domain
    {
      if ops[k].Ref? && ops[k].id !in domain {
        assert f.blocks[b][i].Uses(ops[k].id);
        UsedInDomain(f, b, i, ops[k].id);
        domain := domain + [ops[k].id];
      }
    }
    forall d: nat | f.blocks[b][i].Uses(d)
      ensures d in domain
    {
      var x :| 0 <= x < |ops| && ops[x] == Ref(d);
    }
  }

  // ----- The transfer function -----

  function UsesOf(s: Instr): set<nat> {
    set k | 0 <= k < |s.ops| && s.ops[k].Ref? :: s.ops[k].id
  }

  lemma UsesOfIsUses(s: Instr, d: nat)
    ensures d in UsesOf(s) <==> s.Uses(d)
  {
    if s.Uses(d) {
      var k :| 0 <= k < |s.ops| && s.ops[k] == Ref(d);
    }
  }

  /** Upward exposed uses. */
  function UseSet(s: seq<Instr>): set<nat> {
    if s == [] then {}
    else
      var front, last := s[..|s| - 1], s[|s| - 1];
      UseSet(front) + if last.kind.Phi? then {} else UsesOf(last) - Ids(front)
  }

  function DefSet(s: seq<Instr>, domain: set<nat>): set<nat> {
    Ids(s) * domain
  }

  function BlockTransfer(s: seq<Instr>, input: set<nat>, domain: set<nat>): TransferOutput {
    TransferOutput(UseSet(s) + (input - DefSet(s, domain)), NeighborVals(s, Ids(s), domain))
  }

  lemma {:induction false} UseSetIsExposed(s: seq<Instr>, d: nat)
    ensures d in UseSet(s) <==> Exposed(s, d)
  {
    if s != [] {
      var front, last := s[..|s| - 1], s[|s| - 1];
      UseSetIsExposed(front, d);
      UsesOfIsUses(last, d);
      assert forall i :: 0 <= i < |front| ==> front[i] == s[i];
      assert forall i :: 0 <= i <= |front| ==> (DefinesBefore(front, i, d) <==> DefinesBefore(s, i, d));
      assert DefinesBefore(s, |front|, d) <==> d in Ids(front);
      if Exposed(front, d) {
        var i :| 0 <= i < |front| && !front[i].kind.Phi? && front[i].Uses(d) && !DefinesBefore(front, i, d);
        assert s[i].Uses(d) && !DefinesBefore(s, i, d);
      }
    }
  }

  /** The transfer function of the pass: one forward loop over the block. */
  method TransferFn(s: seq<Instr>, input: set<nat>, domain: set<nat>) returns (t: TransferOutput)
    requires forall i :: 0 <= i < |s| ==> UsesOf(s[i]) <= domain
    requires forall i :: 0 <= i < |s| && s[i].kind.Phi? ==> |s[i].kind.from| == |s[i].ops|
    ensures t == BlockTransfer(s, input, domain)
  {
    var defs, uses, vals := {}, {}, map[];
    for i := 0 to |s|
      invariant defs == DefSet(s[..i], domain)
      invariant uses == UseSet(s[..i])
      invariant vals == NeighborVals(s[..i], Ids(s), domain)
    {
      var front := s[..i];
      assert s[..i + 1] == front + [s[i]];
      assert s[..i + 1][..i] == front;
      assert s[i].id in Ids(s);
      NeighborValsWithOne(s[..i + 1], s[i], front, Ids(s), domain);
      if s[i].kind.Phi? {
        vals := MarkPhi(s[i], vals, domain);
      } else {
        uses := AddExposed(s[i], uses, defs);
        assert UsesOf(s[i]) - defs == UsesOf(s[i]) - Ids(front);
      }
      IdsSnoc(front, s[i]);
      if s[i].id in domain {
        defs := defs + {s[i].id};
      }
    }
    assert s[..|s|] == s;
    t := TransferOutput((domain - defs) * input + (input - domain) + uses, vals);
    assert (domain - defs) * input + (input - domain) + uses == uses + (input - DefSet(s, domain));
  }

  method AddExposed(s: Instr, uses: set<nat>, defs: set<nat>) returns (r: set<nat>)
    ensures r == uses + (UsesOf(s) - defs)
  {
    r := uses;
    for k := 0 to |s.ops|
      invariant uses <= r <= uses + (UsesOf(s) - defs)
      invariant forall x :: 0 <= x < k && s.ops[x].Ref? && s.ops[x].id !in defs ==> s.ops[x].id in r
    {
      if s.ops[k].Ref? && s.ops[k].id !in defs {
        r := r + {s.ops[k].id};
      }
    }
  }

  // ----- The analysis of a function -----

  function Gen(f: Function): nat -> set<nat> {
    (b: nat) => if b < |f.blocks| then UseSet(f.blocks[b]) else {}
  }

  function Kill(f: Function): nat -> set<nat> {
    (b: nat) => if b < |f.blocks| then DefSet(f.blocks[b], Domain(f)) else {}
  }

  function OnEdges(f: Function): nat -> map<nat, set<nat>> {
    (b: nat) => if b < |f.blocks| then NeighborVals(f.blocks[b], Ids(f.blocks[b]), Domain(f)) else map[]
  }

  function LivenessProblem(f: Function): Problem {
    Problem(f.graph, Backward, Union,
            (x: set<nat>, b: nat) =>
              if b < |f.blocks| then BlockTransfer(f.blocks[b], x, Domain(f)) else TransferOutput(x, map[]),
            Domain(f))
  }

  lemma UseSetInDomain(f: Function, b: nat)
    requires b < |f.blocks|
    ensures UseSet(f.blocks[b]) <= Domain(f)
  {
    forall d | d in UseSet(f.blocks[b])
      ensures d in Domain(f)
    {
      UseSetIsExposed(f.blocks[b], d);
      var i :| 0 <= i < |f.blocks[b]| && !f.blocks[b][i].kind.Phi? && f.blocks[b][i].Uses(d);
      UsedInDomain(f, b, i, d);
    }
  }

  lemma LivenessIsGenKill(f: Function)
    requires WellFormed(f)
    ensures IsBackwardGenKill(LivenessProblem(f), Gen(f), Kill(f), OnEdges(f))
  {
    var p := LivenessProblem(f);
    forall b: nat
      ensures Gen(f)(b) <= p.domain && Within(p, TransferOutput({}, OnEdges(f)(b)))
    {
      if b < |f.blocks| {
        UseSetInDomain(f, b);
        PhiSourcesAreBlocks(f, b);
      }
    }
    forall x: set<nat>, b: nat
      ensures p.transfer(x, b) == TransferOutput(Gen(f)(b) + (x - Kill(f)(b)), OnEdges(f)(b))
    {
      assert b >= |f.blocks| ==> x == {} + (x - {});
    }
  }

  // ----- What the answer means -----

  ghost predicate PhiTakesOnEdge(f: Function, a: nat, b: nat, d: nat) {
    exists i: nat :: At(f, b, i) && PhiTakes(f.blocks[b][i], Domain(f), a, d)
  }

  /** Along `w`, no block strictly between the ends defines `d`; and the last block
      uses `d` before defining it, or has a phi that takes `d` on the last edge. */
  ghost predicate LiveAlong(f: Function, w: seq<nat>, d: nat) {
    && |w| >= 2 && w[|w| - 1] < |f.blocks|
    && (forall i :: 0 < i < |w| - 1 ==> !DefinedIn(f, d, w[i]))
    && (Exposed(f.blocks[w[|w| - 1]], d) || PhiTakesOnEdge(f, w[|w| - 2], w[|w| - 1], d))
  }

  ghost predicate LiveOut(f: Function, b: nat, d: nat) {
    exists w :: w != [] && IsWalk(f.graph, w, b, w[|w| - 1]) && LiveAlong(f, w, d)
  }

  lemma EdgeTakes(f: Function, a: nat, b: nat, d: nat)
    requires WellFormed(f) && b < |f.blocks|
    ensures d in EdgeValue(TransferOutput({}, OnEdges(f)(b)), a) <==> PhiTakesOnEdge(f, a, b, d)
  {
    var s := f.blocks[b];
    NeighborValsHolds(s, Ids(s), Domain(f), a, d);
    if d in TakenFrom(s, Ids(s), Domain(f), a) {
      var i :| 0 <= i < |s| && s[i].id in Ids(s) && PhiTakes(s[i], Domain(f), a, d);
      assert At(f, b, i);
    }
    if PhiTakesOnEdge(f, a, b, d) {
      var i: nat :| At(f, b, i) && PhiTakes(f.blocks[b][i], Domain(f), a, d);
      assert s[i].id in Ids(s);
    }
  }

  lemma KilledIsDefined(f: Function, b: nat, d: nat)
    requires b < |f.blocks| && d in Domain(f)
    ensures d in Kill(f)(b) <==> DefinedIn(f, d, b)
  {
    if DefinedIn(f, d, b) {
      var j: nat :| At(f, b, j) && f.blocks[b][j].id == d;
    }
    if d in Kill(f)(b) {
      var j :| 0 <= j < |f.blocks[b]| && f.blocks[b][j].id == d;
      assert At(f, b, j);
    }
  }

  /** The last step of a live path, and that the value is then in the domain. */
  lemma LastStep(f: Function, a: nat, b: nat, d: nat)
    requires WellFormed(f) && b < |f.blocks|
    ensures (d in Gen(f)(b) || d in EdgeValue(TransferOutput({}, OnEdges(f)(b)), a)) <==>
            (Exposed(f.blocks[b], d) || PhiTakesOnEdge(f, a, b, d))
    ensures Exposed(f.blocks[b], d) || PhiTakesOnEdge(f, a, b, d) ==> d in Domain(f)
  {
    UseSetIsExposed(f.blocks[b], d);
    UseSetInDomain(f, b);
    EdgeTakes(f, a, b, d);
    if PhiTakesOnEdge(f, a, b, d) {
      var i: nat :| At(f, b, i) && PhiTakes(f.blocks[b][i], Domain(f), a, d);
    }
  }

  lemma NeededIsLive(f: Function, w: seq<nat>, b: nat, d: nat)
    requires WellFormed(f) && w != [] && IsWalk(f.graph, w, b, w[|w| - 1])
    ensures NeededAlong(Gen(f), Kill(f), OnEdges(f), w, d) <==> LiveAlong(f, w, d)
  {
    if |w| >= 2 {
      WalkInBlocks(f.graph, w, b, w[|w| - 1]);
      assert forall i :: 0 <= i < |w| ==> w[i] in w;
      LastStep(f, w[|w| - 2], w[|w| - 1], d);
      if d in Domain(f) {
        forall i | 0 < i < |w| - 1
          ensures d in Kill(f)(w[i]) <==> DefinedIn(f, d, w[i])
        {
          KilledIsDefined(f, w[i], d);
        }
      }
    }
  }

  /** Live variables of a function: the OUT set of a reachable block holds exactly the
      values live along some path onwards. */
  method LiveVariables(f: Function, order: seq<nat>, exits: set<nat>) returns (res: Results)
    requires WellFormed(f) && IsOrder(LivenessProblem(f), order)
    ensures LivenessProblem(f).Covers(res)
    ensures forall b: nat, d: nat :: b < |f.blocks| && Reachable(f.graph, b) ==>
            (d in res[b].outSet <==> LiveOut(f, b, d))
    ensures forall b: nat :: b < |f.blocks| && Reachable(f.graph, b) ==>
            res[b].inSet == UseSet(f.blocks[b]) + (res[b].outSet - DefSet(f.blocks[b], Domain(f)))
  {
    var p := LivenessProblem(f);
    LivenessIsGenKill(f);
    BackwardWellBehaved(p, Gen(f), Kill(f), OnEdges(f));
    res := Run(p, order, exits, {}, {});
    forall b: nat | b < |f.blocks| && Reachable(f.graph, b)
      ensures forall d: nat :: d in res[b].outSet <==> LiveOut(f, b, d)
      ensures res[b].inSet == UseSet(f.blocks[b]) + (res[b].outSet - DefSet(f.blocks[b], Domain(f)))
    {
      forall d: nat
        ensures d in res[b].outSet <==> LiveOut(f, b, d)
      {
        LiveOutExact(f, exits, res, b, d);
      }
      SolvedAt(p, exits, {}, res, b);
    }
  }

  lemma LiveOutExact(f: Function, exits: set<nat>, res: Results, b: nat, d: nat)
    requires WellFormed(f) && Solved(LivenessProblem(f), exits, {}, res) && b < |f.blocks| && Reachable(f.graph, b)
    ensures d in res[b].outSet <==> LiveOut(f, b, d)
  {
    var p := LivenessProblem(f);
    LivenessIsGenKill(f);
    BackwardExact(p, Gen(f), Kill(f), OnEdges(f), exits, res, b, d);
    forall w | w != [] && IsWalk(f.graph, w, b, w[|w| - 1])
      ensures NeededAlong(Gen(f), Kill(f), OnEdges(f), w, d) <==> LiveAlong(f, w, d)
    {
      NeededIsLive(f, w, b, d);
    }
  }

  // ----- The walk through one block -----

  /** The live set before each instruction, walking back from the end of the block. */
  function WalkBack(s: seq<Instr>, live: set<nat>): set<nat> {
    if s == [] then live
    else
      var front, last := s[..|s| - 1], s[|s| - 1];
      WalkBack(front, (if last.kind.Phi? then live else live + UsesOf(last)) - {last.id})
  }

  /** No instruction other than a phi uses its own result. */
  ghost predicate NoSelfUse(s: seq<Instr>) {
    forall i :: 0 <= i < |s| && !s[i].kind.Phi? ==> s[i].id !in UsesOf(s[i])
  }

  /** The walk from OUT arrives at the block summary's IN. */
  lemma {:induction false} WalkBackIsTransfer(s: seq<Instr>, live: set<nat>)
    requires NoSelfUse(s)
    ensures WalkBack(s, live) == UseSet(s) + (live - Ids(s))
  {
    if s != [] {
      var front, last := s[..|s| - 1], s[|s| - 1];
      assert forall i :: 0 <= i < |front| ==> front[i] == s[i];
      WalkBackIsTransfer(front, (if last.kind.Phi? then live else live + UsesOf(last)) - {last.id});
      IdsSnoc(front, last);
      assert front + [last] == s;
    }
  }

  /** The backward walk that the pass prints; only values of the domain are dropped. */
  method PrintWalk(s: seq<Instr>, out: set<nat>, domain: set<nat>) returns (live: set<nat>)
    requires out <= domain && NoSelfUse(s) && forall i :: 0 <= i < |s| ==> UsesOf(s[i]) <= domain
    ensures live == BlockTransfer(s, out, domain).element
  {
    live := out;
    var i := |s|;
    assert s[..i] == s;
    while i > 0
      invariant 0 <= i <= |s| && live <= domain
      invariant WalkBack(s[..i], live) == WalkBack(s, out)
    {
      i := i - 1;
      assert s[..i + 1][..i] == s[..i];
      ghost var next := (if s[i].kind.Phi? then live else live + UsesOf(s[i])) - {s[i].id};
      if !s[i].kind.Phi? {
        live := AddExposed(s[i], live, {});
      }
      if s[i].id in domain {
        live := live - {s[i].id};
      }
      assert live == next;
    }
    WalkBackIsTransfer(s, out);
    assert out - Ids(s) == out - DefSet(s, domain);
  }
}
