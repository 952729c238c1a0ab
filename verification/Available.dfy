/** Available expressions. */
module Available {
  import opened Cfg
  import opened DataFlow
  import opened PathSolution
  import opened Ir

  /** The right-hand side of a binary operator. */
  datatype Expr = Expr(opcode: nat, v1: Operand, v2: Operand)

  predicate Computes(s: Instr, e: Expr) {
    s.kind.Binary? && |s.ops| == 2 && e == Expr(s.kind.opcode, s.ops[0], s.ops[1])
  }

  // ----- The domain -----

  ghost predicate DistinctExprs(domain: seq<Expr>) {
    forall i, j :: 0 <= i < j < |domain| ==> domain[i] != domain[j]
  }

  ghost predicate ComputedIn(f: Function, b: nat, e: Expr) {
    exists i: nat :: At(f, b, i) && Computes(f.blocks[b][i], e)
  }

  /** The expressions of a function, each once. */
  ghost predicate IsDomain(f: Function, domain: seq<Expr>) {
    && DistinctExprs(domain)
    && forall e :: e in domain <==> exists b: nat :: ComputedIn(f, b, e)
  }

  method CollectDomain(f: Function) returns (domain: seq<Expr>)
    ensures IsDomain(f, domain)
  {
    domain := [];
    for b := 0 to |f.blocks|
      invariant DistinctExprs(domain)
      invariant forall e :: e in domain ==> exists c: nat :: ComputedIn(f, c, e)
      invariant forall c: nat, x: nat, e :: c < b && At(f, c, x) && Computes(f.blocks[c][x], e) ==> e in domain
    {
      for i := 0 to |f.blocks[b]|
        invariant DistinctExprs(domain)
        invariant forall e :: e in domain ==> exists c: nat :: ComputedIn(f, c, e)
        invariant forall c: nat, x: nat, e ::
                  (c < b || (c == b && x < i)) && At(f, c, x) && Computes(f.blocks[c][x], e) ==> e in domain
      {
        var s := f.blocks[b][i];
        if s.kind.Binary? && |s.ops| == 2 {
          var e := Expr(s.kind.opcode, s.ops[0], s.ops[1]);
          var k := FindExpr(domain, e);
          if k == |domain| {
            assert At(f, b, i) && Computes(s, e);
            assert ComputedIn(f, b, e);
            domain := domain + [e];
          }
        }
      }
    }
    forall e | exists b: nat :: ComputedIn(f, b, e)
      ensures e in domain
    {
      var b: nat :| ComputedIn(f, b, e);
      var i: nat :| At(f, b, i) && Computes(f.blocks[b][i], e);
    }
  }

  /** The index of an expression in the domain, or its length. */
  method FindExpr(domain: seq<Expr>, e: Expr) returns (k: nat)
    ensures k <= |domain| && (k < |domain| ==> domain[k] == e) && forall x :: 0 <= x < k ==> domain[x] != e
  {
    k := 0;
    while k < |domain| && domain[k] != e
      invariant k <= |domain| && forall x :: 0 <= x < k ==> domain[x] != e
    {
      k := k + 1;
    }
  }

  // ----- Names and kills -----

  /** Names of values; constants and unnamed values have the empty name. */
  type Names = map<nat, string>

  function Name(names: Names, op: Operand): string {
    if op.Ref? && op.id in names then names[op.id] else ""
  }

  ghost predicate UniqueNames(names: Names) {
    forall a, b :: a in names && b in names && names[a] == names[b] && names[a] != "" ==> a == b
  }

  /** A named instruction kills the expressions with an operand of its name. */
  predicate Kills(names: Names, s: Instr, e: Expr) {
    var name := Name(names, Ref(s.id));
    name != "" && (Name(names, e.v1) == name || Name(names, e.v2) == name)
  }

  function GenOf(domain: seq<Expr>, s: Instr): set<nat> {
    set d: nat | d < |domain| && Computes(s, domain[d])
  }

  function KillOf(domain: seq<Expr>, names: Names, s: Instr): set<nat> {
    set d: nat | d < |domain| && Kills(names, s, domain[d])
  }

  // ----- The transfer function -----

  function GenSet(domain: seq<Expr>, names: Names, s: seq<Instr>): set<nat> {
    if s == [] then {}
    else GenSet(domain, names, s[..|s| - 1]) + GenOf(domain, s[|s| - 1]) - KillOf(domain, names, s[|s| - 1])
  }

  function KillSet(domain: seq<Expr>, names: Names, s: seq<Instr>): set<nat> {
    if s == [] then {} else KillSet(domain, names, s[..|s| - 1]) + KillOf(domain, names, s[|s| - 1])
  }

  /** The set after each instruction, walking forward from the start of the block. */
  function WalkForward(domain: seq<Expr>, names: Names, s: seq<Instr>, avail: set<nat>): set<nat> {
    if s == [] then avail
    else WalkForward(domain, names, s[..|s| - 1], avail) + GenOf(domain, s[|s| - 1]) - KillOf(domain, names, s[|s| - 1])
  }

  /** Walking through a block gives the block summary, for blocks of any length. */
  lemma {:induction false} WalkForwardIsTransfer(domain: seq<Expr>, names: Names, s: seq<Instr>, avail: set<nat>)
    ensures WalkForward(domain, names, s, avail) == GenSet(domain, names, s) + (avail - KillSet(domain, names, s))
  {
    if s != [] {
      WalkForwardIsTransfer(domain, names, s[..|s| - 1], avail);
    }
  }

  /** Add the expression of one instruction, then drop what it kills. */
  method VisitInstr(domain: seq<Expr>, names: Names, s: Instr, before: set<nat>) returns (after: set<nat>)
    requires DistinctExprs(domain)
    ensures after == before + GenOf(domain, s) - KillOf(domain, names, s)
  {
    after := before;
    if s.kind.Binary? && |s.ops| == 2 {
      var k := FindExpr(domain, Expr(s.kind.opcode, s.ops[0], s.ops[1]));
      if k < |domain| {
        after := after + {k};
      }
    }
    assert after == before + GenOf(domain, s);
    ghost var full := after;
    if Name(names, Ref(s.id)) != "" {
      for k := 0 to |domain|
        invariant forall d: nat :: d in after <==> d in full && !(d < k && d in KillOf(domain, names, s))
      {
        if Kills(names, s, domain[k]) {
          after := after - {k};
        }
      }
    }
    assert forall d: nat :: d in KillOf(domain, names, s) ==> d < |domain|;
  }

  method TransferFn(domain: seq<Expr>, names: Names, s: seq<Instr>, input: set<nat>) returns (t: TransferOutput)
    requires DistinctExprs(domain)
    ensures t == TransferOutput(GenSet(domain, names, s) + (input - KillSet(domain, names, s)), map[])
  {
    var gen, kill := {}, {};
    for i := 0 to |s|
      invariant gen == GenSet(domain, names, s[..i]) && kill == KillSet(domain, names, s[..i])
    {
      assert s[..i + 1][..i] == s[..i];
      gen := VisitInstr(domain, names, s[i], gen);
      kill := kill + KillOf(domain, names, s[i]);
    }
    assert s[..|s|] == s;
    t := TransferOutput(gen + (input - kill), map[]);
  }

  /** The forward walk that the pass prints. */
  method PrintWalk(domain: seq<Expr>, names: Names, s: seq<Instr>, input: set<nat>) returns (avail: set<nat>)
    requires DistinctExprs(domain)
    ensures avail == GenSet(domain, names, s) + (input - KillSet(domain, names, s))
  {
    avail := input;
    for i := 0 to |s|
      invariant avail == WalkForward(domain, names, s[..i], input)
    {
      assert s[..i + 1][..i] == s[..i];
      avail := VisitInstr(domain, names, s[i], avail);
    }
    assert s[..|s|] == s;
    WalkForwardIsTransfer(domain, names, s, input);
  }

  // ----- The analysis -----

  function Gen(f: Function, domain: seq<Expr>, names: Names): nat -> set<nat> {
    (b: nat) => if b < |f.blocks| then GenSet(domain, names, f.blocks[b]) else {}
  }

  function Kill(f: Function, domain: seq<Expr>, names: Names): nat -> set<nat> {
    (b: nat) => if b < |f.blocks| then KillSet(domain, names, f.blocks[b]) else {}
  }

  function AvailableProblem(f: Function, domain: seq<Expr>, names: Names): Problem {
    Problem(f.graph, Forward, Intersection,
            (x: set<nat>, b: nat) =>
              if b < |f.blocks| then
                TransferOutput(GenSet(domain, names, f.blocks[b]) + (x - KillSet(domain, names, f.blocks[b])), map[])
              else TransferOutput(x, map[]),
            Upto(|domain|))
  }

  lemma {:induction false} GenSetInDomain(domain: seq<Expr>, names: Names, s: seq<Instr>)
    ensures GenSet(domain, names, s) <= Upto(|domain|)
  {
    if s != [] {
      GenSetInDomain(domain, names, s[..|s| - 1]);
    }
  }

  lemma AvailableIsGenKill(f: Function, domain: seq<Expr>, names: Names)
    requires f.graph.Valid()
    ensures IsForwardGenKill(AvailableProblem(f, domain, names), Gen(f, domain, names), Kill(f, domain, names))
  {
    var p := AvailableProblem(f, domain, names);
    forall b: nat
      ensures Gen(f, domain, names)(b) <= p.domain
    {
      if b < |f.blocks| {
        GenSetInDomain(domain, names, f.blocks[b]);
      }
    }
    forall x: set<nat>, b: nat
      ensures p.transfer(x, b) == TransferOutput(Gen(f, domain, names)(b) + (x - Kill(f, domain, names)(b)), map[])
    {
      assert b >= |f.blocks| ==> x == {} + (x - {});
    }
  }

  // ----- In strict SSA form -----

  /** `b` defines an operand of the expression `e`. */
  ghost predicate DefinesOperand(f: Function, b: nat, e: Expr) {
    exists i: nat :: At(f, b, i) && (e.v1 == Ref(f.blocks[b][i].id) || e.v2 == Ref(f.blocks[b][i].id))
  }

  lemma KillsMeansDefines(names: Names, s: Instr, e: Expr)
    requires UniqueNames(names) && Kills(names, s, e)
    ensures e.v1 == Ref(s.id) || e.v2 == Ref(s.id)
  {
  }

  lemma {:induction false} KillSetDefines(f: Function, domain: seq<Expr>, names: Names, b: nat, n: nat, d: nat)
    requires UniqueNames(names) && b < |f.blocks| && n <= |f.blocks[b]| && d in KillSet(domain, names, f.blocks[b][..n])
    ensures d < |domain| && exists i: nat :: i < n && Kills(names, f.blocks[b][i], domain[d])
  {
    var s := f.blocks[b];
    assert s[..n][..n - 1] == s[..n - 1];
    if d in KillOf(domain, names, s[n - 1]) {
      assert Kills(names, s[n - 1], domain[d]);
    } else {
      KillSetDefines(f, domain, names, b, n - 1, d);
    }
  }

  /** A block that computes an expression is dominated by every block that defines one
      of its operands, and within one block the definition comes first. */
  lemma OperandDominates(f: Function, b: nat, i: nat, c: nat, j: nat, e: Expr)
    requires StrictSsa(f) && Reachable(f.graph, b) && At(f, b, i) && Computes(f.blocks[b][i], e)
    requires At(f, c, j) && (e.v1 == Ref(f.blocks[c][j].id) || e.v2 == Ref(f.blocks[c][j].id))
    ensures SDom(f.graph, c, b) || (c == b && j < i)
  {
    var s := f.blocks[b][i];
    assert s.ops[0] in s.ops && s.ops[1] in s.ops;
    assert IsUse(f, b, i, c, j);
    assert DefBeforeUse(f, b, i, c, j);
  }

  lemma DefinerDominates(f: Function, b: nat, c: nat, e: Expr)
    requires StrictSsa(f) && Reachable(f.graph, b) && ComputedIn(f, b, e) && DefinesOperand(f, c, e)
    ensures Dom(f.graph, c, b)
  {
    var i: nat :| At(f, b, i) && Computes(f.blocks[b][i], e);
    var j: nat :| At(f, c, j) && (e.v1 == Ref(f.blocks[c][j].id) || e.v2 == Ref(f.blocks[c][j].id));
    OperandDominates(f, b, i, c, j, e);
    DomRefl(f.graph, b);
  }

  /** Nothing computed in a block is killed later in the block, so the block generates
      exactly what it computes. */
  lemma {:induction false} GenIsComputed(f: Function, domain: seq<Expr>, names: Names, b: nat, n: nat, d: nat)
    requires StrictSsa(f) && UniqueNames(names) && b < |f.blocks| && Reachable(f.graph, b) && n <= |f.blocks[b]|
    ensures d in GenSet(domain, names, f.blocks[b][..n]) <==>
            d < |domain| && exists i: nat :: i < n && Computes(f.blocks[b][i], domain[d])
  {
    if n > 0 {
      var s := f.blocks[b];
      assert s[..n][..n - 1] == s[..n - 1];
      GenIsComputed(f, domain, names, b, n - 1, d);
      var last := s[n - 1];
      if d < |domain| && (exists i: nat :: i < n && Computes(s[i], domain[d])) {
        var i: nat :| i < n && Computes(s[i], domain[d]);
        if Kills(names, last, domain[d]) {
          KillsMeansDefines(names, last, domain[d]);
          OperandDominates(f, b, i, b, n - 1, domain[d]);
        }
        assert d !in KillOf(domain, names, last);
      }
    }
  }

  lemma GenBlock(f: Function, domain: seq<Expr>, names: Names, b: nat, d: nat)
    requires StrictSsa(f) && UniqueNames(names) && b < |f.blocks| && Reachable(f.graph, b)
    ensures d in Gen(f, domain, names)(b) <==> d < |domain| && ComputedIn(f, b, domain[d])
  {
    var s := f.blocks[b];
    GenIsComputed(f, domain, names, b, |s|, d);
    assert s[..|s|] == s;
    if d < |domain| && ComputedIn(f, b, domain[d]) {
      var i: nat :| At(f, b, i) && Computes(s[i], domain[d]);
    }
    if d < |domain| && (exists i: nat :: i < |s| && Computes(s[i], domain[d])) {
      var i: nat :| i < |s| && Computes(s[i], domain[d]);
      assert At(f, b, i);
    }
  }

  lemma KillBlock(f: Function, domain: seq<Expr>, names: Names, b: nat, d: nat)
    requires UniqueNames(names) && b < |f.blocks| && d in Kill(f, domain, names)(b)
    ensures d < |domain| && DefinesOperand(f, b, domain[d])
  {
    var s := f.blocks[b];
    assert s[..|s|] == s;
    KillSetDefines(f, domain, names, b, |s|, d);
    var i: nat :| i < |s| && Kills(names, s[i], domain[d]);
    KillsMeansDefines(names, s[i], domain[d]);
    assert At(f, b, i);
  }

  // ----- What the answer means -----

  ghost predicate ComputedAlong(f: Function, q: seq<nat>, e: Expr) {
    exists i: nat :: i < |q| - 1 && ComputedIn(f, q[i], e)
  }

  /** Every path to `b` computes `e` before reaching `b`. */
  ghost predicate ComputedOnAllPaths(f: Function, b: nat, e: Expr) {
    forall q :: IsPath(f.graph, q, b) ==> ComputedAlong(f, q, e)
  }

  lemma PathBlockReachable(g: Graph, q: seq<nat>, b: nat, i: nat)
    requires g.Valid() && IsPath(g, q, b) && i < |q|
    ensures Reachable(g, q[i]) && q[i] < |g.succ|
  {
    WalkPrefix(g, q, 0, b, i);
    assert IsPath(g, q[..i + 1], q[i]);
    ReachableIsBlock(g, q[i]);
  }

  /** After the last definition of one of its operands, the expression is computed again
      before the end of the path. */
  lemma RecomputedAfter(f: Function, q: seq<nat>, b: nat, j: nat, e: Expr) returns (k: nat)
    requires WellFormed(f) && StrictSsa(f) && ComputedOnAllPaths(f, b, e)
    requires IsPath(f.graph, q, b) && j < |q| - 1 && DefinesOperand(f, q[j], e)
    ensures j <= k < |q| - 1 && ComputedIn(f, q[k], e)
  {
    PathBlockReachable(f.graph, q, b, j);
    var p := FreshPath(f.graph, q[j]);
    ChainDetour(f.graph, q, b, j, p);
    var r := p + q[j + 1..];
    assert ComputedAlong(f, r, e);
    var i: nat :| i < |r| - 1 && ComputedIn(f, r[i], e);
    if i < |p| {
      PathBlockReachable(f.graph, p, q[j], i);
      DefinerDominates(f, p[i], q[j], e);
      WalkPrefix(f.graph, p, 0, q[j], i);
      assert IsPath(f.graph, p[..i + 1], p[i]);
      assert q[j] in p[..i + 1];
      k := j;
    } else {
      k := j + 1 + (i - |p|);
      assert r[i] == q[k];
    }
  }

  /** An expression that every path computes is never out of date at the end of a path. */
  lemma ComputedArrives(f: Function, domain: seq<Expr>, names: Names, q: seq<nat>, b: nat, d: nat)
    requires WellFormed(f) && StrictSsa(f) && UniqueNames(names) && d < |domain|
    requires ComputedOnAllPaths(f, b, domain[d]) && IsPath(f.graph, q, b)
    ensures ArrivesAlong(Gen(f, domain, names), Kill(f, domain, names), q, d)
  {
    var kill := Kill(f, domain, names);
    var k: nat, j := 0, |q| - 1;
    while j > 0 && d !in kill(q[j - 1])
      invariant 0 <= j <= |q| - 1
      invariant forall x :: j <= x < |q| - 1 ==> d !in kill(q[x])
      decreases j
    {
      j := j - 1;
    }
    if j > 0 {
      PathBlockReachable(f.graph, q, b, j - 1);
      KillBlock(f, domain, names, q[j - 1], d);
      k := RecomputedAfter(f, q, b, j - 1, domain[d]);
    } else {
      assert ComputedAlong(f, q, domain[d]);
      k :| k < |q| - 1 && ComputedIn(f, q[k], domain[d]);
    }
    PathBlockReachable(f.graph, q, b, k);
    GenBlock(f, domain, names, q[k], d);
    assert UntouchedAfter(kill, q, k, d);
  }

  lemma ArrivesIsComputed(f: Function, domain: seq<Expr>, names: Names, q: seq<nat>, b: nat, d: nat)
    requires WellFormed(f) && StrictSsa(f) && UniqueNames(names) && d < |domain| && IsPath(f.graph, q, b)
    requires ArrivesAlong(Gen(f, domain, names), Kill(f, domain, names), q, d)
    ensures ComputedAlong(f, q, domain[d])
  {
    var i: nat :| i < |q| - 1 && d in Gen(f, domain, names)(q[i]) && UntouchedAfter(Kill(f, domain, names), q, i, d);
    PathBlockReachable(f.graph, q, b, i);
    GenBlock(f, domain, names, q[i], d);
  }

  lemma AllPathsIsComputed(f: Function, domain: seq<Expr>, names: Names, b: nat, d: nat)
    requires WellFormed(f) && StrictSsa(f) && UniqueNames(names) && d < |domain|
    ensures HoldsOnAllPaths(f.graph, Gen(f, domain, names), Kill(f, domain, names), b, d) <==>
            ComputedOnAllPaths(f, b, domain[d])
  {
    if HoldsOnAllPaths(f.graph, Gen(f, domain, names), Kill(f, domain, names), b, d) {
      forall q | IsPath(f.graph, q, b)
        ensures ComputedAlong(f, q, domain[d])
      {
        ArrivesIsComputed(f, domain, names, q, b, d);
      }
    }
    if ComputedOnAllPaths(f, b, domain[d]) {
      forall q | IsPath(f.graph, q, b)
        ensures ArrivesAlong(Gen(f, domain, names), Kill(f, domain, names), q, d)
      {
        ComputedArrives(f, domain, names, q, b, d);
      }
    }
  }

  /** A block never kills an expression that is available on entry to it. */
  lemma KillsAreIdle(f: Function, domain: seq<Expr>, names: Names, b: nat, d: nat)
    requires WellFormed(f) && StrictSsa(f) && UniqueNames(names) && b < |f.blocks| && Reachable(f.graph, b)
    requires d < |domain| && ComputedOnAllPaths(f, b, domain[d])
    ensures d !in Kill(f, domain, names)(b)
  {
    if d in Kill(f, domain, names)(b) {
      KillBlock(f, domain, names, b, d);
      var q := FreshPath(f.graph, b);
      assert ComputedAlong(f, q, domain[d]);
      var i: nat :| i < |q| - 1 && ComputedIn(f, q[i], domain[d]);
      PathBlockReachable(f.graph, q, b, i);
      DefinerDominates(f, q[i], b, domain[d]);
      WalkPrefix(f.graph, q, 0, b, i);
      assert IsPath(f.graph, q[..i + 1], q[i]);
    }
  }

  lemma AvailableExact(f: Function, domain: seq<Expr>, names: Names, res: Results, b: nat, d: nat)
    requires WellFormed(f) && StrictSsa(f) && UniqueNames(names) &&
             Solved(AvailableProblem(f, domain, names), {}, {}, res)
    requires b < |f.blocks| && Reachable(f.graph, b)
    ensures d in res[b].inSet <==> d < |domain| && ComputedOnAllPaths(f, b, domain[d])
    ensures d in res[b].inSet ==> d !in KillSet(domain, names, f.blocks[b])
  {
    var p := AvailableProblem(f, domain, names);
    AvailableIsGenKill(f, domain, names);
    ForwardExact(p, Gen(f, domain, names), Kill(f, domain, names), {}, {}, res, b, d);
    if d < |domain| {
      AllPathsIsComputed(f, domain, names, b, d);
    }
    if d in res[b].inSet {
      KillsAreIdle(f, domain, names, b, d);
    }
  }

  /** The names of the values, on which the kills depend, do not change the answer: it is
      the same when no instruction has a name and nothing is ever killed. */
  lemma NamesDoNotMatter(f: Function, domain: seq<Expr>, names: Names, res: Results, unnamed: Results, b: nat)
    requires WellFormed(f) && StrictSsa(f) && UniqueNames(names)
    requires Solved(AvailableProblem(f, domain, names), {}, {}, res)
    requires Solved(AvailableProblem(f, domain, map[]), {}, {}, unnamed)
    requires b < |f.blocks| && Reachable(f.graph, b)
    ensures res[b].inSet == unnamed[b].inSet
  {
    forall d: nat
      ensures d in res[b].inSet <==> d in unnamed[b].inSet
    {
      AvailableExact(f, domain, names, res, b, d);
      AvailableExact(f, domain, map[], unnamed, b, d);
    }
  }

  /** Available expressions of a function in strict SSA form: the IN set of a reachable
      block holds exactly the expressions computed on every path to it, and the block
      kills none of them. */
  method AvailableExpressions(f: Function, domain: seq<Expr>, names: Names, order: seq<nat>) returns (res: Results)
    requires WellFormed(f) && StrictSsa(f) && UniqueNames(names) && IsOrder(AvailableProblem(f, domain, names), order)
    ensures AvailableProblem(f, domain, names).Covers(res)
    ensures forall b: nat, d: nat :: b < |f.blocks| && Reachable(f.graph, b) ==>
              (d in res[b].inSet <==> d < |domain| && ComputedOnAllPaths(f, b, domain[d]))
    ensures forall b: nat :: b < |f.blocks| && Reachable(f.graph, b) ==>
            res[b].inSet !! KillSet(domain, names, f.blocks[b])
  {
    var p := AvailableProblem(f, domain, names);
    AvailableIsGenKill(f, domain, names);
    ForwardWellBehaved(p, Gen(f, domain, names), Kill(f, domain, names));
    res := Run(p, order, {}, Upto(|domain|), {});
    forall b: nat, d: nat | b < |f.blocks| && Reachable(f.graph, b)
      ensures d in res[b].inSet <==> d < |domain| && ComputedOnAllPaths(f, b, domain[d])
    {
      AvailableExact(f, domain, names, res, b, d);
    }
    forall b: nat | b < |f.blocks| && Reachable(f.graph, b)
      ensures res[b].inSet !! KillSet(domain, names, f.blocks[b])
    {
      forall d: nat | d in res[b].inSet
        ensures d !in KillSet(domain, names, f.blocks[b])
      {
        AvailableExact(f, domain, names, res, b, d);
      }
    }
  }
}
