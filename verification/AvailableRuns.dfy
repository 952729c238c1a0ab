/** What available expressions are for: in every run, an expression available on entry to
    a block is the value of an instruction already executed, and that value is up to date. */
module AvailableRuns {
  import opened Cfg
  import opened DataFlow
  import opened Ir
  import opened Available

  /** What a binary operator computes, by opcode. */
  type BinaryOp = (nat, int, int) -> int

  /** In this meaning every binary operator computes what its opcode says. */
  ghost predicate ByOpcode(f: Function, m: Semantics, op: BinaryOp) {
    forall b: nat, i: nat :: At(f, b, i) && f.blocks[b][i].kind.Binary? ==> OperatorMeans(m, op, f.blocks[b][i])
  }

  ghost predicate OperatorMeans(m: Semantics, op: BinaryOp, s: Instr)
    requires s.kind.Binary?
  {
    && (forall x, y :: m.eval(s.id, [x, y]) == op(s.kind.opcode, x, y))
    && (forall x, y, w :: m.read(s.id, [x, y], w) == op(s.kind.opcode, x, y))
  }

  /** The instruction at (b, i) is the operator of `e`, on the operands of `e`. */
  ghost predicate IsOperatorOf(f: Function, b: nat, i: nat, e: Expr) {
    && At(f, b, i) && f.blocks[b][i].kind.Binary?
    && f.blocks[b][i].kind.opcode == e.opcode && f.blocks[b][i].ops == [e.v1, e.v2]
  }

  /** Its result is what `e` has as its value now. */
  ghost predicate Holds(f: Function, op: BinaryOp, env: Env, b: nat, i: nat, e: Expr)
    requires At(f, b, i)
  {
    Lookup(env, f.blocks[b][i].id) == op(e.opcode, Value(env, e.v1), Value(env, e.v2))
  }

  /** Some instruction already holds the value of `e`. */
  ghost predicate IsHeld(f: Function, op: BinaryOp, env: Env, e: Expr) {
    exists b: nat, i: nat :: IsOperatorOf(f, b, i, e) && Holds(f, op, env, b, i, e)
  }

  lemma ComputesIsOperator(f: Function, b: nat, i: nat, e: Expr)
    requires At(f, b, i)
    ensures Computes(f.blocks[b][i], e) <==> IsOperatorOf(f, b, i, e)
  {
  }

  // ----- Inside one block -----

  lemma {:induction false} ExecFrame(m: Semantics, s: seq<Instr>, l: Local, d: nat)
    requires forall i :: 0 <= i < |s| ==> s[i].id != d
    ensures Lookup(ExecAll(m, s, l).env, d) == Lookup(l.env, d)
  {
    if s != [] {
      ExecFrame(m, s[..|s| - 1], l, d);
    }
  }

  ghost predicate DefinesIt(s: seq<Instr>, op: Operand) {
    exists i :: 0 <= i < |s| && op == Ref(s[i].id)
  }

  lemma ValueFrame(m: Semantics, s: seq<Instr>, l: Local, op: Operand)
    requires !DefinesIt(s, op)
    ensures Value(ExecAll(m, s, l).env, op) == Value(l.env, op)
  {
    if op.Ref? {
      ExecFrame(m, s, l, op.id);
    }
  }

  /** An operator holds its value once it is executed. */
  lemma ExecHolds(m: Semantics, op: BinaryOp, s: Instr, l: Local)
    requires s.kind.Binary? && |s.ops| == 2 && OperatorMeans(m, op, s)
    ensures Lookup(Exec(m, s, l).env, s.id) == op(s.kind.opcode, Value(l.env, s.ops[0]), Value(l.env, s.ops[1]))
  {
    assert Values(l.env, s.ops) == [Value(l.env, s.ops[0]), Value(l.env, s.ops[1])];
  }

  /** Neither the operands nor the result of an operator are defined after it in its block. */
  lemma NotDefinedAfter(f: Function, b: nat, i: nat, e: Expr)
    requires WellFormed(f) && StrictSsa(f) && Reachable(f.graph, b) && IsOperatorOf(f, b, i, e)
    ensures var rest := f.blocks[b][i..];
            && !DefinesIt(rest, e.v1) && !DefinesIt(rest, e.v2)
            && forall k :: 0 < k < |rest| ==> rest[k].id != f.blocks[b][i].id
  {
    var rest := f.blocks[b][i..];
    ComputesIsOperator(f, b, i, e);
    forall k | 0 <= k < |rest|
      ensures e.v1 != Ref(rest[k].id) && e.v2 != Ref(rest[k].id)
      ensures k > 0 ==> rest[k].id != f.blocks[b][i].id
    {
      assert At(f, b, i + k) && rest[k] == f.blocks[b][i + k];
      if e.v1 == Ref(rest[k].id) || e.v2 == Ref(rest[k].id) {
        OperandDominates(f, b, i, b, i + k, e);
      }
      assert SameIdSamePlace(f, b, i, b, i + k);
    }
  }

  /** At the end of its block an operator holds the value of its expression. */
  lemma HeldAtEnd(f: Function, m: Semantics, op: BinaryOp, b: nat, i: nat, e: Expr, l: Local)
    requires WellFormed(f) && StrictSsa(f) && ByOpcode(f, m, op) && Reachable(f.graph, b) && IsOperatorOf(f, b, i, e)
    ensures Holds(f, op, ExecAll(m, f.blocks[b], l).env, b, i, e)
  {
    var code, s := f.blocks[b], f.blocks[b][i];
    var before := ExecAll(m, code[..i], l);
    var after := Exec(m, s, before);
    ExecAppend(m, code[..i], code[i..], l);
    assert code[..i] + code[i..] == code;
    ExecAppend(m, [s], code[i + 1..], before);
    assert [s] + code[i + 1..] == code[i..];
    assert ExecAll(m, [s], before) == after by {
      assert [s][..0] == [];
    }
    NotDefinedAfter(f, b, i, e);
    ExecHolds(m, op, s, before);
    ValueFrame(m, code[i..], before, e.v1);
    ValueFrame(m, code[i..], before, e.v2);
    var rest := code[i + 1..];
    forall k | 0 <= k < |rest|
      ensures rest[k].id != s.id
    {
      assert rest[k] == code[i..][k + 1];
    }
    ExecFrame(m, rest, after, s.id);
  }

  /** Running a block leaves a value alone that the block does not define. */
  lemma RunFrame(f: Function, m: Semantics, b: nat, prev: nat, l: Local, op: Operand)
    requires b < |f.blocks| && !DefinesIt(f.blocks[b], op)
    ensures Value(RunBlock(m, f.blocks[b], prev, l).env, op) == Value(l.env, op)
  {
    var code := f.blocks[b];
    ValueFrame(m, code, Local(PhiEnv(code, prev, l.env), l.world), op);
    if op.Ref? {
      PhiEnvFrame(code, prev, l.env, op.id);
    }
  }

  /** A value held before a block that defines no operand of the expression is held after it. */
  lemma StillHeld(f: Function, m: Semantics, op: BinaryOp, b: nat, prev: nat, l: Local, e: Expr)
    requires WellFormed(f) && StrictSsa(f) && ByOpcode(f, m, op) && Reachable(f.graph, b) && b < |f.blocks|
    requires IsHeld(f, op, l.env, e) && !DefinesOperand(f, b, e)
    ensures IsHeld(f, op, RunBlock(m, f.blocks[b], prev, l).env, e)
  {
    var code := f.blocks[b];
    var c: nat, j: nat :| IsOperatorOf(f, c, j, e) && Holds(f, op, l.env, c, j, e);
    var after := RunBlock(m, code, prev, l).env;
    if c == b {
      HeldAtEnd(f, m, op, b, j, e, Local(PhiEnv(code, prev, l.env), l.world));
    } else {
      forall i: nat | i < |code|
        ensures e.v1 != Ref(code[i].id) && e.v2 != Ref(code[i].id) && code[i].id != f.blocks[c][j].id
      {
        assert At(f, b, i) && SameIdSamePlace(f, b, i, c, j);
      }
      RunFrame(f, m, b, prev, l, e.v1);
      RunFrame(f, m, b, prev, l, e.v2);
      RunFrame(f, m, b, prev, l, Ref(f.blocks[c][j].id));
      assert Value(l.env, Ref(f.blocks[c][j].id)) == Lookup(l.env, f.blocks[c][j].id);
      assert Value(after, Ref(f.blocks[c][j].id)) == Lookup(after, f.blocks[c][j].id);
    }
    assert Holds(f, op, after, c, j, e);
  }

  // ----- Along a run -----

  /** On the path `q`, before its last block, `e` is computed and no block after that
      defines one of its operands. */
  ghost predicate UpToDate(f: Function, q: seq<nat>, e: Expr) {
    exists i: nat :: i < |q| - 1 && ComputedIn(f, q[i], e) && NotDefinedBetween(f, q, i, e)
  }

  ghost predicate NotDefinedBetween(f: Function, q: seq<nat>, i: nat, e: Expr) {
    forall x :: i < x < |q| - 1 ==> !DefinesOperand(f, q[x], e)
  }

  /** An expression that every path computes is up to date on each of them. */
  lemma AvailableIsUpToDate(f: Function, q: seq<nat>, b: nat, e: Expr)
    requires WellFormed(f) && StrictSsa(f) && ComputedOnAllPaths(f, b, e) && IsPath(f.graph, q, b)
    ensures UpToDate(f, q, e)
  {
    var j := |q| - 1;
    while j > 0 && !DefinesOperand(f, q[j - 1], e)
      invariant 0 <= j <= |q| - 1
      invariant forall x :: j <= x < |q| - 1 ==> !DefinesOperand(f, q[x], e)
      decreases j
    {
      j := j - 1;
    }
    var k: nat;
    if j > 0 {
      k := RecomputedAfter(f, q, b, j - 1, e);
    } else {
      assert ComputedAlong(f, q, e);
      k :| k < |q| - 1 && ComputedIn(f, q[k], e);
    }
    assert NotDefinedBetween(f, q, k, e);
  }

  /** Everything up to date on the path so far is held. */
  ghost predicate AllHeld(f: Function, op: BinaryOp, q: seq<nat>, env: Env) {
    forall e :: UpToDate(f, q, e) ==> IsHeld(f, op, env, e)
  }

  lemma HeldStep(f: Function, m: Semantics, op: BinaryOp, q: seq<nat>, b: nat, c: nat, prev: nat, l: Local)
    requires WellFormed(f) && StrictSsa(f) && ByOpcode(f, m, op) && IsPath(f.graph, q, b) && b < |f.blocks|
    requires AllHeld(f, op, q, l.env)
    ensures AllHeld(f, op, q + [c], RunBlock(m, f.blocks[b], prev, l).env)
  {
    var after := RunBlock(m, f.blocks[b], prev, l).env;
    assert Reachable(f.graph, b);
    forall e | UpToDate(f, q + [c], e)
      ensures IsHeld(f, op, after, e)
    {
      var r := q + [c];
      var i: nat :| i < |r| - 1 && ComputedIn(f, r[i], e) && NotDefinedBetween(f, r, i, e);
      if i == |q| - 1 {
        var j: nat :| At(f, b, j) && Computes(f.blocks[b][j], e);
        ComputesIsOperator(f, b, j, e);
        HeldAtEnd(f, m, op, b, j, e, Local(PhiEnv(f.blocks[b], prev, l.env), l.world));
      } else {
        assert r[|q| - 1] == b && ComputedIn(f, q[i], e);
        forall x | i < x < |q| - 1
          ensures !DefinesOperand(f, q[x], e)
        {
          assert q[x] == r[x];
        }
        assert NotDefinedBetween(f, q, i, e);
        StillHeld(f, m, op, b, prev, l, e);
      }
    }
  }

  /** The blocks a run has been through form a path, and what is up to date on it is held. */
  lemma {:induction false} RunHolds(f: Function, m: Semantics, op: BinaryOp, l: Local, k: nat) returns (q: seq<nat>)
    requires WellFormed(f) && StrictSsa(f) && ByOpcode(f, m, op)
    ensures var s := RunFor(f, m, Running(0, 0, l), k);
            s.Running? ==> IsPath(f.graph, q, s.block) && AllHeld(f, op, q, s.local.env)
  {
    q := [0];
    assert IsPath(f.graph, q, 0);
    if k > 0 {
      var s := RunFor(f, m, Running(0, 0, l), k - 1);
      q := RunHolds(f, m, op, l, k - 1);
      if s.Running? {
        WalkInBlocks(f.graph, q, 0, s.block);
        assert q[|q| - 1] in q;
        var code := f.blocks[s.block];
        assert BlockShape(f, s.block);
        var after := RunBlock(m, code, s.prev, s.local);
        LeaveEdge(f.graph, m, s.block, code[|code| - 1], after);
        var t := Step(f, m, s);
        if t.Running? {
          HeldStep(f, m, op, q, s.block, t.block, s.prev, s.local);
          WalkExtend(f.graph, q, 0, s.block, t.block);
          q := q + [t.block];
        }
      }
    }
  }

  /** Whenever a run enters a block, every expression that the analysis reports as available
      there is held by an operator of the function, so it need not be computed again. */
  lemma AvailableIsHeld(f: Function, domain: seq<Expr>, names: Names, res: Results, m: Semantics, op: BinaryOp,
                        l: Local, k: nat, d: nat)
    requires WellFormed(f) && StrictSsa(f) && UniqueNames(names) && ByOpcode(f, m, op)
    requires Solved(AvailableProblem(f, domain, names), {}, {}, res)
    requires var s := RunFor(f, m, Running(0, 0, l), k); s.Running? && s.block in res && d in res[s.block].inSet
    ensures d < |domain| && IsHeld(f, op, RunFor(f, m, Running(0, 0, l), k).local.env, domain[d])
  {
    var s := RunFor(f, m, Running(0, 0, l), k);
    var q := RunHolds(f, m, op, l, k);
    assert Reachable(f.graph, s.block);
    ReachableIsBlock(f.graph, s.block);
    AvailableExact(f, domain, names, res, s.block, d);
    AvailableIsUpToDate(f, q, s.block, domain[d]);
  }
}
