/** Replacing an instruction by a value in a whole function: uses in every block follow. */
module ReplaceAll {
  import opened Cfg
  import opened Ir

  function SubstOp(op: Operand, d: nat, v: Operand): Operand {
    if op == Ref(d) then v else op
  }

  function SubstOps(ops: seq<Operand>, d: nat, v: Operand): (r: seq<Operand>)
    ensures |r| == |ops| && forall k :: 0 <= k < |ops| ==> r[k] == SubstOp(ops[k], d, v)
  {
    seq(|ops|, k requires 0 <= k < |ops| => SubstOp(ops[k], d, v))
  }

  function SubstInstr(s: Instr, d: nat, v: Operand): Instr {
    s.(ops := SubstOps(s.ops, d, v))
  }

  /** The block without `d`, with `v` wherever `d` was used. */
  function ReplacedBlock(s: seq<Instr>, d: nat, v: Operand): seq<Instr> {
    if s == [] then []
    else
      var last := s[|s| - 1];
      ReplacedBlock(s[..|s| - 1], d, v) + if last.id == d then [] else [SubstInstr(last, d, v)]
  }

  function Replaced(f: Function, d: nat, v: Operand): Function {
    f.(blocks := seq(|f.blocks|, b requires 0 <= b < |f.blocks| => ReplacedBlock(f.blocks[b], d, v)))
  }

  predicate IsOperator(s: Instr) {
    s.kind.Binary? || s.kind.Pure?
  }

  /** The operator at (b0, k0) may be replaced by `v`: a constant or one of its operands. */
  ghost predicate CanReplace(f: Function, b0: nat, k0: nat, v: Operand) {
    && WellFormed(f) && StrictSsa(f) && At(f, b0, k0) && IsOperator(f.blocks[b0][k0])
    && (v.Ref? ==> f.blocks[b0][k0].Uses(v.id))
  }

  function Start(l: Local): State {
    Running(0, 0, l)
  }

  /** The values and the world just before the i-th instruction of a block. */
  function Before(m: Semantics, s: seq<Instr>, i: nat, p: nat, l: Local): Local
    requires i <= |s|
  {
    ExecAll(m, s[..i], Local(PhiEnv(s, p, l.env), l.world))
  }

  /** Executing `s` gives the value of `v`. */
  ghost predicate Computes(m: Semantics, s: Instr, l: Local, v: Operand) {
    Lookup(Exec(m, s, l).env, s.id) == Value(l.env, v)
  }

  /** Whenever this run executes the operator, it computes the value of `v`. */
  ghost predicate Justified(f: Function, m: Semantics, b0: nat, k0: nat, v: Operand, l: Local)
    requires At(f, b0, k0)
  {
    forall n: nat, p, l1 :: RunFor(f, m, Start(l), n) == Running(b0, p, l1) ==>
      JustifiedAt(f, m, b0, k0, v, p, l1)
  }

  ghost predicate JustifiedAt(f: Function, m: Semantics, b0: nat, k0: nat, v: Operand, p: nat, l1: Local)
    requires At(f, b0, k0)
  {
    Computes(m, f.blocks[b0][k0], Before(m, f.blocks[b0], k0, p, l1), v)
  }

  // ----- Where the replaced value and its stand-in are defined -----

  /** In reachable code `v` is not defined at, after, or below the operator. */
  lemma StandInIsEarlier(f: Function, b0: nat, k0: nat, v: Operand, b: nat, i: nat)
    requires CanReplace(f, b0, k0, v) && At(f, b, i) && v == Ref(f.blocks[b][i].id)
    requires Reachable(f.graph, b)
    ensures !SDom(f.graph, b0, b) && (b == b0 ==> i < k0)
  {
    assert IsUse(f, b0, k0, b, i);
    if SDom(f.graph, b0, b) {
      DominatorReachable(f.graph, b0, b);
      assert DefBeforeUse(f, b0, k0, b, i);
      DomAntisym(f.graph, b0, b);
    } else if b == b0 {
      assert DefBeforeUse(f, b0, k0, b, i);
    }
  }

  lemma OnlyThere(f: Function, b0: nat, k0: nat, b: nat, i: nat)
    requires UniqueIds(f) && At(f, b0, k0) && At(f, b, i) && f.blocks[b][i].id == f.blocks[b0][k0].id
    ensures b == b0 && i == k0
  {
    assert SameIdSamePlace(f, b, i, b0, k0);
  }

  lemma NotItself(f: Function, b0: nat, k0: nat, v: Operand)
    requires CanReplace(f, b0, k0, v) && Reachable(f.graph, b0)
    ensures v != Ref(f.blocks[b0][k0].id)
  {
    if v == Ref(f.blocks[b0][k0].id) {
      StandInIsEarlier(f, b0, k0, v, b0, k0);
    }
  }

  // ----- The relation between the two runs -----

  /** Before instruction `i` of block `b` the operator has been executed. */
  ghost predicate Available(f: Function, b0: nat, k0: nat, b: nat, i: nat) {
    SDom(f.graph, b0, b) || (b == b0 && i > k0)
  }

  ghost predicate RelatedAt(f: Function, b0: nat, k0: nat, v: Operand, b: nat, i: nat, l: Local, l': Local)
    requires At(f, b0, k0)
  {
    var d := f.blocks[b0][k0].id;
    && l.world == l'.world && AgreeOff({d}, l.env, l'.env)
    && (Available(f, b0, k0, b, i) ==> Lookup(l.env, d) == Value(l'.env, v))
  }

  lemma OperandFollows(d: nat, v: Operand, e: Env, e': Env, op: Operand)
    requires AgreeOff({d}, e, e') && (op == Ref(d) ==> Lookup(e, d) == Value(e', v))
    ensures Value(e, op) == Value(e', SubstOp(op, d, v))
  {
  }

  lemma OperandsFollow(f: Function, b0: nat, k0: nat, v: Operand, b: nat, i: nat, l: Local, l': Local)
    requires CanReplace(f, b0, k0, v) && At(f, b, i) && Reachable(f.graph, b) && !f.blocks[b][i].kind.Phi?
    requires RelatedAt(f, b0, k0, v, b, i, l, l')
    ensures var s, d := f.blocks[b][i], f.blocks[b0][k0].id;
            Values(l.env, s.ops) == Values(l'.env, SubstOps(s.ops, d, v))
  {
    var s, d := f.blocks[b][i], f.blocks[b0][k0].id;
    forall k | 0 <= k < |s.ops|
      ensures Value(l.env, s.ops[k]) == Value(l'.env, SubstOp(s.ops[k], d, v))
    {
      if s.ops[k] == Ref(d) {
        assert IsUse(f, b, i, b0, k0);
        assert DefBeforeUse(f, b, i, b0, k0);
      }
      OperandFollows(d, v, l.env, l'.env, s.ops[k]);
    }
  }

  lemma SetSame(d: nat, e: Env, e': Env, x: nat, value: int)
    requires AgreeOff({d}, e, e')
    ensures AgreeOff({d}, e[x := value], e'[x := value])
  {
    var u, u' := e[x := value], e'[x := value];
    forall c: nat | c != d
      ensures Lookup(u, c) == Lookup(u', c)
    {
      assert Lookup(e, c) == Lookup(e', c);
    }
  }

  /** Any other instruction does the same in both functions. */
  lemma OtherStep(f: Function, m: Semantics, b0: nat, k0: nat, v: Operand, b: nat, i: nat, l: Local, l': Local)
    requires CanReplace(f, b0, k0, v) && At(f, b, i) && Reachable(f.graph, b) &&
             f.blocks[b][i].id != f.blocks[b0][k0].id
    requires RelatedAt(f, b0, k0, v, b, i, l, l')
    ensures var s := f.blocks[b][i];
            RelatedAt(f, b0, k0, v, b, i + 1, Exec(m, s, l), Exec(m, SubstInstr(s, f.blocks[b0][k0].id, v), l'))
  {
    var s, d := f.blocks[b][i], f.blocks[b0][k0].id;
    assert Available(f, b0, k0, b, i + 1) ==> Available(f, b0, k0, b, i);
    if !s.kind.Phi? && !s.kind.Term? {
      OperandsFollow(f, b0, k0, v, b, i, l, l');
      var r := Exec(m, s, l);
      var x := Lookup(r.env, s.id);
      SetSame(d, l.env, l'.env, s.id, x);
      if v == Ref(s.id) {
        StandInIsEarlier(f, b0, k0, v, b, i);
      }
    }
  }

  /** The operator itself is executed in one function only. */
  lemma OperatorStep(f: Function, m: Semantics, b0: nat, k0: nat, v: Operand, l: Local, l': Local)
    requires CanReplace(f, b0, k0, v) && Reachable(f.graph, b0) && RelatedAt(f, b0, k0, v, b0, k0, l, l')
    requires Computes(m, f.blocks[b0][k0], l, v)
    ensures RelatedAt(f, b0, k0, v, b0, k0 + 1, Exec(m, f.blocks[b0][k0], l), l')
  {
    NotItself(f, b0, k0, v);
  }

  lemma BlockOneMore(s: seq<Instr>, i: nat, d: nat, v: Operand)
    requires i < |s|
    ensures ReplacedBlock(s[..i + 1], d, v) ==
            ReplacedBlock(s[..i], d, v) + if s[i].id == d then [] else [SubstInstr(s[i], d, v)]
  {
    var t := s[..i + 1];
    assert t[..|t| - 1] == s[..i] && t[|t| - 1] == s[i];
  }

  lemma ExecLast(m: Semantics, s: seq<Instr>, t: Instr, l: Local)
    ensures ExecAll(m, s + [t], l) == Exec(m, t, ExecAll(m, s, l))
  {
    var r := s + [t];
    assert r[..|r| - 1] == s && r[|r| - 1] == t;
  }

  lemma {:induction false} PrefixRelated(f: Function, m: Semantics, b0: nat, k0: nat, v: Operand, b: nat, i: nat,
                                         l: Local, l': Local)
    requires CanReplace(f, b0, k0, v) && b < |f.blocks| && i <= |f.blocks[b]| && Reachable(f.graph, b)
    requires RelatedAt(f, b0, k0, v, b, 0, l, l')
    requires b == b0 && i > k0 ==> Computes(m, f.blocks[b0][k0], ExecAll(m, f.blocks[b0][..k0], l), v)
    ensures var s, d := f.blocks[b], f.blocks[b0][k0].id;
            RelatedAt(f, b0, k0, v, b, i, ExecAll(m, s[..i], l), ExecAll(m, ReplacedBlock(s[..i], d, v), l'))
  {
    if i > 0 {
      var s, d, k := f.blocks[b], f.blocks[b0][k0].id, i - 1;
      PrefixRelated(f, m, b0, k0, v, b, k, l, l');
      BlockOneMore(s, k, d, v);
      assert s[..i] == s[..k] + [s[k]];
      ExecLast(m, s[..k], s[k], l);
      if s[k].id == d {
        OnlyThere(f, b0, k0, b, k);
        OperatorStep(f, m, b0, k0, v, ExecAll(m, s[..k], l), ExecAll(m, ReplacedBlock(s[..k], d, v), l'));
        assert ReplacedBlock(s[..i], d, v) == ReplacedBlock(s[..k], d, v);
      } else {
        OtherStep(f, m, b0, k0, v, b, k, ExecAll(m, s[..k], l), ExecAll(m, ReplacedBlock(s[..k], d, v), l'));
        ExecLast(m, ReplacedBlock(s[..k], d, v), SubstInstr(s[k], d, v), l');
      }
    }
  }

  // ----- Entering a block -----

  lemma {:induction false} IncomingSubst(from: seq<nat>, ops: seq<Operand>, p: nat, k: nat, d: nat, v: Operand)
    ensures Incoming(from, SubstOps(ops, d, v), p, k) == SubstOp(Incoming(from, ops, p, k), d, v)
    decreases |from| - k
  {
    if k < |from| && k < |ops| && from[k] != p {
      IncomingSubst(from, ops, p, k + 1, d, v);
    }
  }

  /** At the end of block `p` the operator has been executed if its block dominates `p`. */
  ghost predicate AgreeAtEnd(f: Function, b0: nat, d: nat, v: Operand, p: nat, e: Env, e': Env) {
    Dom(f.graph, b0, p) ==> Lookup(e, d) == Value(e', v)
  }

  lemma PhiFollows(f: Function, b0: nat, k0: nat, v: Operand, b: nat, i: nat, p: nat, e: Env, e': Env)
    requires CanReplace(f, b0, k0, v) && At(f, b, i) && f.blocks[b][i].kind.Phi? && Reachable(f.graph, b)
    requires AgreeOff({f.blocks[b0][k0].id}, e, e') && (b != 0 ==> AgreeAtEnd(f, b0, f.blocks[b0][k0].id, v, p, e, e'))
    ensures Taken(f.blocks[b][i], p, e) == Taken(SubstInstr(f.blocks[b][i], f.blocks[b0][k0].id, v), p, e')
  {
    var s, d := f.blocks[b][i], f.blocks[b0][k0].id;
    var op := Incoming(s.kind.from, s.ops, p, 0);
    IncomingSubst(s.kind.from, s.ops, p, 0, d, v);
    if op == Ref(d) {
      var k :| 0 <= k < |s.ops| && k < |s.kind.from| && s.kind.from[k] == p && s.ops[k] == op;
      assert BlockShape(f, b) && PhiShape(f, b, s) && f.graph.Edge(s.kind.from[k], b);
      assert IsUse(f, b, i, b0, k0);
      assert DefBeforeUse(f, b, i, b0, k0);
    }
    OperandFollows(d, v, e, e', op);
  }

  lemma PhiLast(s: seq<Instr>, t: Instr, p: nat, e: Env)
    ensures PhiEnv(s + [t], p, e) == if t.kind.Phi? then PhiEnv(s, p, e)[t.id := Taken(t, p, e)] else PhiEnv(s, p, e)
  {
    var r := s + [t];
    assert r[..|r| - 1] == s && r[|r| - 1] == t;
  }

  lemma {:induction false} PhisFollow(f: Function, b0: nat, k0: nat, v: Operand, b: nat, i: nat, p: nat, e: Env,
                                      e': Env)
    requires CanReplace(f, b0, k0, v) && b < |f.blocks| && i <= |f.blocks[b]| && Reachable(f.graph, b)
    requires AgreeOff({f.blocks[b0][k0].id}, e, e') && (b != 0 ==> AgreeAtEnd(f, b0, f.blocks[b0][k0].id, v, p, e, e'))
    ensures var s, d := f.blocks[b], f.blocks[b0][k0].id;
            AgreeOff({d}, PhiEnv(s[..i], p, e), PhiEnv(ReplacedBlock(s[..i], d, v), p, e'))
  {
    if i > 0 {
      var s, d, k := f.blocks[b], f.blocks[b0][k0].id, i - 1;
      PhisFollow(f, b0, k0, v, b, k, p, e, e');
      BlockOneMore(s, k, d, v);
      assert s[..i] == s[..k] + [s[k]];
      PhiLast(s[..k], s[k], p, e);
      if s[k].id == d {
        OnlyThere(f, b0, k0, b, k);
        assert ReplacedBlock(s[..i], d, v) == ReplacedBlock(s[..k], d, v);
      } else {
        PhiLast(ReplacedBlock(s[..k], d, v), SubstInstr(s[k], d, v), p, e');
        if s[k].kind.Phi? {
          PhiFollows(f, b0, k0, v, b, k, p, e, e');
          SetSame(d, PhiEnv(s[..k], p, e), PhiEnv(ReplacedBlock(s[..k], d, v), p, e'), s[k].id, Taken(s[k], p, e));
        }
      }
    }
  }

  /** The phis of a block below the operator touch neither the operator nor its stand-in. */
  lemma PhisKeep(f: Function, b0: nat, k0: nat, v: Operand, b: nat, p: nat, e: Env)
    requires CanReplace(f, b0, k0, v) && b < |f.blocks| && Reachable(f.graph, b) && SDom(f.graph, b0, b)
    ensures Lookup(PhiEnv(f.blocks[b], p, e), f.blocks[b0][k0].id) == Lookup(e, f.blocks[b0][k0].id)
    ensures Value(PhiEnv(f.blocks[b], p, e), v) == Value(e, v)
  {
    var s, d := f.blocks[b], f.blocks[b0][k0].id;
    forall i | 0 <= i < |s|
      ensures s[i].id != d && v != Ref(s[i].id)
    {
      if s[i].id == d {
        OnlyThere(f, b0, k0, b, i);
      }
      if v == Ref(s[i].id) {
        StandInIsEarlier(f, b0, k0, v, b, i);
      }
    }
    PhiEnvFrame(s, p, e, d);
    if v.Ref? {
      PhiEnvFrame(s, p, e, v.id);
    }
  }

  ghost predicate Related(f: Function, b0: nat, k0: nat, v: Operand, s: State, s': State)
    requires At(f, b0, k0)
  {
    var d := f.blocks[b0][k0].id;
    && Observe(s) == Observe(s')
    && (s.Running? ==>
          && Reachable(f.graph, s.block) && (s.block == 0 || f.graph.Edge(s.prev, s.block))
          && AgreeOff({d}, s.local.env, s'.local.env)
          && (s.block != 0 ==> AgreeAtEnd(f, b0, d, v, s.prev, s.local.env, s'.local.env)))
  }

  lemma EnterRelated(f: Function, b0: nat, k0: nat, v: Operand, b: nat, p: nat, l: Local, l': Local)
    requires CanReplace(f, b0, k0, v) && Related(f, b0, k0, v, Running(b, p, l), Running(b, p, l'))
    ensures b < |f.blocks|
    ensures var s, d := f.blocks[b], f.blocks[b0][k0].id;
            RelatedAt(f, b0, k0, v, b, 0, Local(PhiEnv(s, p, l.env), l.world),
                      Local(PhiEnv(ReplacedBlock(s, d, v), p, l'.env), l'.world))
  {
    ReachableIsBlock(f.graph, b);
    var s, d := f.blocks[b], f.blocks[b0][k0].id;
    PhisFollow(f, b0, k0, v, b, |s|, p, l.env, l'.env);
    assert s[..|s|] == s;
    if SDom(f.graph, b0, b) {
      assert b != 0 by {
        assert IsPath(f.graph, [0], 0);
      }
      SDomAcrossEdge(f.graph, b0, p, b);
      PhisKeep(f, b0, k0, v, b, p, l.env);
      DominatorReachable(f.graph, b0, b);
      NotItself(f, b0, k0, v);
    }
  }

  // ----- One block, and whole runs -----

  lemma LastIsKept(f: Function, b0: nat, k0: nat, v: Operand, b: nat)
    requires CanReplace(f, b0, k0, v) && b < |f.blocks|
    ensures f.blocks[b] != []
    ensures var s, d := f.blocks[b], f.blocks[b0][k0].id;
            var r := ReplacedBlock(s, d, v);
            s[|s| - 1].id != d && s[|s| - 1].kind.Term? && r != [] && r[|r| - 1] == SubstInstr(s[|s| - 1], d, v)
  {
    assert BlockShape(f, b);
    var s := f.blocks[b];
    if s[|s| - 1].id == f.blocks[b0][k0].id {
      OnlyThere(f, b0, k0, b, |s| - 1);
    }
  }

  /** Running a whole block in both functions. */
  lemma BlockRelated(f: Function, m: Semantics, b0: nat, k0: nat, v: Operand, b: nat, p: nat, l: Local, l': Local)
    requires CanReplace(f, b0, k0, v) && Related(f, b0, k0, v, Running(b, p, l), Running(b, p, l')) && b < |f.blocks|
    requires b == b0 ==> JustifiedAt(f, m, b0, k0, v, p, l)
    ensures var s, d := f.blocks[b], f.blocks[b0][k0].id;
            var r, r' := RunBlock(m, s, p, l), RunBlock(m, ReplacedBlock(s, d, v), p, l');
            && s != [] && RelatedAt(f, b0, k0, v, b, |s|, r, r')
            && Values(r.env, s[|s| - 1].ops) == Values(r'.env, SubstOps(s[|s| - 1].ops, d, v))
  {
    var s, d := f.blocks[b], f.blocks[b0][k0].id;
    EnterRelated(f, b0, k0, v, b, p, l, l');
    LastIsKept(f, b0, k0, v, b);
    var l0, l0' := Local(PhiEnv(s, p, l.env), l.world), Local(PhiEnv(ReplacedBlock(s, d, v), p, l'.env), l'.world);
    PrefixRelated(f, m, b0, k0, v, b, |s|, l0, l0');
    assert s[..|s|] == s;
    var r, r' := ExecAll(m, s, l0), ExecAll(m, ReplacedBlock(s, d, v), l0');
    assert RelatedAt(f, b0, k0, v, b, |s| - 1, r, r');
    OperandsFollow(f, b0, k0, v, b, |s| - 1, r, r');
  }

  lemma StepRelated(f: Function, m: Semantics, b0: nat, k0: nat, v: Operand, s: State, s': State)
    requires CanReplace(f, b0, k0, v) && Related(f, b0, k0, v, s, s')
    requires s.Running? && s.block == b0 ==> JustifiedAt(f, m, b0, k0, v, s.prev, s.local)
    ensures Related(f, b0, k0, v, Step(f, m, s), Step(Replaced(f, f.blocks[b0][k0].id, v), m, s'))
  {
    if s.Running? {
      var b, p, d := s.block, s.prev, f.blocks[b0][k0].id;
      ReachableIsBlock(f.graph, b);
      BlockRelated(f, m, b0, k0, v, b, p, s.local, s'.local);
      LastIsKept(f, b0, k0, v, b);
      var code := f.blocks[b];
      LeaveRelated(f, m, b0, k0, v, b, code[|code| - 1], RunBlock(m, code, p, s.local),
                   RunBlock(m, ReplacedBlock(code, d, v), p, s'.local));
    }
  }

  lemma LeaveRelated(f: Function, m: Semantics, b0: nat, k0: nat, v: Operand, b: nat, t: Instr, r: Local, r': Local)
    requires WellFormed(f) && At(f, b0, k0) && b < |f.blocks| && Reachable(f.graph, b)
    requires RelatedAt(f, b0, k0, v, b, |f.blocks[b]|, r, r')
    requires Values(r.env, t.ops) == Values(r'.env, SubstOps(t.ops, f.blocks[b0][k0].id, v))
    ensures Related(f, b0, k0, v, Leave(f.graph, m, b, t, r),
            Leave(f.graph, m, b, SubstInstr(t, f.blocks[b0][k0].id, v), r'))
  {
    var n := Leave(f.graph, m, b, t, r);
    LeaveEdge(f.graph, m, b, t, r);
    if n.Running? {
      ReachableStep(f.graph, b, n.block);
      assert Dom(f.graph, b0, b) ==> Available(f, b0, k0, b, |f.blocks[b]|);
    }
  }

  lemma {:induction false} RunRelated(f: Function, m: Semantics, b0: nat, k0: nat, v: Operand, l: Local, n: nat)
    requires CanReplace(f, b0, k0, v) && Justified(f, m, b0, k0, v, l)
    ensures Related(f, b0, k0, v, RunFor(f, m, Start(l), n),
            RunFor(Replaced(f, f.blocks[b0][k0].id, v), m, Start(l), n))
  {
    if n == 0 {
      EntryReachable(f.graph);
    } else {
      RunRelated(f, m, b0, k0, v, l, n - 1);
      var s := RunFor(f, m, Start(l), n - 1);
      assert s.Running? && s.block == b0 ==> s == Running(b0, s.prev, s.local);
      StepRelated(f, m, b0, k0, v, s, RunFor(Replaced(f, f.blocks[b0][k0].id, v), m, Start(l), n - 1));
    }
  }

  /** Replacing an operator by a value that it computes throughout a run, in all blocks of
      the function, leaves the run as it was. */
  lemma ReplacingPreservesMeaning(f: Function, m: Semantics, b0: nat, k0: nat, v: Operand, l: Local, n: nat)
    requires CanReplace(f, b0, k0, v) && Justified(f, m, b0, k0, v, l)
    ensures Observe(RunFor(f, m, Running(0, 0, l), n)) ==
            Observe(RunFor(Replaced(f, f.blocks[b0][k0].id, v), m, Running(0, 0, l), n))
  {
    RunRelated(f, m, b0, k0, v, l, n);
  }

  // ----- Instructions that stay see the same operand values -----

  lemma {:induction false} OriginPrefix(s: seq<Instr>, d: nat, v: Operand, i: nat) returns (j: nat)
    requires i < |ReplacedBlock(s, d, v)|
    ensures j < |s| && s[j].id != d && ReplacedBlock(s, d, v)[i] == SubstInstr(s[j], d, v)
    ensures ReplacedBlock(s, d, v)[..i] == ReplacedBlock(s[..j], d, v)
  {
    var front := s[..|s| - 1];
    var r := ReplacedBlock(front, d, v);
    if i < |r| {
      j := OriginPrefix(front, d, v, i);
      assert front[..j] == s[..j];
      assert ReplacedBlock(s, d, v)[..i] == r[..i];
    } else {
      j := |s| - 1;
      assert ReplacedBlock(s, d, v)[..i] == r;
    }
  }

  /** When the new function is about to execute instruction `i` of block `b`, the original
      one is about to execute the same instruction with the same operand values. */
  lemma SameOperandValues(f: Function, m: Semantics, b0: nat, k0: nat, v: Operand, l: Local, n: nat, b: nat, i: nat)
    returns (j: nat)
    requires CanReplace(f, b0, k0, v) && Justified(f, m, b0, k0, v, l) && b < |f.blocks|
    requires i < |ReplacedBlock(f.blocks[b], f.blocks[b0][k0].id, v)|
    requires !ReplacedBlock(f.blocks[b], f.blocks[b0][k0].id, v)[i].kind.Phi?
    ensures var s, d := f.blocks[b], f.blocks[b0][k0].id;
            var r := ReplacedBlock(s, d, v);
            && j < |s| && r[i] == SubstInstr(s[j], d, v)
            && forall p, l1' :: RunFor(Replaced(f, d, v), m, Start(l), n) == Running(b, p, l1') ==>
                 exists l1 :: RunFor(f, m, Start(l), n) == Running(b, p, l1) &&
                              Values(Before(m, s, j, p, l1).env, s[j].ops) ==
                              Values(Before(m, r, i, p, l1').env, r[i].ops)
  {
    var s, d := f.blocks[b], f.blocks[b0][k0].id;
    var r := ReplacedBlock(s, d, v);
    j := OriginPrefix(s, d, v, i);
    RunRelated(f, m, b0, k0, v, l, n);
    forall p, l1' | RunFor(Replaced(f, d, v), m, Start(l), n) == Running(b, p, l1')
      ensures exists l1 :: RunFor(f, m, Start(l), n) == Running(b, p, l1) &&
                           Values(Before(m, s, j, p, l1).env, s[j].ops) == Values(Before(m, r, i, p, l1').env, r[i].ops)
    {
      var l1 := RunFor(f, m, Start(l), n).local;
      assert RunFor(f, m, Start(l), n) == Running(b, p, l1);
      assert b == b0 ==> JustifiedAt(f, m, b0, k0, v, p, l1);
      SameValuesAt(f, m, b0, k0, v, b, j, p, l1, l1');
    }
  }

  lemma SameValuesAt(f: Function, m: Semantics, b0: nat, k0: nat, v: Operand, b: nat, j: nat, p: nat, l: Local,
                     l': Local)
    requires CanReplace(f, b0, k0, v) && Related(f, b0, k0, v, Running(b, p, l), Running(b, p, l'))
    requires At(f, b, j) && !f.blocks[b][j].kind.Phi? && (b == b0 ==> JustifiedAt(f, m, b0, k0, v, p, l))
    ensures var s, d := f.blocks[b], f.blocks[b0][k0].id;
            var r := ReplacedBlock(s, d, v);
            var e' := ExecAll(m, ReplacedBlock(s[..j], d, v), Local(PhiEnv(r, p, l'.env), l'.world)).env;
            Values(Before(m, s, j, p, l).env, s[j].ops) == Values(e', SubstOps(s[j].ops, d, v))
  {
    var s, d := f.blocks[b], f.blocks[b0][k0].id;
    var r := ReplacedBlock(s, d, v);
    EnterRelated(f, b0, k0, v, b, p, l, l');
    var l0, l0' := Local(PhiEnv(s, p, l.env), l.world), Local(PhiEnv(r, p, l'.env), l'.world);
    PrefixRelated(f, m, b0, k0, v, b, j, l0, l0');
    OperandsFollow(f, b0, k0, v, b, j, ExecAll(m, s[..j], l0), ExecAll(m, ReplacedBlock(s[..j], d, v), l0'));
  }

  // ----- The function is still in SSA form -----

  lemma {:induction false} ReplacedIsWithout(s: seq<Instr>, d: nat, v: Operand)
    ensures |ReplacedBlock(s, d, v)| == |Without(s, {d})|
    ensures forall i :: 0 <= i < |Without(s, {d})| ==> ReplacedBlock(s, d, v)[i] == SubstInstr(Without(s, {d})[i], d, v)
  {
    if s != [] {
      ReplacedIsWithout(s[..|s| - 1], d, v);
    }
  }

  /** Where an instruction of the new function stood before. */
  lemma Origin(f: Function, d: nat, v: Operand, b: nat, i: nat) returns (j: nat)
    requires At(Replaced(f, d, v), b, i)
    ensures i < |Without(f.blocks[b], {d})| && At(f, b, j) && f.blocks[b][j] == Without(f.blocks[b], {d})[i]
    ensures f.blocks[b][j].id != d && Replaced(f, d, v).blocks[b][i] == SubstInstr(f.blocks[b][j], d, v)
  {
    var kept := Without(f.blocks[b], {d});
    ReplacedIsWithout(f.blocks[b], d, v);
    assert kept[i] in kept;
    WithoutMember(f.blocks[b], {d}, kept[i]);
    j :| 0 <= j < |f.blocks[b]| && f.blocks[b][j] == kept[i];
  }

  lemma ReplacedUnique(f: Function, d: nat, v: Operand)
    requires UniqueIds(f)
    ensures UniqueIds(Replaced(f, d, v))
  {
    var f' := Replaced(f, d, v);
    forall b: nat, i: nat, c: nat, j: nat | At(f', b, i) && At(f', c, j)
      ensures SameIdSamePlace(f', b, i, c, j)
    {
      var i0 := Origin(f, d, v, b, i);
      var j0 := Origin(f, d, v, c, j);
      assert SameIdSamePlace(f, b, i0, c, j0);
      BlockDistinct(f, b);
      WithoutDistinct(f.blocks[b], {d});
    }
  }

  lemma ReplacedShape(f: Function, b0: nat, k0: nat, v: Operand, b: nat)
    requires CanReplace(f, b0, k0, v) && b < |f.blocks|
    ensures BlockShape(Replaced(f, f.blocks[b0][k0].id, v), b)
  {
    var d := f.blocks[b0][k0].id;
    var f' := Replaced(f, d, v);
    var s, kept, r := f.blocks[b], Without(f.blocks[b], {d}), f'.blocks[b];
    assert BlockShape(f, b);
    LastIsKept(f, b0, k0, v, b);
    ReplacedIsWithout(s, d, v);
    forall i, j | 0 <= i < j < |r|
      ensures !r[i].kind.Term? && (r[j].kind.Phi? ==> r[i].kind.Phi?)
    {
      var x, y := WithoutOrder(s, {d}, i, j);
    }
    forall i | 0 <= i < |r| && r[i].kind.Phi?
      ensures PhiShape(f', b, r[i])
    {
      var j := Origin(f, d, v, b, i);
      assert PhiShape(f, b, s[j]);
    }
  }

  /** An operand of the new function: it was one before, or it is the stand-in where the
      operator was used. */
  lemma UseComesFrom(s: Instr, d: nat, v: Operand, x: nat)
    requires SubstInstr(s, d, v).Uses(x)
    ensures s.Uses(x) || (s.Uses(d) && v == Ref(x))
  {
    var ops := SubstOps(s.ops, d, v);
    var k :| 0 <= k < |ops| && ops[k] == Ref(x);
    assert SubstOp(s.ops[k], d, v) == Ref(x);
  }

  /** A definition that comes before the operator comes before the uses of the operator. */
  lemma UseOfStandIn(f: Function, b0: nat, k0: nat, v: Operand, b: nat, i: nat, c: nat, j: nat)
    requires CanReplace(f, b0, k0, v) && Reachable(f.graph, b)
    requires IsUse(f, b, i, b0, k0) && IsUse(f, b0, k0, c, j) && !f.blocks[b][i].kind.Phi?
    ensures SDom(f.graph, c, b) || (c == b && j < i)
  {
    assert DefBeforeUse(f, b, i, b0, k0);
    DomRefl(f.graph, b);
    DominatorReachable(f.graph, b0, b);
    assert DefBeforeUse(f, b0, k0, c, j);
    if c != b0 {
      DomTrans(f.graph, c, b0, b);
      if c == b {
        DomAntisym(f.graph, b0, b);
      }
    }
  }

  lemma PhiUseOfStandIn(f: Function, b0: nat, k0: nat, v: Operand, c: nat, j: nat, p: nat)
    requires CanReplace(f, b0, k0, v) && IsUse(f, b0, k0, c, j) && Dom(f.graph, b0, p)
    ensures Dom(f.graph, c, p)
  {
    if Reachable(f.graph, p) {
      DominatorReachable(f.graph, b0, p);
      assert DefBeforeUse(f, b0, k0, c, j);
      DomRefl(f.graph, b0);
      DomTrans(f.graph, c, b0, p);
    }
  }

  lemma ReplacedPhiUse(f: Function, b0: nat, k0: nat, v: Operand, b: nat, i: nat, c: nat, j: nat, k: nat)
    requires CanReplace(f, b0, k0, v) && Reachable(f.graph, b) && At(f, b, i) && At(f, c, j)
    requires f.blocks[b][i].kind.Phi? && k < |f.blocks[b][i].ops| && k < |f.blocks[b][i].kind.from|
    requires SubstOp(f.blocks[b][i].ops[k], f.blocks[b0][k0].id, v) == Ref(f.blocks[c][j].id)
    ensures Dom(f.graph, c, f.blocks[b][i].kind.from[k])
  {
    var s, d := f.blocks[b][i], f.blocks[b0][k0].id;
    if s.ops[k] == Ref(d) {
      assert IsUse(f, b, i, b0, k0);
      assert DefBeforeUse(f, b, i, b0, k0);
      assert IsUse(f, b0, k0, c, j);
      PhiUseOfStandIn(f, b0, k0, v, c, j, s.kind.from[k]);
    } else {
      assert IsUse(f, b, i, c, j);
      assert DefBeforeUse(f, b, i, c, j);
    }
  }

  lemma ReplacedUse(f: Function, b0: nat, k0: nat, v: Operand, b: nat, i: nat, c: nat, j: nat)
    requires CanReplace(f, b0, k0, v) && IsUse(Replaced(f, f.blocks[b0][k0].id, v), b, i, c, j)
    ensures !Replaced(f, f.blocks[b0][k0].id, v).blocks[c][j].kind.Term?
    ensures Reachable(f.graph, b) ==> DefBeforeUse(Replaced(f, f.blocks[b0][k0].id, v), b, i, c, j)
  {
    var d := f.blocks[b0][k0].id;
    var i0 := Origin(f, d, v, b, i);
    var j0 := Origin(f, d, v, c, j);
    var s, x := f.blocks[b][i0], f.blocks[c][j0].id;
    UseComesFrom(s, d, v, x);
    assert IsUse(f, b, i0, c, j0) || (IsUse(f, b, i0, b0, k0) && IsUse(f, b0, k0, c, j0));
    if Reachable(f.graph, b) {
      if s.kind.Phi? {
        forall k | 0 <= k < |s.ops| && k < |s.kind.from| && SubstOps(s.ops, d, v)[k] == Ref(x)
          ensures Dom(f.graph, c, s.kind.from[k])
        {
          ReplacedPhiUse(f, b0, k0, v, b, i0, c, j0, k);
        }
      } else {
        if IsUse(f, b, i0, c, j0) {
          assert DefBeforeUse(f, b, i0, c, j0);
        } else {
          UseOfStandIn(f, b0, k0, v, b, i0, c, j0);
        }
        if c == b && j0 < i0 {
          BlockDistinct(f, b);
          WithoutKeepsOrder(f.blocks[b], {d}, j0, i0, j, i);
        }
      }
    }
  }

  /** Replacing keeps the function well formed and in strict SSA form. */
  lemma ReplacingKeepsSsa(f: Function, b0: nat, k0: nat, v: Operand)
    requires CanReplace(f, b0, k0, v)
    ensures WellFormed(Replaced(f, f.blocks[b0][k0].id, v)) && StrictSsa(Replaced(f, f.blocks[b0][k0].id, v))
  {
    var f' := Replaced(f, f.blocks[b0][k0].id, v);
    ReplacedUnique(f, f.blocks[b0][k0].id, v);
    forall b: nat | b < |f'.blocks|
      ensures BlockShape(f', b)
    {
      ReplacedShape(f, b0, k0, v, b);
    }
    forall b: nat, i: nat, c: nat, j: nat | IsUse(f', b, i, c, j)
      ensures !f'.blocks[c][j].kind.Term?
      ensures Reachable(f.graph, b) ==> DefBeforeUse(f', b, i, c, j)
    {
      ReplacedUse(f, b0, k0, v, b, i, c, j);
    }
  }
}
