/** The identities and folding, applied to an instruction of a function. */
module FunctionOpts {
  import opened StrengthReduction
  import L = LocalOpts
  import V = BlockValues
  import opened FoldExactness
  import opened Ir
  import opened ReplaceAll

  /** Operator and width of each binary opcode. */
  type Decode = nat -> (L.Opcode, nat)

  function ViewOp(op: Operand): L.Value
    requires op.Const? ==> op.value >= 0
  {
    match op
    case Const(value) => L.Lit(value)
    case Ref(id) => L.Var(id)
  }

  function OperandOf(v: L.Value): Operand {
    match v
    case Lit(bits) => Const(bits)
    case Var(id) => Ref(id)
  }

  /** A binary operator whose constant operands are bit patterns. */
  predicate IsBin(s: Instr) {
    s.kind.Binary? && |s.ops| == 2 && forall k :: 0 <= k < 2 && s.ops[k].Const? ==> s.ops[k].value >= 0
  }

  /** An instruction of a function as the local passes see it. */
  function View(decode: Decode, s: Instr): L.Inst
    requires IsBin(s)
  {
    var (op, w) := decode(s.kind.opcode);
    L.Bin(s.id, op, w, ViewOp(s.ops[0]), ViewOp(s.ops[1]))
  }

  /** The semantics gives the operator its meaning. */
  ghost predicate Means(m: Semantics, bm: V.Meaning, decode: Decode, s: Instr)
    requires IsBin(s)
  {
    var (op, w) := decode(s.kind.opcode);
    if s.IsSafe() then forall x: nat, y: nat :: m.eval(s.id, [x, y]) == V.OpResult(bm, op, w, x, y)
    else forall x: nat, y: nat, world :: m.read(s.id, [x, y], world) == V.OpResult(bm, op, w, x, y)
  }

  /** The operands fit the width, and a divisor is not zero. */
  ghost predicate OperandsFine(decode: Decode, s: Instr, e: Env)
    requires IsBin(s)
  {
    var (op, w) := decode(s.kind.opcode);
    && w > 0 && 0 <= Value(e, s.ops[0]) < Pow2(w) && 0 <= Value(e, s.ops[1]) < Pow2(w)
    && (op.UDiv? || op.SDiv? ==> Value(e, s.ops[1]) != 0)
  }

  /** So it is whenever the run executes the operator. */
  ghost predicate FineInRun(f: Function, m: Semantics, decode: Decode, b0: nat, k0: nat, l: Local)
    requires At(f, b0, k0) && IsBin(f.blocks[b0][k0])
  {
    forall n: nat, p, l1 :: RunFor(f, m, Start(l), n) == Running(b0, p, l1) ==>
      OperandsFine(decode, f.blocks[b0][k0], Before(m, f.blocks[b0], k0, p, l1).env)
  }

  lemma ExecBin(m: Semantics, bm: V.Meaning, decode: Decode, s: Instr, l: Local)
    requires IsBin(s) && Means(m, bm, decode, s) && OperandsFine(decode, s, l.env)
    ensures var (op, w) := decode(s.kind.opcode);
            Lookup(Exec(m, s, l).env, s.id) == V.OpResult(bm, op, w, Value(l.env, s.ops[0]), Value(l.env, s.ops[1]))
  {
    var x: nat, y: nat := Value(l.env, s.ops[0]), Value(l.env, s.ops[1]);
    assert Values(l.env, s.ops) == [x, y];
  }

  /** The operands of `s`, as an environment of the local passes. */
  function OperandEnv(s: Instr, e: Env): V.Env
    requires IsBin(s) && Value(e, s.ops[0]) >= 0 && Value(e, s.ops[1]) >= 0
  {
    var first: V.Env := if s.ops[0].Ref? then map[s.ops[0].id := Value(e, s.ops[0])] else map[];
    if s.ops[1].Ref? then first[s.ops[1].id := Value(e, s.ops[1])] else first
  }

  lemma SameOperands(decode: Decode, s: Instr, e: Env)
    requires IsBin(s) && OperandsFine(decode, s, e)
    ensures var i, env, w := View(decode, s), OperandEnv(s, e), decode(s.kind.opcode).1;
            && V.ValueOf(env, i.a) == Value(e, s.ops[0]) && V.ValueOf(env, i.b) == Value(e, s.ops[1])
            && V.Typed(_ => w, i) && V.EnvFits(_ => w, env) && V.SafeAt(i, env)
  {
  }

  lemma ReplacementIsOperand(i: L.Inst)
    requires L.Algebraic(i).Replace?
    ensures i.Bin? && (L.Algebraic(i).v.Lit? || L.Algebraic(i).v == i.a || L.Algebraic(i).v == i.b)
  {
  }

  /** What an identity puts in place of the operator is what the operator computes. */
  lemma IdentityComputes(m: Semantics, bm: V.Meaning, decode: Decode, s: Instr, l: Local)
    requires IsBin(s) && Means(m, bm, decode, s) && OperandsFine(decode, s, l.env)
    requires L.Algebraic(View(decode, s)).Replace?
    ensures Computes(m, s, l, OperandOf(L.Algebraic(View(decode, s)).v))
  {
    var i, env, w := View(decode, s), OperandEnv(s, l.env), decode(s.kind.opcode).1;
    SameOperands(decode, s, l.env);
    AlgebraicIsIdentity(bm, _ => w, i, env);
    ExecBin(m, bm, decode, s, l);
    ReplacementIsOperand(i);
  }

  lemma FoldComputes(m: Semantics, bm: V.Meaning, decode: Decode, wild: (int, int) -> int, s: Instr, l: Local)
    requires IsBin(s) && Means(m, bm, decode, s) && OperandsFine(decode, s, l.env)
    requires L.Folding(wild, View(decode, s)).Replace?
    requires var i := View(decode, s); FoldsRight(i.op, i.width, i.a.bits, i.b.bits)
    ensures Computes(m, s, l, OperandOf(L.Folding(wild, View(decode, s)).v))
  {
    var i, env, w := View(decode, s), OperandEnv(s, l.env), decode(s.kind.opcode).1;
    SameOperands(decode, s, l.env);
    FoldingIsExact(bm, _ => w, wild, i, env);
    ExecBin(m, bm, decode, s, l);
  }

  lemma CanReplaceBy(f: Function, decode: Decode, b0: nat, k0: nat, v: L.Value)
    requires WellFormed(f) && StrictSsa(f) && At(f, b0, k0) && IsBin(f.blocks[b0][k0])
    requires var i := View(decode, f.blocks[b0][k0]); v.Lit? || v == i.a || v == i.b
    ensures CanReplace(f, b0, k0, OperandOf(v))
  {
    var s := f.blocks[b0][k0];
    assert v.Var? ==> OperandOf(v) == s.ops[0] || OperandOf(v) == s.ops[1];
  }

  /** One replacement that the passes make, anywhere in a function: an identity, or a fold
      that is exact on its constants. */
  ghost predicate OptStepAt(decode: Decode, wild: (int, int) -> int, f: Function, f': Function, b0: nat, k0: nat) {
    At(f, b0, k0) && IsBin(f.blocks[b0][k0]) &&
    var s := f.blocks[b0][k0];
    var i := View(decode, s);
    || (L.Algebraic(i).Replace? && f' == Replaced(f, s.id, OperandOf(L.Algebraic(i).v)))
    || (L.Folding(wild, i).Replace? && FoldsRight(i.op, i.width, i.a.bits, i.b.bits) &&
        f' == Replaced(f, s.id, OperandOf(L.Folding(wild, i).v)))
  }

  ghost predicate OptStep(decode: Decode, wild: (int, int) -> int, f: Function, f': Function) {
    exists b0: nat, k0: nat :: OptStepAt(decode, wild, f, f', b0, k0)
  }

  /** What is asked of a function and its run: strict SSA form, binary operators mean what
      their opcodes say, and their operands fit whenever they are executed. */
  ghost predicate FineFunction(f: Function, m: Semantics, bm: V.Meaning, decode: Decode, l: Local) {
    && WellFormed(f) && StrictSsa(f)
    && forall b: nat, k: nat :: At(f, b, k) && IsBin(f.blocks[b][k]) ==>
         Means(m, bm, decode, f.blocks[b][k]) && FineInRun(f, m, decode, b, k, l)
  }

  /** The value that a step puts in, and that it is justified. */
  lemma StepIsJustified(f: Function, f': Function, m: Semantics, bm: V.Meaning, decode: Decode, wild: (int, int) -> int,
                        b0: nat, k0: nat, l: Local)
    returns (v: Operand)
    requires FineFunction(f, m, bm, decode, l) && OptStepAt(decode, wild, f, f', b0, k0)
    ensures CanReplace(f, b0, k0, v) && Justified(f, m, b0, k0, v, l) && f' == Replaced(f, f.blocks[b0][k0].id, v)
    ensures v.Const? ==> v.value >= 0
  {
    var s := f.blocks[b0][k0];
    var i := View(decode, s);
    var byIdentity := L.Algebraic(i).Replace? && f' == Replaced(f, s.id, OperandOf(L.Algebraic(i).v));
    var w := if byIdentity then L.Algebraic(i).v else L.Folding(wild, i).v;
    v := OperandOf(w);
    if byIdentity {
      ReplacementIsOperand(i);
    }
    CanReplaceBy(f, decode, b0, k0, w);
    forall n: nat, p, l1 | RunFor(f, m, Start(l), n) == Running(b0, p, l1)
      ensures JustifiedAt(f, m, b0, k0, v, p, l1)
    {
      assert OperandsFine(decode, s, Before(m, f.blocks[b0], k0, p, l1).env);
      if byIdentity {
        IdentityComputes(m, bm, decode, s, Before(m, f.blocks[b0], k0, p, l1));
      } else {
        FoldComputes(m, bm, decode, wild, s, Before(m, f.blocks[b0], k0, p, l1));
      }
    }
  }

  lemma StaysBin(s: Instr, d: nat, v: Operand)
    requires IsBin(SubstInstr(s, d, v))
    ensures IsBin(s)
  {
    var t := SubstInstr(s, d, v);
    forall k | 0 <= k < 2 && s.ops[k].Const?
      ensures s.ops[k].value >= 0
    {
      assert t.ops[k] == s.ops[k];
    }
  }

  lemma SameValuesFine(decode: Decode, s: Instr, e: Env, t: Instr, e': Env)
    requires IsBin(s) && IsBin(t) && s.kind == t.kind && Values(e, s.ops) == Values(e', t.ops) &&
             OperandsFine(decode, s, e)
    ensures OperandsFine(decode, t, e')
  {
    assert Values(e, s.ops)[0] == Values(e', t.ops)[0] && Values(e, s.ops)[1] == Values(e', t.ops)[1];
  }

  /** What remains of the function meets the same demands. */
  lemma FineStays(f: Function, m: Semantics, bm: V.Meaning, decode: Decode, b0: nat, k0: nat, v: Operand, l: Local,
                  b: nat, i: nat)
    requires FineFunction(f, m, bm, decode, l) && CanReplace(f, b0, k0, v) && Justified(f, m, b0, k0, v, l)
    requires At(Replaced(f, f.blocks[b0][k0].id, v), b, i)
    requires IsBin(Replaced(f, f.blocks[b0][k0].id, v).blocks[b][i])
    ensures var f' := Replaced(f, f.blocks[b0][k0].id, v);
            Means(m, bm, decode, f'.blocks[b][i]) && FineInRun(f', m, decode, b, i, l)
  {
    var d := f.blocks[b0][k0].id;
    var f' := Replaced(f, d, v);
    var j := OriginPrefix(f.blocks[b], d, v, i);
    var s, t := f.blocks[b][j], f'.blocks[b][i];
    StaysBin(s, d, v);
    assert Means(m, bm, decode, s) && FineInRun(f, m, decode, b, j, l);
    forall n: nat, p, l1' | RunFor(f', m, Start(l), n) == Running(b, p, l1')
      ensures OperandsFine(decode, t, Before(m, f'.blocks[b], i, p, l1').env)
    {
      var j1 := SameOperandValues(f, m, b0, k0, v, l, n, b, i);
      StaysBin(f.blocks[b][j1], d, v);
      var l1 :| RunFor(f, m, Start(l), n) == Running(b, p, l1) &&
                Values(Before(m, f.blocks[b], j1, p, l1).env, f.blocks[b][j1].ops) ==
                Values(Before(m, f'.blocks[b], i, p, l1').env, t.ops);
      assert FineInRun(f, m, decode, b, j1, l);
      SameValuesFine(decode, f.blocks[b][j1], Before(m, f.blocks[b], j1, p, l1).env, t,
          Before(m, f'.blocks[b], i, p, l1').env);
    }
  }

  /** One replacement: the run goes on as before and the demands still hold. */
  lemma StepPreservesMeaning(f: Function, f': Function, m: Semantics, bm: V.Meaning, decode: Decode,
                             wild: (int, int) -> int, l: Local)
    requires FineFunction(f, m, bm, decode, l) && OptStep(decode, wild, f, f')
    ensures FineFunction(f', m, bm, decode, l)
    ensures forall n: nat :: Observe(RunFor(f, m, Start(l), n)) == Observe(RunFor(f', m, Start(l), n))
  {
    var b0: nat, k0: nat :| OptStepAt(decode, wild, f, f', b0, k0);
    var v := StepIsJustified(f, f', m, bm, decode, wild, b0, k0, l);
    ReplacingKeepsSsa(f, b0, k0, v);
    forall b: nat, i: nat | At(f', b, i) && IsBin(f'.blocks[b][i])
      ensures Means(m, bm, decode, f'.blocks[b][i]) && FineInRun(f', m, decode, b, i, l)
    {
      FineStays(f, m, bm, decode, b0, k0, v, l, b, i);
    }
    forall n: nat
      ensures Observe(RunFor(f, m, Start(l), n)) == Observe(RunFor(f', m, Start(l), n))
    {
      ReplacingPreservesMeaning(f, m, b0, k0, v, l, n);
    }
  }

  /** Any number of replacements, in any blocks and any order, as the rounds of the two
      passes make them: every run that met the demands at the start goes on as before, and
      the function is in strict SSA form throughout. */
  lemma {:induction false} ReplacementsPreserveMeaning(fs: seq<Function>, m: Semantics, bm: V.Meaning, decode: Decode,
                                                       wild: (int, int) -> int, l: Local)
    requires fs != [] && FineFunction(fs[0], m, bm, decode, l)
    requires forall i, j :: 0 <= i && j == i + 1 && j < |fs| ==> OptStep(decode, wild, fs[i], fs[j])
    ensures FineFunction(fs[|fs| - 1], m, bm, decode, l)
    ensures forall n: nat :: Observe(RunFor(fs[0], m, Start(l), n)) == Observe(RunFor(fs[|fs| - 1], m, Start(l), n))
  {
    if |fs| > 1 {
      var front := fs[..|fs| - 1];
      ReplacementsPreserveMeaning(front, m, bm, decode, wild, l);
      assert OptStep(decode, wild, fs[|fs| - 2], fs[|fs| - 1]);
      StepPreservesMeaning(fs[|fs| - 2], fs[|fs| - 1], m, bm, decode, wild, l);
    }
  }
}
