/** What the instructions of a block compute. */
module BlockValues {
  import opened StrengthReduction
  import opened LocalOpts

  /** The meaning of what the passes do not look into: other operators and division by
      zero, and instructions that are not integer operators. */
  datatype Meaning = Meaning(
    other: (Opcode, nat, nat, nat) -> nat,
    opaqueInst: (nat, seq<nat>) -> nat)

  type Env = map<nat, nat>

  function Lookup(env: Env, id: nat): nat {
    if id in env then env[id] else 0
  }

  function ValueOf(env: Env, v: Value): nat {
    if v.Lit? then v.bits else Lookup(env, v.id)
  }

  function Bit(op: Opcode, a: nat, b: nat): nat {
    if (if op.And? then a == 1 && b == 1 else if op.Or? then a == 1 || b == 1 else a != b) then 1 else 0
  }

  /** And, or, exclusive or of the lowest `w` bits. */
  function Bitwise(op: Opcode, w: nat, x: nat, y: nat): nat {
    if w == 0 then 0 else 2 * Bitwise(op, w - 1, x / 2, y / 2) + Bit(op, x % 2, y % 2)
  }

  function OpResult(m: Meaning, op: Opcode, w: nat, x: nat, y: nat): nat {
    match op
    case Add => Wrap(w, x + y)
    case Sub => Wrap(w, x - y)
    case Mul => Wrap(w, x * y)
    case UDiv => if y == 0 then m.other(op, w, x, y) else x / y
    case SDiv =>
      if w == 0 || Signed(w, y) == 0 then m.other(op, w, x, y)
      else Wrap(w, TruncDiv(Signed(w, x), Signed(w, y)))
    case And => Bitwise(op, w, x, y)
    case Or => Bitwise(op, w, x, y)
    case Xor => Bitwise(op, w, x, y)
    case ShiftL => Shl(w, x, y)
    case ShiftR => LShr(x, y)
    case OtherOp(_) => m.other(op, w, x, y)
  }

  function Values(env: Env, uses: seq<Value>): (vs: seq<nat>)
    ensures |vs| == |uses| && forall k :: 0 <= k < |uses| ==> vs[k] == ValueOf(env, uses[k])
  {
    seq(|uses|, k requires 0 <= k < |uses| => ValueOf(env, uses[k]))
  }

  function Result(m: Meaning, i: Inst, env: Env): nat {
    match i
    case Bin(_, op, w, a, b) => OpResult(m, op, w, ValueOf(env, a), ValueOf(env, b))
    case Other(id, uses) => m.opaqueInst(id, Values(env, uses))
  }

  /** Run the instructions of a block in order. */
  function Eval(m: Meaning, s: seq<Inst>, env: Env): Env {
    if s == [] then env
    else
      var before := Eval(m, s[..|s| - 1], env);
      before[s[|s| - 1].id := Result(m, s[|s| - 1], before)]
  }

  lemma EvalOne(m: Meaning, i: Inst, e: Env)
    ensures Eval(m, [i], e) == e[i.id := Result(m, i, e)]
  {
    assert [i][..0] == [];
  }

  lemma {:induction false} EvalAppend(m: Meaning, s: seq<Inst>, t: seq<Inst>, env: Env)
    ensures Eval(m, s + t, env) == Eval(m, t, Eval(m, s, env))
  {
    if t == [] {
      assert s + t == s;
    } else {
      assert (s + t)[..|s + t| - 1] == s + t[..|t| - 1];
      EvalAppend(m, s, t[..|t| - 1], env);
    }
  }

  lemma EvalAround(m: Meaning, s: seq<Inst>, k: nat, env: Env)
    requires k < |s|
    ensures var before := Eval(m, s[..k], env);
            Eval(m, s, env) == Eval(m, s[k + 1..], before[s[k].id := Result(m, s[k], before)])
  {
    EvalOne(m, s[k], Eval(m, s[..k], env));
    EvalAppend(m, s[..k], [s[k]], env);
    EvalAppend(m, s[..k] + [s[k]], s[k + 1..], env);
    assert s == s[..k] + [s[k]] + s[k + 1..];
  }

  // ----- Widths -----

  /** The width of each value. */
  type Widths = nat -> nat

  ghost predicate ValueFits(ty: Widths, w: nat, v: Value) {
    if v.Lit? then v.bits < Pow2(w) else ty(v.id) == w
  }

  ghost predicate Typed(ty: Widths, i: Inst) {
    i.Bin? ==> i.width > 0 && ty(i.id) == i.width && ValueFits(ty, i.width, i.a) && ValueFits(ty, i.width, i.b)
  }

  ghost predicate AllTyped(ty: Widths, s: seq<Inst>) {
    forall i :: 0 <= i < |s| ==> Typed(ty, s[i])
  }

  ghost predicate EnvFits(ty: Widths, env: Env) {
    forall id :: Lookup(env, id) < Pow2(ty(id))
  }

  ghost predicate MeaningFits(m: Meaning, ty: Widths) {
    && (forall op, w, x, y :: m.other(op, w, x, y) < Pow2(w))
    && (forall id, vs :: m.opaqueInst(id, vs) < Pow2(ty(id)))
  }

  lemma {:induction false} BitwiseFits(op: Opcode, w: nat, x: nat, y: nat)
    ensures Bitwise(op, w, x, y) < Pow2(w)
  {
    if w > 0 {
      BitwiseFits(op, w - 1, x / 2, y / 2);
    }
  }

  lemma OpFits(m: Meaning, ty: Widths, op: Opcode, w: nat, x: nat, y: nat)
    requires MeaningFits(m, ty) && x < Pow2(w)
    ensures OpResult(m, op, w, x, y) < Pow2(w)
  {
    match op
    case UDiv =>
      if y != 0 {
        DivBounds(x, y);
      }
    case And | Or | Xor =>
      BitwiseFits(op, w, x, y);
    case ShiftL =>
      ShlIsProduct(w, x, y);
    case ShiftR =>
      LShrIsQuotient(x, y);
      DivBounds(x, Pow2(y));
    case _ =>
  }

  lemma ResultFits(m: Meaning, ty: Widths, i: Inst, env: Env)
    requires MeaningFits(m, ty) && Typed(ty, i) && EnvFits(ty, env)
    ensures Result(m, i, env) < Pow2(ty(i.id))
  {
    if i.Bin? {
      OpFits(m, ty, i.op, i.width, ValueOf(env, i.a), ValueOf(env, i.b));
    }
  }

  lemma {:induction false} EvalFits(m: Meaning, ty: Widths, s: seq<Inst>, n: nat, env: Env)
    requires MeaningFits(m, ty) && EnvFits(ty, env) && AllTyped(ty, s) && n <= |s|
    ensures EnvFits(ty, Eval(m, s[..n], env))
  {
    if n > 0 {
      EvalFits(m, ty, s, n - 1, env);
      assert s[..n][..n - 1] == s[..n - 1];
      ResultFits(m, ty, s[n - 1], Eval(m, s[..n - 1], env));
    }
  }

  /** Division by zero has no meaning. */
  predicate SafeAt(i: Inst, env: Env) {
    i.Bin? && (i.op.UDiv? || i.op.SDiv?) ==> ValueOf(env, i.b) != 0
  }

  lemma WrapFits(w: nat, x: nat)
    requires x < Pow2(w)
    ensures Wrap(w, x) == x
  {
    ModUnique(x, Pow2(w), 0, x);
  }

  lemma WrapSigned(w: nat, x: nat)
    requires w > 0 && x < Pow2(w)
    ensures Wrap(w, Signed(w, x)) == x
  {
    WrapFits(w, x);
    ModShift(x, -1, Pow2(w));
  }

  lemma SignedZero(w: nat, x: nat)
    requires w > 0 && x < Pow2(w)
    ensures Signed(w, x) == 0 <==> x == 0
  {
  }
}
