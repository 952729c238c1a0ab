/** The algebraic identities and constant folding preserve what a block computes. */
module LocalMeaning {
  import opened StrengthReduction
  import opened LocalOpts
  import opened BlockValues
  import opened FoldExactness
  import opened Replacement

  // ----- Which values may become constants -----

  predicate MayBeLit(may: set<nat>, v: Value) {
    v.Lit? || v.id in may
  }

  /** The ways in which an operator can turn into a constant: both operands do, or one of
      the identities x - x, x / x, 0 * x, x & 0, 0 / x applies, which in the run at hand
      shows in the operand values. */
  predicate MayBecomeLit(may: set<nat>, i: Inst, env: Env) {
    i.Bin? &&
    var a, b, x, y := MayBeLit(may, i.a), MayBeLit(may, i.b), ValueOf(env, i.a), ValueOf(env, i.b);
    || (a && b)
    || (i.op in {Sub, UDiv, SDiv} && x == y)
    || (i.op in {Mul, And} && ((a && x == 0) || (b && y == 0)))
    || (i.op in {UDiv, SDiv} && a && x == 0)
  }

  /** The values among the first `n` that may become constants. */
  ghost function MayBeConstant(m: Meaning, s: seq<Inst>, n: nat, env: Env): set<nat>
    requires n <= |s|
  {
    if n == 0 then {}
    else
      var may := MayBeConstant(m, s, n - 1, env);
      if MayBecomeLit(may, s[n - 1], Eval(m, s[..n - 1], env)) then may + {s[n - 1].id} else may
  }

  ghost predicate MayClosed(may: set<nat>, m: Meaning, s: seq<Inst>, env: Env) {
    forall k :: 0 <= k < |s| && MayBecomeLit(may, s[k], Eval(m, s[..k], env)) ==> s[k].id in may
  }

  // ----- Which values are sure to become constants -----

  predicate IsFoldOp(op: Opcode) {
    op in {Add, Sub, Mul, UDiv, SDiv, ShiftL, ShiftR}
  }

  /** The operators among the first `n` that compute with constants only. */
  ghost function MustBeConstant(s: seq<Inst>, n: nat): set<nat>
    requires n <= |s|
  {
    if n == 0 then {}
    else
      var must, i := MustBeConstant(s, n - 1), s[n - 1];
      if i.Bin? && IsFoldOp(i.op) && MayBeLit(must, i.a) && MayBeLit(must, i.b) then must + {i.id} else must
  }

  /** A constant, or a value in `must` that is defined among the first `n`. */
  ghost predicate MustBeLit(must: set<nat>, s: seq<Inst>, n: nat, v: Value)
    requires n <= |s|
  {
    v.Lit? || (v.id in must && exists j :: 0 <= j < n && s[j].id == v.id)
  }

  ghost predicate MustAt(must: set<nat>, s: seq<Inst>, k: nat)
    requires k < |s|
  {
    s[k].id in must ==>
      s[k].Bin? && IsFoldOp(s[k].op) && MustBeLit(must, s, k, s[k].a) && MustBeLit(must, s, k, s[k].b)
  }

  ghost predicate MustClosed(must: set<nat>, s: seq<Inst>) {
    forall k :: 0 <= k < |s| ==> MustAt(must, s, k)
  }

  // ----- What is asked of a run -----

  /** Strength reduction of an operator on the values `x` and `y`, if it comes to that,
      computes the operator: a product with a negative constant is 0, and the dividend of a
      signed division by a power of two is not negative, unless the divisor is 1.  The
      flags say which operand may be a constant. */
  ghost predicate ReducesRight(op: Opcode, w: nat, x: nat, y: nat, a: bool, b: bool)
    requires w > 0
  {
    match op
    case Mul => (a && Signed(w, x) < 0) || (b && Signed(w, y) < 0) ==> Wrap(w, x * y) == 0
    case SDiv => b && Log(Signed(w, y)) >= 0 ==> Signed(w, x) >= 0 || y == 1
    case _ => true
  }

  ghost predicate ExactOn(op: Opcode, w: nat, x: nat, y: nat, a: bool, b: bool, folded: bool) {
    w > 0 ==> (a && b ==> FoldsRight(op, w, x, y)) && (folded || ReducesRight(op, w, x, y, a, b))
  }

  lemma ExactOnLess(op: Opcode, w: nat, x: nat, y: nat, a: bool, b: bool, a': bool, b': bool, folded: bool)
    requires ExactOn(op, w, x, y, a, b, folded) && (a' ==> a) && (b' ==> b)
    ensures ExactOn(op, w, x, y, a', b', folded)
  {
  }

  ghost predicate ExactAt(may: set<nat>, must: set<nat>, i: Inst, env: Env) {
    i.Bin? ==>
      ExactOn(i.op, i.width, ValueOf(env, i.a), ValueOf(env, i.b), MayBeLit(may, i.a), MayBeLit(may, i.b), i.id in must)
  }

  /** For the algebraic identities a run must not divide by zero; for folding and strength
      reduction it must also stay where the rewritten code is exact. */
  datatype Demand = Safe | Exact(may: set<nat>, must: set<nat>)

  ghost predicate Fine(demand: Demand, i: Inst, env: Env) {
    SafeAt(i, env) && (demand.Exact? ==> ExactAt(demand.may, demand.must, i, env))
  }

  ghost predicate FineRun(demand: Demand, m: Meaning, s: seq<Inst>, env: Env) {
    forall i :: 0 <= i < |s| ==> Fine(demand, s[i], Eval(m, s[..i], env))
  }

  /** What the argument needs of a block that is about to run. */
  ghost predicate Good(demand: Demand, m: Meaning, ty: Widths, s: seq<Inst>, env: Env) {
    && InOrder(s) && AllTyped(ty, s) && FineRun(demand, m, s, env)
    && (demand.Exact? ==> MayClosed(demand.may, m, s, env) && MustClosed(demand.must, s))
  }

  // ----- The sets at the start -----

  lemma {:induction false} MayGrows(m: Meaning, s: seq<Inst>, k: nat, n: nat, env: Env)
    requires k <= n <= |s|
    ensures MayBeConstant(m, s, k, env) <= MayBeConstant(m, s, n, env)
  {
    if k < n {
      MayGrows(m, s, k, n - 1, env);
    }
  }

  /** An operand of instruction `k` that may be a constant is one of the first `k`. */
  lemma {:induction false} MayIsEarlier(m: Meaning, s: seq<Inst>, k: nat, n: nat, env: Env, d: nat)
    requires InOrder(s) && k < |s| && k <= n <= |s| && UsesVar(s[k], d) && d in MayBeConstant(m, s, n, env)
    ensures d in MayBeConstant(m, s, k, env)
  {
    if k < n {
      assert !UsesVar(s[k], s[n - 1].id);
      MayIsEarlier(m, s, k, n - 1, env, d);
    }
  }

  lemma MayAtStart(m: Meaning, s: seq<Inst>, env: Env)
    requires InOrder(s)
    ensures MayClosed(MayBeConstant(m, s, |s|, env), m, s, env)
  {
    var may := MayBeConstant(m, s, |s|, env);
    forall k | 0 <= k < |s| && MayBecomeLit(may, s[k], Eval(m, s[..k], env))
      ensures s[k].id in may
    {
      forall d | UsesVar(s[k], d) && d in may
        ensures d in MayBeConstant(m, s, k, env)
      {
        MayIsEarlier(m, s, k, |s|, env, d);
      }
      assert MayBecomeLit(MayBeConstant(m, s, k, env), s[k], Eval(m, s[..k], env));
      MayGrows(m, s, k + 1, |s|, env);
    }
  }

  lemma {:induction false} MustIsDefined(s: seq<Inst>, n: nat, d: nat)
    requires n <= |s| && d in MustBeConstant(s, n)
    ensures exists j :: 0 <= j < n && s[j].id == d
  {
    if n > 0 && d in MustBeConstant(s, n - 1) {
      MustIsDefined(s, n - 1, d);
    }
  }

  lemma {:induction false} MustGrows(s: seq<Inst>, k: nat, n: nat)
    requires k <= n <= |s|
    ensures MustBeConstant(s, k) <= MustBeConstant(s, n)
  {
    if k < n {
      MustGrows(s, k, n - 1);
    }
  }

  /** An instruction is in the set because of its own operands. */
  lemma {:induction false} MustBecause(s: seq<Inst>, k: nat, n: nat)
    requires InOrder(s) && k < n <= |s| && s[k].id in MustBeConstant(s, n)
    ensures s[k].Bin? && IsFoldOp(s[k].op)
    ensures MayBeLit(MustBeConstant(s, k), s[k].a) && MayBeLit(MustBeConstant(s, k), s[k].b)
  {
    if k < n - 1 {
      MustBecause(s, k, n - 1);
    } else if s[k].id in MustBeConstant(s, k) {
      MustIsDefined(s, k, s[k].id);
    }
  }

  lemma MustAtStart(s: seq<Inst>)
    requires InOrder(s)
    ensures MustClosed(MustBeConstant(s, |s|), s)
  {
    var must := MustBeConstant(s, |s|);
    forall k | 0 <= k < |s|
      ensures MustAt(must, s, k)
    {
      if s[k].id in must {
        MustBecause(s, k, |s|);
        MustGrows(s, k, |s|);
        forall d | d in MustBeConstant(s, k)
          ensures exists j :: 0 <= j < k && s[j].id == d
        {
          MustIsDefined(s, k, d);
        }
      }
    }
  }

  // ----- What a drop keeps -----

  /** A stand-in that may be a constant stands for a value that may become one. */
  ghost predicate Foreseen(demand: Demand, d: nat, v: Value) {
    demand.Exact? && MayBeLit(demand.may, v) ==> d in demand.may
  }

  lemma SubstMay(may: set<nat>, d: nat, v: Value, u: Value)
    requires MayBeLit(may, v) ==> d in may
    ensures MayBeLit(may, SubstValue(u, d, v)) ==> MayBeLit(may, u)
  {
  }

  lemma SubstFine(demand: Demand, t: Inst, d: nat, v: Value, e: Env, e': Env)
    requires Follows(d, v, e, e') && Foreseen(demand, d, v) && Fine(demand, t, e)
    ensures Fine(demand, SubstInst(t, d, v), e')
  {
    if t.Bin? && demand.Exact? {
      var may, u := demand.may, SubstInst(t, d, v);
      SubstMay(may, d, v, t.a);
      SubstMay(may, d, v, t.b);
      ExactOnLess(t.op, t.width, ValueOf(e, t.a), ValueOf(e, t.b), MayBeLit(may, t.a), MayBeLit(may, t.b),
                  MayBeLit(may, u.a), MayBeLit(may, u.b), t.id in demand.must);
    }
  }

  lemma SubstMayBecome(may: set<nat>, t: Inst, d: nat, v: Value, e: Env, e': Env)
    requires Follows(d, v, e, e') && (MayBeLit(may, v) ==> d in may)
    ensures MayBecomeLit(may, SubstInst(t, d, v), e') ==> MayBecomeLit(may, t, e)
  {
    if t.Bin? {
      SubstMay(may, d, v, t.a);
      SubstMay(may, d, v, t.b);
    }
  }

  /** The state before instruction `i` of the shortened block. */
  lemma BeforeDropped(m: Meaning, s: seq<Inst>, k: nat, v: Value, i: nat, env: Env)
    requires InOrder(s) && k < |s| && Available(s, k, v) && i < |s| - 1
    requires ValueOf(Eval(m, s[..k], env), v) == Result(m, s[k], Eval(m, s[..k], env))
    ensures Dropped(s, k, v)[i] == SubstInst(s[Back(k, i)], s[k].id, v)
    ensures i < k ==> Dropped(s, k, v)[i] == s[i] && Dropped(s, k, v)[..i] == s[..i]
    ensures i >= k ==> Follows(s[k].id, v, Eval(m, s[..i + 1], env), Eval(m, Dropped(s, k, v)[..i], env))
  {
    DroppedAt(s, k, v, i);
    if i < k {
      DroppedParts(s, k, v);
    } else {
      DropPrefixFollows(m, s, k, v, i, env);
    }
  }

  lemma DroppedFine(demand: Demand, m: Meaning, s: seq<Inst>, k: nat, v: Value, env: Env)
    requires InOrder(s) && k < |s| && Available(s, k, v) && Foreseen(demand, s[k].id, v) && FineRun(demand, m, s, env)
    requires ValueOf(Eval(m, s[..k], env), v) == Result(m, s[k], Eval(m, s[..k], env))
    ensures FineRun(demand, m, Dropped(s, k, v), env)
  {
    var r := Dropped(s, k, v);
    forall i | 0 <= i < |r|
      ensures Fine(demand, r[i], Eval(m, r[..i], env))
    {
      BeforeDropped(m, s, k, v, i, env);
      if i < k {
        assert Fine(demand, s[i], Eval(m, s[..i], env));
      } else {
        assert Fine(demand, s[i + 1], Eval(m, s[..i + 1], env));
        SubstFine(demand, s[i + 1], s[k].id, v, Eval(m, s[..i + 1], env), Eval(m, r[..i], env));
      }
    }
  }

  lemma DroppedMayClosed(may: set<nat>, m: Meaning, s: seq<Inst>, k: nat, v: Value, env: Env)
    requires InOrder(s) && k < |s| && Available(s, k, v) && (MayBeLit(may, v) ==> s[k].id in may)
    requires MayClosed(may, m, s, env)
    requires ValueOf(Eval(m, s[..k], env), v) == Result(m, s[k], Eval(m, s[..k], env))
    ensures MayClosed(may, m, Dropped(s, k, v), env)
  {
    var r := Dropped(s, k, v);
    forall i | 0 <= i < |r| && MayBecomeLit(may, r[i], Eval(m, r[..i], env))
      ensures r[i].id in may
    {
      BeforeDropped(m, s, k, v, i, env);
      if i >= k {
        SubstMayBecome(may, s[i + 1], s[k].id, v, Eval(m, s[..i + 1], env), Eval(m, r[..i], env));
        assert MayBecomeLit(may, s[i + 1], Eval(m, s[..i + 1], env));
      }
    }
  }

  /** An operand that is sure to become a constant, after instruction `k` is dropped. */
  lemma DroppedOperand(must: set<nat>, s: seq<Inst>, k: nat, v: Value, i: nat, u: Value)
    requires InOrder(s) && k < |s| && Available(s, k, v) && MustAt(must, s, k) && i < |s| - 1
    requires MustBeLit(must, s, Back(k, i), u)
    ensures MustBeLit(must, Dropped(s, k, v), i, SubstValue(u, s[k].id, v))
  {
    var r, b := Dropped(s, k, v), SubstValue(u, s[k].id, v);
    if b.Var? {
      var j: nat :| j < Back(k, i) && s[j].id == u.id;
      if u == Var(s[k].id) {
        assert MustBeLit(must, s, k, v);
        var x: nat :| x < k && s[x].id == v.id;
        DroppedAt(s, k, v, x);
        assert r[x].id == v.id;
      } else {
        var y := if j < k then j else j - 1;
        DroppedAt(s, k, v, y);
        assert r[y].id == u.id;
      }
    }
  }

  lemma DroppedMustClosed(must: set<nat>, s: seq<Inst>, k: nat, v: Value)
    requires InOrder(s) && k < |s| && Available(s, k, v) && MustClosed(must, s)
    ensures MustClosed(must, Dropped(s, k, v))
  {
    var r := Dropped(s, k, v);
    forall i | 0 <= i < |r|
      ensures MustAt(must, r, i)
    {
      DroppedAt(s, k, v, i);
      var t := s[Back(k, i)];
      assert MustAt(must, s, Back(k, i)) && MustAt(must, s, k);
      if t.id in must {
        DroppedOperand(must, s, k, v, i, t.a);
        DroppedOperand(must, s, k, v, i, t.b);
      }
    }
  }

  lemma DroppedTyped(ty: Widths, s: seq<Inst>, k: nat, v: Value)
    requires AllTyped(ty, s) && k < |s| && ValueFits(ty, ty(s[k].id), v)
    ensures AllTyped(ty, Dropped(s, k, v))
  {
    var r := Dropped(s, k, v);
    forall i | 0 <= i < |r|
      ensures Typed(ty, r[i])
    {
      DroppedAt(s, k, v, i);
      assert Typed(ty, s[Back(k, i)]);
    }
  }

  /** `v` is the right value to put in place of the operator `i`. */
  ghost predicate RightValue(demand: Demand, m: Meaning, ty: Widths, i: Inst, env: Env, v: Value) {
    && i.Bin? && ValueOf(env, v) == Result(m, i, env) && ValueFits(ty, ty(i.id), v)
    && (v.Var? ==> UsesVar(i, v.id))
    && (demand.Exact? && MayBeLit(demand.may, v) ==> MayBecomeLit(demand.may, i, env))
  }

  lemma DroppedGood(demand: Demand, m: Meaning, ty: Widths, s: seq<Inst>, k: nat, v: Value, env: Env)
    requires Good(demand, m, ty, s, env) && k < |s| && RightValue(demand, m, ty, s[k], Eval(m, s[..k], env), v)
    ensures Good(demand, m, ty, Dropped(s, k, v), env)
  {
    DroppedInOrder(s, k, v);
    DroppedTyped(ty, s, k, v);
    DroppedFine(demand, m, s, k, v, env);
    if demand.Exact? {
      DroppedMayClosed(demand.may, m, s, k, v, env);
      DroppedMustClosed(demand.must, s, k, v);
    }
  }

  // ----- A whole pass -----

  /** A pattern that is right about every operator that meets the demand. */
  ghost predicate SoundPattern(pattern: Inst -> Verdict, demand: Demand, m: Meaning, ty: Widths) {
    forall i, env :: Typed(ty, i) && EnvFits(ty, env) && Fine(demand, i, env) && pattern(i).Replace? ==>
      RightValue(demand, m, ty, i, env, pattern(i).v)
  }

  lemma MatchIsRight(pattern: Inst -> Verdict, demand: Demand, m: Meaning, ty: Widths, s: seq<Inst>, k: nat, env: Env)
    requires SoundPattern(pattern, demand, m, ty) && k < |s| && pattern(s[k]).Replace?
    requires MeaningFits(m, ty) && EnvFits(ty, env) && Good(demand, m, ty, s, env)
    ensures RightValue(demand, m, ty, s[k], Eval(m, s[..k], env), pattern(s[k]).v)
  {
    EvalFits(m, ty, s, k, env);
    assert Typed(ty, s[k]) && Fine(demand, s[k], Eval(m, s[..k], env));
  }

  lemma {:induction false} PassPreservesMeaning(pattern: Inst -> Verdict, demand: Demand, m: Meaning, ty: Widths,
                                                s: seq<Inst>, k: nat, env: Env)
    returns (sigma: Renaming)
    requires SoundPattern(pattern, demand, m, ty) && k <= |s|
    requires MeaningFits(m, ty) && EnvFits(ty, env) && Good(demand, m, ty, s, env)
    ensures Replaces(m, s, Pass(pattern, s, k), env, sigma) && Good(demand, m, ty, Pass(pattern, s, k), env)
    decreases |s| - k
  {
    if k == |s| {
      sigma := map[];
      NothingReplaced(m, s, env);
    } else if pattern(s[k]).Keep? {
      sigma := PassPreservesMeaning(pattern, demand, m, ty, s, k + 1, env);
    } else {
      var v := pattern(s[k]).v;
      var r := Dropped(s, k, v);
      MatchIsRight(pattern, demand, m, ty, s, k, env);
      DropReplaces(m, s, k, v, env);
      DroppedGood(demand, m, ty, s, k, v, env);
      var tau := PassPreservesMeaning(pattern, demand, m, ty, r, k, env);
      ReplacesThen(m, s, r, Pass(pattern, r, k), env, map[s[k].id := v], tau);
      sigma := Then(map[s[k].id := v], tau);
    }
  }

  lemma AlgebraicForeseen(may: set<nat>, i: Inst, env: Env)
    requires Algebraic(i).Replace? && MayBeLit(may, Algebraic(i).v)
    ensures MayBecomeLit(may, i, env)
  {
  }

  lemma AlgebraicIsSound(demand: Demand, m: Meaning, ty: Widths)
    ensures SoundPattern(Algebraic, demand, m, ty)
  {
    forall i, env | Typed(ty, i) && EnvFits(ty, env) && Fine(demand, i, env) && Algebraic(i).Replace?
      ensures RightValue(demand, m, ty, i, env, Algebraic(i).v)
    {
      AlgebraicIsIdentity(m, ty, i, env);
      if demand.Exact? && MayBeLit(demand.may, Algebraic(i).v) {
        AlgebraicForeseen(demand.may, i, env);
      }
    }
  }

  lemma FoldingIsSound(may: set<nat>, must: set<nat>, m: Meaning, ty: Widths, wild: (int, int) -> int)
    ensures SoundPattern(i => Folding(wild, i), Exact(may, must), m, ty)
  {
    var fold := (i: Inst) => Folding(wild, i);
    forall i, env | Typed(ty, i) && EnvFits(ty, env) && Fine(Exact(may, must), i, env) && fold(i).Replace?
      ensures RightValue(Exact(may, must), m, ty, i, env, fold(i).v)
    {
      FoldingIsExact(m, ty, wild, i, env);
    }
  }

  /** The algebraic pass, on any block and from any starting values for which the block
      divides by no zero: only operators are dropped, and every value of the block lives on
      as the value of its stand-in. */
  lemma AlgebraicPreservesMeaning(m: Meaning, ty: Widths, s: seq<Inst>, env: Env) returns (sigma: Renaming)
    requires MeaningFits(m, ty) && EnvFits(ty, env) && InOrder(s) && AllTyped(ty, s)
    requires forall i :: 0 <= i < |s| ==> SafeAt(s[i], Eval(m, s[..i], env))
    ensures Replaces(m, s, Pass(Algebraic, s, 0), env, sigma)
  {
    AlgebraicIsSound(Safe, m, ty);
    sigma := PassPreservesMeaning(Algebraic, Safe, m, ty, s, 0, env);
  }
}
