/** Replacing instructions of a block by values: renamings, and dropping one instruction. */
module Replacement {
  import opened LocalOpts
  import opened BlockValues

  // ----- Renamings: what stands for a dropped value -----

  type Renaming = map<nat, Value>

  function StandIn(sigma: Renaming, v: Value): Value {
    if v.Var? && v.id in sigma then sigma[v.id] else v
  }

  function StandIns(sigma: Renaming, vs: seq<Value>): (r: seq<Value>)
    ensures |r| == |vs| && forall k :: 0 <= k < |vs| ==> r[k] == StandIn(sigma, vs[k])
  {
    seq(|vs|, k requires 0 <= k < |vs| => StandIn(sigma, vs[k]))
  }

  function Renamed(sigma: Renaming, i: Inst): Inst {
    match i
    case Bin(d, op, w, a, b) => Bin(d, op, w, StandIn(sigma, a), StandIn(sigma, b))
    case Other(d, uses) => Other(d, StandIns(sigma, uses))
  }

  /** The instructions that are not dropped, in order, with their operands renamed. */
  function Image(sigma: Renaming, s: seq<Inst>): seq<Inst> {
    if s == [] then []
    else
      var last := s[|s| - 1];
      Image(sigma, s[..|s| - 1]) + if last.id in sigma then [] else [Renamed(sigma, last)]
  }

  /** First `sigma`, then `tau`. */
  function Then(sigma: Renaming, tau: Renaming): Renaming {
    map id | id in sigma.Keys + tau.Keys :: StandIn(tau, StandIn(sigma, Var(id)))
  }

  lemma ThenStandIn(sigma: Renaming, tau: Renaming, v: Value)
    ensures StandIn(Then(sigma, tau), v) == StandIn(tau, StandIn(sigma, v))
  {
  }

  lemma RenamedThen(sigma: Renaming, tau: Renaming, i: Inst)
    ensures Renamed(tau, Renamed(sigma, i)) == Renamed(Then(sigma, tau), i)
  {
    match i
    case Bin(_, _, _, a, b) =>
      ThenStandIn(sigma, tau, a);
      ThenStandIn(sigma, tau, b);
    case Other(_, uses) =>
      forall k | 0 <= k < |uses|
        ensures StandIn(Then(sigma, tau), uses[k]) == StandIn(tau, StandIn(sigma, uses[k]))
      {
        ThenStandIn(sigma, tau, uses[k]);
      }
      assert StandIns(tau, StandIns(sigma, uses)) == StandIns(Then(sigma, tau), uses);
  }

  lemma {:induction false} ImageAppend(sigma: Renaming, s: seq<Inst>, t: seq<Inst>)
    ensures Image(sigma, s + t) == Image(sigma, s) + Image(sigma, t)
  {
    if t == [] {
      assert s + t == s;
    } else {
      assert (s + t)[..|s + t| - 1] == s + t[..|t| - 1];
      ImageAppend(sigma, s, t[..|t| - 1]);
    }
  }

  lemma ImageOne(sigma: Renaming, i: Inst)
    ensures Image(sigma, [i]) == if i.id in sigma then [] else [Renamed(sigma, i)]
  {
    assert [i][..0] == [];
  }

  lemma {:induction false} ImageThen(sigma: Renaming, tau: Renaming, s: seq<Inst>)
    ensures Image(tau, Image(sigma, s)) == Image(Then(sigma, tau), s)
  {
    if s != [] {
      var front, last := s[..|s| - 1], s[|s| - 1];
      ImageThen(sigma, tau, front);
      if last.id !in sigma {
        ImageAppend(tau, Image(sigma, front), [Renamed(sigma, last)]);
        ImageOne(tau, Renamed(sigma, last));
        RenamedThen(sigma, tau, last);
      } else {
        assert Image(sigma, s) == Image(sigma, front);
      }
    }
  }

  lemma {:induction false} ImageNothing(s: seq<Inst>)
    ensures Image(map[], s) == s
  {
    if s != [] {
      var last := s[|s| - 1];
      ImageNothing(s[..|s| - 1]);
      if last.Other? {
        assert StandIns(map[], last.uses) == last.uses;
      }
    }
  }

  /** Every instruction of the image comes from one that is not dropped. */
  lemma {:induction false} ImageFrom(sigma: Renaming, s: seq<Inst>, j: nat) returns (i: nat)
    requires j < |Image(sigma, s)|
    ensures i < |s| && s[i].id !in sigma && Image(sigma, s)[j] == Renamed(sigma, s[i])
  {
    var front := s[..|s| - 1];
    if j < |Image(sigma, front)| {
      i := ImageFrom(sigma, front, j);
    } else {
      i := |s| - 1;
    }
  }

  /** Every instruction that is not dropped is in the image. */
  lemma {:induction false} ImageHas(sigma: Renaming, s: seq<Inst>, i: nat) returns (j: nat)
    requires i < |s| && s[i].id !in sigma
    ensures j < |Image(sigma, s)| && Image(sigma, s)[j] == Renamed(sigma, s[i])
  {
    var front := s[..|s| - 1];
    if i < |s| - 1 {
      j := ImageHas(sigma, front, i);
    } else {
      j := |Image(sigma, front)|;
    }
  }

  /** Each value of `e` is, in `e'`, the value of its stand-in. */
  ghost predicate Stands(sigma: Renaming, e: Env, e': Env) {
    forall id: nat :: Lookup(e, id) == ValueOf(e', StandIn(sigma, Var(id)))
  }

  lemma StandsValue(sigma: Renaming, e: Env, e': Env, v: Value)
    requires Stands(sigma, e, e')
    ensures ValueOf(e, v) == ValueOf(e', StandIn(sigma, v))
  {
  }

  lemma StandsThen(sigma: Renaming, tau: Renaming, e: Env, e': Env, e'': Env)
    requires Stands(sigma, e, e') && Stands(tau, e', e'')
    ensures Stands(Then(sigma, tau), e, e'')
  {
    forall id: nat
      ensures Lookup(e, id) == ValueOf(e'', StandIn(Then(sigma, tau), Var(id)))
    {
      StandsValue(tau, e', e'', StandIn(sigma, Var(id)));
      ThenStandIn(sigma, tau, Var(id));
    }
  }

  // ----- Dropping one instruction -----

  predicate UsesVar(i: Inst, d: nat) {
    match i
    case Bin(_, _, _, a, b) => a == Var(d) || b == Var(d)
    case Other(_, uses) => Var(d) in uses
  }

  ghost predicate DistinctIds(s: seq<Inst>) {
    forall i, j :: 0 <= i < j < |s| ==> s[i].id != s[j].id
  }

  /** In order: an instruction uses nothing that the block defines at or after it. */
  ghost predicate InOrder(s: seq<Inst>) {
    && DistinctIds(s)
    && (forall i, j :: 0 <= i <= j < |s| ==> !UsesVar(s[i], s[j].id))
  }

  /** `e'` is `e` without the value of `d`, which `v` stands for. */
  ghost predicate Follows(d: nat, v: Value, e: Env, e': Env) {
    (forall id :: id != d ==> Lookup(e, id) == Lookup(e', id)) && Lookup(e, d) == ValueOf(e', v)
  }

  lemma SubstResult(m: Meaning, t: Inst, d: nat, v: Value, e: Env, e': Env)
    requires Follows(d, v, e, e')
    ensures Result(m, SubstInst(t, d, v), e') == Result(m, t, e)
  {
    if t.Other? {
      assert Values(e, t.uses) == Values(e', SubstInst(t, d, v).uses);
    }
  }

  lemma FollowsStep(m: Meaning, t: Inst, d: nat, v: Value, e: Env, e': Env)
    requires Follows(d, v, e, e') && t.id != d && v != Var(t.id)
    ensures Follows(d, v, e[t.id := Result(m, t, e)], e'[t.id := Result(m, SubstInst(t, d, v), e')])
  {
    SubstResult(m, t, d, v, e, e');
    var x := Result(m, t, e);
    var u, u' := e[t.id := x], e'[t.id := x];
    forall id | id != d
      ensures Lookup(u, id) == Lookup(u', id)
    {
      assert Lookup(e, id) == Lookup(e', id);
    }
    assert Lookup(u, d) == Lookup(e, d);
    assert v.Var? ==> Lookup(u', v.id) == Lookup(e', v.id);
  }

  lemma {:induction false} SuffixFollows(m: Meaning, t: seq<Inst>, d: nat, v: Value, e: Env, e': Env)
    requires Follows(d, v, e, e') && forall i :: 0 <= i < |t| ==> t[i].id != d && v != Var(t[i].id)
    ensures Follows(d, v, Eval(m, t, e), Eval(m, SubstAll(t, d, v), e'))
  {
    if t != [] {
      var front, last := t[..|t| - 1], t[|t| - 1];
      var r := SubstAll(t, d, v);
      SuffixFollows(m, front, d, v, e, e');
      assert r[..|r| - 1] == SubstAll(front, d, v) && r[|r| - 1] == SubstInst(last, d, v);
      FollowsStep(m, last, d, v, Eval(m, front, e), Eval(m, SubstAll(front, d, v), e'));
    }
  }

  lemma SubstNothing(t: seq<Inst>, d: nat, v: Value)
    requires forall i :: 0 <= i < |t| ==> !UsesVar(t[i], d)
    ensures SubstAll(t, d, v) == t
  {
    forall i | 0 <= i < |t|
      ensures SubstInst(t[i], d, v) == t[i]
    {
      SubstUnused(t[i], d, v);
    }
  }

  lemma SubstUnused(t: Inst, d: nat, v: Value)
    requires !UsesVar(t, d)
    ensures SubstInst(t, d, v) == t
  {
    if t.Other? {
      assert SubstInst(t, d, v).uses == t.uses;
    }
  }

  lemma DroppedParts(s: seq<Inst>, k: nat, v: Value)
    requires InOrder(s) && k < |s|
    ensures Dropped(s, k, v) == s[..k] + SubstAll(s[k + 1..], s[k].id, v)
  {
    var d := s[k].id;
    assert forall i :: 0 <= i < k ==> s[..k][i] == s[i];
    SubstNothing(s[..k], d, v);
    SubstAppend(s[..k], s[k + 1..], d, v);
  }

  /** The value that replaces instruction `k` is a constant or one of its operands. */
  ghost predicate Available(s: seq<Inst>, k: nat, v: Value)
    requires k < |s|
  {
    v.Var? ==> UsesVar(s[k], v.id)
  }

  lemma DropFollows(m: Meaning, s: seq<Inst>, k: nat, v: Value, env: Env)
    requires InOrder(s) && k < |s| && Available(s, k, v)
    requires ValueOf(Eval(m, s[..k], env), v) == Result(m, s[k], Eval(m, s[..k], env))
    ensures Follows(s[k].id, v, Eval(m, s, env), Eval(m, Dropped(s, k, v), env))
  {
    var d, before, rest := s[k].id, Eval(m, s[..k], env), s[k + 1..];
    var after := before[d := Result(m, s[k], before)];
    assert !UsesVar(s[k], d);
    StartFollows(d, v, before, Result(m, s[k], before));
    DroppedParts(s, k, v);
    EvalAppend(m, s[..k], SubstAll(rest, d, v), env);
    EvalAround(m, s, k, env);
    forall i | 0 <= i < |rest|
      ensures rest[i].id != d && v != Var(rest[i].id)
    {
      assert rest[i] == s[k + 1 + i] && !UsesVar(s[k], s[k + 1 + i].id);
    }
    SuffixFollows(m, rest, d, v, after, before);
  }

  lemma StartFollows(d: nat, v: Value, e: Env, x: nat)
    requires ValueOf(e, v) == x
    ensures Follows(d, v, e[d := x], e)
  {
  }

  // ----- What a drop keeps -----

  /** Position of an instruction of the shortened block in the original one. */
  function Back(k: nat, i: nat): nat {
    if i < k then i else i + 1
  }

  lemma DroppedAt(s: seq<Inst>, k: nat, v: Value, i: nat)
    requires k < |s| && i < |s| - 1
    ensures Dropped(s, k, v)[i] == SubstInst(s[Back(k, i)], s[k].id, v)
  {
  }

  lemma DroppedInOrder(s: seq<Inst>, k: nat, v: Value)
    requires InOrder(s) && k < |s| && Available(s, k, v)
    ensures InOrder(Dropped(s, k, v))
  {
    var r := Dropped(s, k, v);
    forall i, j | 0 <= i <= j < |r|
      ensures i < j ==> r[i].id != r[j].id
      ensures !UsesVar(r[i], r[j].id)
    {
      DroppedAt(s, k, v, i);
      DroppedAt(s, k, v, j);
      StillUnused(s, k, v, Back(k, i), Back(k, j));
    }
  }

  lemma StillUnused(s: seq<Inst>, k: nat, v: Value, i: nat, j: nat)
    requires InOrder(s) && k < |s| && Available(s, k, v) && i <= j < |s| && i != k && j != k
    ensures !UsesVar(SubstInst(s[i], s[k].id, v), s[j].id)
  {
    var d, u := s[k].id, SubstInst(s[i], s[k].id, v);
    assert !UsesVar(s[i], s[j].id);
    if i < k {
      assert !UsesVar(s[i], d);
      SubstUnused(s[i], d, v);
    } else {
      assert !UsesVar(s[k], s[j].id);
      if u.Other? {
        assert forall x :: 0 <= x < |u.uses| ==> u.uses[x] == SubstValue(s[i].uses[x], d, v);
      }
    }
  }

  /** A pattern that puts in place of an operator one of its operands, or a constant. */
  ghost predicate PicksOperand(pattern: Inst -> Verdict) {
    forall i :: pattern(i).Replace? && pattern(i).v.Var? ==> UsesVar(i, pattern(i).v.id)
  }

  /** One pass over a block in order is enough: nothing is left that the pattern matches. */
  lemma {:induction false} PassIsComplete(pattern: Inst -> Verdict, s: seq<Inst>, k: nat)
    requires InOrder(s) && PicksOperand(pattern) && k <= |s| && forall i :: 0 <= i < k ==> pattern(s[i]).Keep?
    ensures InOrder(Pass(pattern, s, k)) && NoMatch(pattern, Pass(pattern, s, k), 0)
    decreases |s| - k
  {
    if k < |s| {
      match pattern(s[k])
      case Keep =>
        PassIsComplete(pattern, s, k + 1);
      case Replace(v) =>
        DroppedInOrder(s, k, v);
        forall i | 0 <= i < k
          ensures Dropped(s, k, v)[i] == s[i]
        {
          DroppedAt(s, k, v, i);
          assert !UsesVar(s[i], s[k].id);
          SubstUnused(s[i], s[k].id, v);
        }
        PassIsComplete(pattern, Dropped(s, k, v), k);
    }
  }

  /** Both patterns do so. */
  lemma PatternsPickOperands(wild: (int, int) -> int)
    ensures PicksOperand(Algebraic) && PicksOperand(i => Folding(wild, i))
  {
  }

  /** After one algebraic pass over a block in order, no operator has the shape of an identity. */
  lemma AlgebraicLeavesNone(s: seq<Inst>, k: nat)
    requires InOrder(s) && k < |Pass(Algebraic, s, 0)|
    ensures var i := Pass(Algebraic, s, 0)[k]; i.Bin? ==> !IsIdentity(i.op, i.a, i.b)
  {
    PatternsPickOperands((x, y) => 0);
    PassIsComplete(Algebraic, s, 0);
    AlgebraicMatches(Pass(Algebraic, s, 0)[k]);
  }

  /** After one folding pass over a block in order, no operator on constants is left. */
  lemma FoldingLeavesNone(wild: (int, int) -> int, s: seq<Inst>, k: nat)
    requires InOrder(s) && k < |Pass(i => Folding(wild, i), s, 0)|
    ensures var i := Pass(i => Folding(wild, i), s, 0)[k];
            i.Bin? && i.width > 0 ==> !IsConstant(i.op, i.width, i.a, i.b)
  {
    var fold := (i: Inst) => Folding(wild, i);
    PatternsPickOperands(wild);
    PassIsComplete(fold, s, 0);
    var i := Pass(fold, s, 0)[k];
    assert fold(i).Keep?;
    FoldingMatches(wild, i);
  }

  lemma PrefixInOrder(s: seq<Inst>, n: nat)
    requires InOrder(s) && n <= |s|
    ensures InOrder(s[..n])
  {
    assert forall i :: 0 <= i < n ==> s[..n][i] == s[i];
  }

  /** The values before instruction `i` of the shortened block. */
  lemma DropPrefixFollows(m: Meaning, s: seq<Inst>, k: nat, v: Value, i: nat, env: Env)
    requires InOrder(s) && k < |s| && Available(s, k, v) && k <= i < |s| - 1
    requires ValueOf(Eval(m, s[..k], env), v) == Result(m, s[k], Eval(m, s[..k], env))
    ensures Follows(s[k].id, v, Eval(m, s[..i + 1], env), Eval(m, Dropped(s, k, v)[..i], env))
  {
    var t := s[..i + 1];
    PrefixInOrder(s, i + 1);
    assert t[..k] == s[..k] && t[k] == s[k];
    DropFollows(m, t, k, v, env);
    DroppedPrefix(s, k, v, i);
  }

  lemma DroppedPrefix(s: seq<Inst>, k: nat, v: Value, i: nat)
    requires k <= i < |s| - 1
    ensures Dropped(s, k, v)[..i] == Dropped(s[..i + 1], k, v)
  {
    var t := s[..i + 1];
    forall j | 0 <= j < i
      ensures Dropped(s, k, v)[j] == Dropped(t, k, v)[j]
    {
      DroppedAt(s, k, v, j);
      DroppedAt(t, k, v, j);
    }
  }

  // ----- One block replaced by another -----

  ghost predicate Defines(s: seq<Inst>, id: nat) {
    exists i :: 0 <= i < |s| && s[i].id == id
  }

  ghost predicate UsedIn(s: seq<Inst>, id: nat) {
    exists i :: 0 <= i < |s| && UsesVar(s[i], id)
  }

  /** A renaming of a block drops integer operators of the block only, and what stands for
      a dropped value is a constant or a value used in the block that is not dropped. */
  ghost predicate IsRenaming(sigma: Renaming, s: seq<Inst>) {
    && (forall i :: 0 <= i < |s| && s[i].Other? ==> s[i].id !in sigma)
    && (forall id :: id in sigma ==> Defines(s, id))
    && (forall id :: id in sigma && sigma[id].Var? ==> sigma[id].id !in sigma && UsedIn(s, sigma[id].id))
  }

  /** `r` is `s` with some operators dropped and renamed, nothing else, and from `env` it
      computes for every value of `s` the value of its stand-in. */
  ghost predicate Replaces(m: Meaning, s: seq<Inst>, r: seq<Inst>, env: Env, sigma: Renaming) {
    && IsRenaming(sigma, s)
    && r == Image(sigma, s)
    && Stands(sigma, Eval(m, s, env), Eval(m, r, env))
  }

  lemma NothingReplaced(m: Meaning, s: seq<Inst>, env: Env)
    ensures Replaces(m, s, s, env, map[])
  {
    ImageNothing(s);
  }

  lemma RenamedUses(sigma: Renaming, i: Inst, x: nat)
    requires UsesVar(Renamed(sigma, i), x)
    ensures (UsesVar(i, x) && x !in sigma) || exists z :: z in sigma && sigma[z] == Var(x)
  {
    if i.Other? {
      var k :| 0 <= k < |i.uses| && StandIns(sigma, i.uses)[k] == Var(x);
      assert StandIn(sigma, i.uses[k]) == Var(x);
      assert i.uses[k] == Var(x) || (i.uses[k].Var? && i.uses[k].id in sigma && sigma[i.uses[k].id] == Var(x));
    }
  }

  lemma UsedInImage(sigma: Renaming, s: seq<Inst>, x: nat)
    requires IsRenaming(sigma, s) && UsedIn(Image(sigma, s), x)
    ensures UsedIn(s, x) && x !in sigma
  {
    var r := Image(sigma, s);
    var j :| 0 <= j < |r| && UsesVar(r[j], x);
    var i := ImageFrom(sigma, s, j);
    RenamedUses(sigma, s[i], x);
  }

  lemma DefinedInImage(sigma: Renaming, s: seq<Inst>, id: nat)
    requires Defines(Image(sigma, s), id)
    ensures Defines(s, id)
  {
    var r := Image(sigma, s);
    var j :| 0 <= j < |r| && r[j].id == id;
    var i := ImageFrom(sigma, s, j);
    assert s[i].id == id;
  }

  lemma ThenResolved(sigma: Renaming, tau: Renaming, s: seq<Inst>, id: nat)
    requires IsRenaming(sigma, s) && IsRenaming(tau, Image(sigma, s)) && id in Then(sigma, tau)
    requires Then(sigma, tau)[id].Var?
    ensures var x := Then(sigma, tau)[id].id; x !in Then(sigma, tau) && UsedIn(s, x)
  {
    var u := StandIn(sigma, Var(id));
    if u.id in tau {
      UsedInImage(sigma, s, tau[u.id].id);
    }
  }

  lemma ThenIsRenaming(sigma: Renaming, tau: Renaming, s: seq<Inst>)
    requires IsRenaming(sigma, s) && IsRenaming(tau, Image(sigma, s))
    ensures IsRenaming(Then(sigma, tau), s)
  {
    var r, both := Image(sigma, s), Then(sigma, tau);
    forall i | 0 <= i < |s| && s[i].Other?
      ensures s[i].id !in both
    {
      var j := ImageHas(sigma, s, i);
      assert r[j].Other?;
    }
    forall id | id in both
      ensures Defines(s, id)
      ensures both[id].Var? ==> both[id].id !in both && UsedIn(s, both[id].id)
    {
      if id in tau {
        DefinedInImage(sigma, s, id);
      }
      if both[id].Var? {
        ThenResolved(sigma, tau, s, id);
      }
    }
  }

  lemma ReplacesThen(m: Meaning, s: seq<Inst>, r: seq<Inst>, t: seq<Inst>, env: Env, sigma: Renaming, tau: Renaming)
    requires Replaces(m, s, r, env, sigma) && Replaces(m, r, t, env, tau)
    ensures Replaces(m, s, t, env, Then(sigma, tau))
  {
    ThenIsRenaming(sigma, tau, s);
    ImageThen(sigma, tau, s);
    StandsThen(sigma, tau, Eval(m, s, env), Eval(m, r, env), Eval(m, t, env));
  }

  lemma SubstIsRenamed(i: Inst, d: nat, v: Value)
    ensures SubstInst(i, d, v) == Renamed(map[d := v], i)
  {
    if i.Other? {
      assert SubstInst(i, d, v).uses == StandIns(map[d := v], i.uses);
    }
  }

  lemma {:induction false} ImageIsSubst(t: seq<Inst>, d: nat, v: Value)
    requires forall i :: 0 <= i < |t| ==> t[i].id != d
    ensures Image(map[d := v], t) == SubstAll(t, d, v)
  {
    if t != [] {
      var front, last := t[..|t| - 1], t[|t| - 1];
      assert forall i :: 0 <= i < |front| ==> front[i] == t[i];
      ImageIsSubst(front, d, v);
      SubstIsRenamed(last, d, v);
      assert SubstAll(t, d, v) == SubstAll(front, d, v) + [SubstInst(last, d, v)];
    }
  }

  lemma ImageAround(before: seq<Inst>, i: Inst, after: seq<Inst>, v: Value)
    requires forall x :: 0 <= x < |before| ==> before[x].id != i.id
    requires forall x :: 0 <= x < |after| ==> after[x].id != i.id
    ensures Image(map[i.id := v], before + [i] + after) == SubstAll(before + after, i.id, v)
  {
    var sigma := map[i.id := v];
    ImageAppend(sigma, before + [i], after);
    ImageAppend(sigma, before, [i]);
    ImageOne(sigma, i);
    ImageIsSubst(before, i.id, v);
    ImageIsSubst(after, i.id, v);
    SubstAppend(before, after, i.id, v);
    var mid := Image(sigma, before) + Image(sigma, [i]);
    assert mid == Image(sigma, before);
  }

  lemma SubstAppend(s: seq<Inst>, t: seq<Inst>, d: nat, v: Value)
    ensures SubstAll(s + t, d, v) == SubstAll(s, d, v) + SubstAll(t, d, v)
  {
  }

  lemma DroppedIsImage(s: seq<Inst>, k: nat, v: Value)
    requires DistinctIds(s) && k < |s|
    ensures Dropped(s, k, v) == Image(map[s[k].id := v], s)
  {
    OthersDiffer(s, k);
    ImageAround(s[..k], s[k], s[k + 1..], v);
    AroundWhole(s, k);
  }

  lemma AroundWhole(s: seq<Inst>, k: nat)
    requires k < |s|
    ensures s == s[..k] + [s[k]] + s[k + 1..]
  {
  }

  lemma OthersDiffer(s: seq<Inst>, k: nat)
    requires DistinctIds(s) && k < |s|
    ensures var before, after := s[..k], s[k + 1..];
            && (forall x :: 0 <= x < |before| ==> before[x].id != s[k].id)
            && (forall x :: 0 <= x < |after| ==> after[x].id != s[k].id)
  {
    var after := s[k + 1..];
    forall x | 0 <= x < |after|
      ensures after[x].id != s[k].id
    {
      assert after[x] == s[k + 1 + x];
    }
  }

  /** Dropping an operator whose value `v` has. */
  lemma DropReplaces(m: Meaning, s: seq<Inst>, k: nat, v: Value, env: Env)
    requires InOrder(s) && k < |s| && s[k].Bin? && Available(s, k, v)
    requires ValueOf(Eval(m, s[..k], env), v) == Result(m, s[k], Eval(m, s[..k], env))
    ensures Replaces(m, s, Dropped(s, k, v), env, map[s[k].id := v])
  {
    var d, sigma := s[k].id, map[s[k].id := v];
    DroppedIsImage(s, k, v);
    DropFollows(m, s, k, v, env);
    DropIsRenaming(s, k, v);
  }

  lemma DropIsRenaming(s: seq<Inst>, k: nat, v: Value)
    requires InOrder(s) && k < |s| && s[k].Bin? && Available(s, k, v)
    ensures IsRenaming(map[s[k].id := v], s)
  {
    var d := s[k].id;
    assert !UsesVar(s[k], d);
    assert Defines(s, d);
    assert v.Var? ==> UsedIn(s, v.id);
    forall i | 0 <= i < |s| && s[i].Other?
      ensures s[i].id != d
    {
      assert i < k ==> s[i].id != s[k].id;
      assert k < i ==> s[k].id != s[i].id;
    }
  }
}
