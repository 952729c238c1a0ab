/** What liveness is for: a value that is not live cannot change what a run does. */
module LiveRuns {
  import opened Cfg
  import opened DataFlow
  import opened Ir
  import opened PhiVals
  import opened Liveness

  /** `d` is live when control enters `b` from `p`: a phi of `b` takes it on this edge, or
      `b` uses it before defining it, or it lives through `b`. */
  ghost predicate LiveEntering(f: Function, p: nat, b: nat, d: nat)
    requires b < |f.blocks|
  {
    PhiTakesOnEdge(f, p, b, d) || Exposed(f.blocks[b], d) || (LiveOut(f, b, d) && !DefinedIn(f, d, b))
  }

  ghost predicate DefinedFrom(s: seq<Instr>, i: nat, j: nat, d: nat) {
    exists x :: i <= x < j && x < |s| && s[x].id == d
  }

  /** `d` is live before instruction `i` of block `b`, which is not among its phis. */
  ghost predicate LiveBefore(f: Function, b: nat, i: nat, d: nat)
    requires b < |f.blocks|
  {
    var s := f.blocks[b];
    (exists j :: i <= j < |s| && s[j].Uses(d) && !DefinedFrom(s, i, j, d)) ||
    (LiveOut(f, b, d) && !DefinedFrom(s, i, |s|, d))
  }

  ghost predicate AgreeBefore(f: Function, b: nat, i: nat, l: Local, l': Local)
    requires b < |f.blocks|
  {
    l.world == l'.world && forall d: nat :: LiveBefore(f, b, i, d) ==> Lookup(l.env, d) == Lookup(l'.env, d)
  }

  ghost predicate AgreeEntering(f: Function, p: nat, b: nat, l: Local, l': Local)
    requires b < |f.blocks|
  {
    l.world == l'.world && forall d: nat :: LiveEntering(f, p, b, d) ==> Lookup(l.env, d) == Lookup(l'.env, d)
  }

  // ----- Entering a block -----

  /** How many phis a block begins with. */
  ghost function PhiCount(s: seq<Instr>): (n: nat)
    ensures n <= |s| && (forall i :: 0 <= i < n ==> s[i].kind.Phi?) && (n < |s| ==> !s[n].kind.Phi?)
  {
    if s == [] || !s[0].kind.Phi? then 0 else 1 + PhiCount(s[1..])
  }

  lemma PhisEnd(f: Function, b: nat, i: nat)
    requires WellFormed(f) && At(f, b, i) && PhiCount(f.blocks[b]) <= i
    ensures !f.blocks[b][i].kind.Phi?
  {
    assert BlockShape(f, b);
  }

  lemma TakenAgrees(f: Function, p: nat, b: nat, i: nat, l: Local, l': Local)
    requires WellFormed(f) && At(f, b, i) && f.blocks[b][i].kind.Phi? && AgreeEntering(f, p, b, l, l')
    ensures Taken(f.blocks[b][i], p, l.env) == Taken(f.blocks[b][i], p, l'.env)
  {
    var phi := f.blocks[b][i];
    var op := Incoming(phi.kind.from, phi.ops, p, 0);
    if op.Ref? {
      var k :| 0 <= k < |phi.ops| && k < |phi.kind.from| && phi.kind.from[k] == p && phi.ops[k] == op;
      assert phi.Uses(op.id);
      UsedInDomain(f, b, i, op.id);
      assert PhiTakes(phi, Domain(f), p, op.id);
      assert PhiTakesOnEdge(f, p, b, op.id);
    }
  }

  /** Setting the first `n` phis makes the two environments agree on them. */
  lemma {:induction false} PhisAgreeOn(f: Function, p: nat, b: nat, n: nat, l: Local, l': Local, d: nat)
    requires WellFormed(f) && b < |f.blocks| && n <= |f.blocks[b]| && AgreeEntering(f, p, b, l, l')
    requires Lookup(l.env, d) == Lookup(l'.env, d) ||
             exists i :: 0 <= i < n && f.blocks[b][i].kind.Phi? && f.blocks[b][i].id == d
    ensures Lookup(PhiEnv(f.blocks[b][..n], p, l.env), d) == Lookup(PhiEnv(f.blocks[b][..n], p, l'.env), d)
  {
    if n > 0 {
      var s := f.blocks[b];
      assert s[..n][..n - 1] == s[..n - 1];
      if s[n - 1].kind.Phi? && s[n - 1].id == d {
        TakenAgrees(f, p, b, n - 1, l, l');
      } else {
        PhisAgreeOn(f, p, b, n - 1, l, l', d);
      }
    }
  }

  lemma LiveAfterPhis(f: Function, p: nat, b: nat, d: nat)
    requires WellFormed(f) && b < |f.blocks| && LiveBefore(f, b, PhiCount(f.blocks[b]), d)
    requires forall i :: 0 <= i < PhiCount(f.blocks[b]) ==> f.blocks[b][i].id != d
    ensures LiveEntering(f, p, b, d)
  {
    var s := f.blocks[b];
    var n := PhiCount(s);
    if j :| n <= j < |s| && s[j].Uses(d) && !DefinedFrom(s, n, j, d) {
      PhisEnd(f, b, j);
      assert forall x :: 0 <= x < j && s[x].id == d ==> n <= x;
      assert !DefinesBefore(s, j, d);
      assert Exposed(s, d);
    } else {
      if DefinedIn(f, d, b) {
        var x: nat :| At(f, b, x) && s[x].id == d;
        assert DefinedFrom(s, n, |s|, d);
      }
    }
  }

  lemma EnterAgrees(f: Function, p: nat, b: nat, l: Local, l': Local)
    requires WellFormed(f) && b < |f.blocks| && AgreeEntering(f, p, b, l, l')
    ensures var s := f.blocks[b];
            AgreeBefore(f, b, PhiCount(s), Local(PhiEnv(s, p, l.env), l.world), Local(PhiEnv(s, p, l'.env), l'.world))
  {
    var s := f.blocks[b];
    forall d: nat | LiveBefore(f, b, PhiCount(s), d)
      ensures Lookup(PhiEnv(s, p, l.env), d) == Lookup(PhiEnv(s, p, l'.env), d)
    {
      if forall i :: 0 <= i < PhiCount(s) ==> s[i].id != d {
        LiveAfterPhis(f, p, b, d);
      }
      PhisAgreeOn(f, p, b, |s|, l, l', d);
      assert s[..|s|] == s;
    }
  }

  // ----- Through a block -----

  lemma OperandLive(f: Function, b: nat, i: nat, d: nat)
    requires At(f, b, i) && f.blocks[b][i].Uses(d)
    ensures LiveBefore(f, b, i, d)
  {
    assert !DefinedFrom(f.blocks[b], i, i, d);
  }

  lemma LiveEarlier(f: Function, b: nat, i: nat, d: nat)
    requires At(f, b, i) && LiveBefore(f, b, i + 1, d) && f.blocks[b][i].id != d
    ensures LiveBefore(f, b, i, d)
  {
    var s := f.blocks[b];
    if j :| i + 1 <= j < |s| && s[j].Uses(d) && !DefinedFrom(s, i + 1, j, d) {
      assert !DefinedFrom(s, i, j, d);
    } else {
      assert !DefinedFrom(s, i, |s|, d);
    }
  }

  /** Nobody uses a terminator, so it is never live. */
  lemma LiveIsUsed(f: Function, b: nat, d: nat)
    requires WellFormed(f) && LiveOut(f, b, d)
    ensures exists c: nat, j: nat :: At(f, c, j) && f.blocks[c][j].Uses(d)
  {
    var w :| w != [] && IsWalk(f.graph, w, b, w[|w| - 1]) && LiveAlong(f, w, d);
    var c := w[|w| - 1];
    if Exposed(f.blocks[c], d) {
      var j :| 0 <= j < |f.blocks[c]| && f.blocks[c][j].Uses(d);
      assert At(f, c, j);
    } else {
      var j: nat :| At(f, c, j) && PhiTakes(f.blocks[c][j], Domain(f), w[|w| - 2], d);
      assert f.blocks[c][j].Uses(d);
    }
  }

  lemma TerminatorNotLive(f: Function, b: nat)
    requires WellFormed(f) && StrictSsa(f) && b < |f.blocks| && f.blocks[b] != []
    ensures !LiveBefore(f, b, |f.blocks[b]|, f.blocks[b][|f.blocks[b]| - 1].id)
  {
    var i := |f.blocks[b]| - 1;
    assert BlockShape(f, b) && At(f, b, i);
    if LiveOut(f, b, f.blocks[b][i].id) {
      LiveIsUsed(f, b, f.blocks[b][i].id);
      var c: nat, j: nat :| At(f, c, j) && f.blocks[c][j].Uses(f.blocks[b][i].id);
      assert IsUse(f, c, j, b, i);
    }
  }

  lemma OperandsAgree(f: Function, b: nat, i: nat, l: Local, l': Local)
    requires At(f, b, i) && AgreeBefore(f, b, i, l, l')
    ensures Values(l.env, f.blocks[b][i].ops) == Values(l'.env, f.blocks[b][i].ops)
  {
    var s := f.blocks[b][i];
    forall d: nat | Ref(d) in s.ops
      ensures Lookup(l.env, d) == Lookup(l'.env, d)
    {
      OperandLive(f, b, i, d);
    }
    SameValues(l.env, l'.env, s.ops);
  }

  /** Executing an instruction with equal operands. */
  lemma ExecAgrees(m: Semantics, s: Instr, l: Local, l': Local, d: nat)
    requires l.world == l'.world && Values(l.env, s.ops) == Values(l'.env, s.ops)
    requires !s.kind.Phi? && !s.kind.Term? && (d == s.id || Lookup(l.env, d) == Lookup(l'.env, d))
    ensures var r, r' := Exec(m, s, l), Exec(m, s, l');
            r.world == r'.world && Lookup(r.env, d) == Lookup(r'.env, d)
  {
  }

  lemma StepAgrees(f: Function, m: Semantics, b: nat, i: nat, l: Local, l': Local)
    requires At(f, b, i) && !f.blocks[b][i].kind.Phi? && !f.blocks[b][i].kind.Term? && AgreeBefore(f, b, i, l, l')
    ensures AgreeBefore(f, b, i + 1, Exec(m, f.blocks[b][i], l), Exec(m, f.blocks[b][i], l'))
  {
    var s := f.blocks[b][i];
    OperandsAgree(f, b, i, l, l');
    ExecAgrees(m, s, l, l', s.id);
    forall d: nat | LiveBefore(f, b, i + 1, d)
      ensures Lookup(Exec(m, s, l).env, d) == Lookup(Exec(m, s, l').env, d)
    {
      if d != s.id {
        LiveEarlier(f, b, i, d);
      }
      ExecAgrees(m, s, l, l', d);
    }
  }

  lemma MiddleOfBlock(f: Function, b: nat, i: nat)
    requires WellFormed(f) && b < |f.blocks| && PhiCount(f.blocks[b]) <= i < |f.blocks[b]| - 1
    ensures !f.blocks[b][i].kind.Phi? && !f.blocks[b][i].kind.Term?
  {
    assert BlockShape(f, b);
    PhisEnd(f, b, i);
  }

  lemma {:induction false} BlockAgrees(f: Function, m: Semantics, b: nat, i: nat, l: Local, l': Local)
    requires WellFormed(f) && b < |f.blocks| && PhiCount(f.blocks[b]) <= i < |f.blocks[b]|
    requires AgreeBefore(f, b, PhiCount(f.blocks[b]), l, l')
    ensures var code := f.blocks[b][PhiCount(f.blocks[b])..i];
            AgreeBefore(f, b, i, ExecAll(m, code, l), ExecAll(m, code, l'))
  {
    var s, n := f.blocks[b], PhiCount(f.blocks[b]);
    if i > n {
      BlockAgrees(f, m, b, i - 1, l, l');
      var code := s[n..i];
      assert code[..|code| - 1] == s[n..i - 1] && code[|code| - 1] == s[i - 1];
      MiddleOfBlock(f, b, i - 1);
      StepAgrees(f, m, b, i - 1, ExecAll(m, s[n..i - 1], l), ExecAll(m, s[n..i - 1], l'));
    } else {
      assert s[n..i] == [];
    }
  }

  lemma {:induction false} PhisDoNothing(m: Semantics, s: seq<Instr>, l: Local)
    requires forall i :: 0 <= i < |s| ==> s[i].kind.Phi?
    ensures ExecAll(m, s, l) == l
  {
    if s != [] {
      PhisDoNothing(m, s[..|s| - 1], l);
    }
  }

  /** Running a block is executing what comes after its phis; the terminator adds nothing. */
  lemma RunIsTail(f: Function, m: Semantics, b: nat, p: nat, l: Local)
    requires WellFormed(f) && b < |f.blocks|
    ensures var s, n := f.blocks[b], PhiCount(f.blocks[b]);
            && n < |s| && s[|s| - 1].kind.Term?
            && RunBlock(m, s, p, l) == ExecAll(m, s[n..|s| - 1], Local(PhiEnv(s, p, l.env), l.world))
  {
    var s, n := f.blocks[b], PhiCount(f.blocks[b]);
    var l1 := Local(PhiEnv(s, p, l.env), l.world);
    assert BlockShape(f, b);
    var phis, middle := s[..n], s[n..|s| - 1];
    assert s[..|s| - 1] == phis + middle;
    ExecAppend(m, phis, middle, l1);
    PhisDoNothing(m, phis, l1);
  }

  /** Two states that agree on what is live agree before the terminator. */
  lemma TerminatorAgrees(f: Function, m: Semantics, b: nat, p: nat, l: Local, l': Local)
    requires WellFormed(f) && StrictSsa(f) && b < |f.blocks| && AgreeEntering(f, p, b, l, l')
    ensures var s, n := f.blocks[b], PhiCount(f.blocks[b]);
            && n < |s| && s[|s| - 1].kind.Term?
            && AgreeBefore(f, b, |s| - 1, RunBlock(m, s, p, l), RunBlock(m, s, p, l'))
  {
    var s := f.blocks[b];
    RunIsTail(f, m, b, p, l);
    RunIsTail(f, m, b, p, l');
    EnterAgrees(f, p, b, l, l');
    BlockAgrees(f, m, b, |s| - 1, Local(PhiEnv(s, p, l.env), l.world), Local(PhiEnv(s, p, l'.env), l'.world));
  }

  /** So they leave the block the same way. */
  lemma LeaveAgrees(f: Function, m: Semantics, b: nat, p: nat, l: Local, l': Local)
    requires WellFormed(f) && StrictSsa(f) && b < |f.blocks| && AgreeEntering(f, p, b, l, l')
    ensures var s := f.blocks[b];
            var r, r' := RunBlock(m, s, p, l), RunBlock(m, s, p, l');
            && s != [] && AgreeBefore(f, b, |s|, r, r')
            && Values(r.env, s[|s| - 1].ops) == Values(r'.env, s[|s| - 1].ops)
  {
    var s := f.blocks[b];
    TerminatorAgrees(f, m, b, p, l, l');
    TerminatorStep(f, b, RunBlock(m, s, p, l), RunBlock(m, s, p, l'));
  }

  lemma TerminatorStep(f: Function, b: nat, r: Local, r': Local)
    requires WellFormed(f) && StrictSsa(f) && b < |f.blocks| && f.blocks[b] != []
    requires AgreeBefore(f, b, |f.blocks[b]| - 1, r, r')
    ensures var s := f.blocks[b];
            AgreeBefore(f, b, |s|, r, r') && Values(r.env, s[|s| - 1].ops) == Values(r'.env, s[|s| - 1].ops)
  {
    var i := |f.blocks[b]| - 1;
    OperandsAgree(f, b, i, r, r');
    TerminatorNotLive(f, b);
    forall d: nat | LiveBefore(f, b, i + 1, d)
      ensures Lookup(r.env, d) == Lookup(r'.env, d)
    {
      LiveEarlier(f, b, i, d);
    }
  }

  // ----- Along a run -----

  /** What is live entering a successor is live at the end of the block. */
  lemma LiveAcrossEdge(f: Function, b: nat, c: nat, d: nat)
    requires WellFormed(f) && f.graph.Edge(b, c) && c < |f.blocks| && LiveEntering(f, b, c, d)
    ensures LiveOut(f, b, d)
  {
    if PhiTakesOnEdge(f, b, c, d) || Exposed(f.blocks[c], d) {
      var w := [b, c];
      assert IsWalk(f.graph, w, b, c) && LiveAlong(f, w, d);
    } else {
      var v :| v != [] && IsWalk(f.graph, v, c, v[|v| - 1]) && LiveAlong(f, v, d);
      var w := [b] + v;
      WalkCons(f.graph, v, b, c, v[|v| - 1]);
      assert w[|w| - 1] == v[|v| - 1] && w[|w| - 2] == v[|v| - 2];
      forall i | 0 < i < |w| - 1
        ensures !DefinedIn(f, d, w[i])
      {
        assert w[i] == v[i - 1];
      }
      assert LiveAlong(f, w, d);
    }
  }

  ghost predicate Alike(f: Function, s: State, s': State) {
    && Observe(s) == Observe(s')
    && (s.Running? && s.block < |f.blocks| ==> AgreeEntering(f, s.prev, s.block, s.local, s'.local))
  }

  lemma AlikeStep(f: Function, m: Semantics, s: State, s': State)
    requires WellFormed(f) && StrictSsa(f) && Alike(f, s, s')
    ensures Alike(f, Step(f, m, s), Step(f, m, s'))
  {
    if s.Running? && s.block < |f.blocks| {
      var b, code := s.block, f.blocks[s.block];
      LeaveAgrees(f, m, b, s.prev, s.local, s'.local);
      var r, r' := RunBlock(m, code, s.prev, s.local), RunBlock(m, code, s.prev, s'.local);
      LeaveEdge(f.graph, m, b, code[|code| - 1], r);
      var t, t' := Step(f, m, s), Step(f, m, s');
      if t.Running? && t.block < |f.blocks| {
        forall d: nat | LiveEntering(f, t.prev, t.block, d)
          ensures Lookup(t.local.env, d) == Lookup(t'.local.env, d)
        {
          LiveAcrossEdge(f, b, t.block, d);
          assert !DefinedFrom(code, |code|, |code|, d);
          assert LiveBefore(f, b, |code|, d);
        }
      }
    }
  }

  /** Two states about to enter the same block that differ only in values that are not live
      there are indistinguishable for ever. */
  lemma {:induction false} DeadValuesDoNotMatter(f: Function, m: Semantics, b: nat, p: nat, l: Local, l': Local, k: nat)
    requires WellFormed(f) && StrictSsa(f) && b < |f.blocks| && AgreeEntering(f, p, b, l, l')
    ensures Alike(f, RunFor(f, m, Running(b, p, l), k), RunFor(f, m, Running(b, p, l'), k))
  {
    if k > 0 {
      DeadValuesDoNotMatter(f, m, b, p, l, l', k - 1);
      AlikeStep(f, m, RunFor(f, m, Running(b, p, l), k - 1), RunFor(f, m, Running(b, p, l'), k - 1));
    }
  }

  /** So a value outside the OUT set of a block may be overwritten at its end. */
  lemma OutsideOutIsDead(f: Function, exits: set<nat>, res: Results, m: Semantics, p: nat, b: nat, l: Local, d: nat,
                         x: int, k: nat)
    requires WellFormed(f) && StrictSsa(f) && Solved(LivenessProblem(f), exits, {}, res)
    requires p < |f.blocks| && Reachable(f.graph, p) && f.graph.Edge(p, b) && d !in res[p].outSet
    ensures Observe(RunFor(f, m, Running(b, p, l), k)) ==
            Observe(RunFor(f, m, Running(b, p, Local(l.env[d := x], l.world)), k))
  {
    var l' := Local(l.env[d := x], l.world);
    forall c: nat | LiveEntering(f, p, b, c)
      ensures Lookup(l.env, c) == Lookup(l'.env, c)
    {
      LiveAcrossEdge(f, p, b, c);
      LiveOutExact(f, exits, res, p, c);
    }
    DeadValuesDoNotMatter(f, m, b, p, l, l', k);
  }
}
