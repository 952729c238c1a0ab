/** Moving loop-invariant instructions to the preheader: the moved function is still
    in SSA form and behaves as before. */
module Hoist {
  import opened Cfg
  import opened Ir
  import opened Loops

  ghost predicate LoopDef(f: Function, loop: Loop, d: nat) {
    exists c :: c in loop.blocks && DefinedIn(f, d, c)
  }

  ghost predicate InLoop(f: Function, loop: Loop, s: Instr) {
    exists b: nat, i: nat :: b in loop.blocks && At(f, b, i) && f.blocks[b][i] == s
  }

  /** Instructions of the loop that may be moved in this order: each is safe to
      speculate, and its operands from the loop come earlier in the list. */
  ghost predicate IsHoistList(f: Function, loop: Loop, inv: seq<Instr>) {
    && (forall j :: 0 <= j < |inv| ==> inv[j].IsSafe() && InLoop(f, loop, inv[j]))
    && (forall j, k :: 0 <= j < k < |inv| ==> inv[j].id != inv[k].id)
    && (forall j, d :: 0 <= j < |inv| && inv[j].Uses(d) && LoopDef(f, loop, d) ==> d in Ids(inv[..j]))
  }

  ghost predicate CanHoist(f: Function, loop: Loop, ph: nat, inv: seq<Instr>) {
    && WellFormed(f) && StrictSsa(f)
    && IsNaturalLoop(f.graph, loop) && IsPreheader(f.graph, loop, ph)
    && IsHoistList(f, loop, inv)
  }

  /** Every instruction of `inv` taken out of its block and placed, in order, before
      the terminator of the preheader. */
  function HoistedBlock(f: Function, ph: nat, inv: seq<Instr>, b: nat): seq<Instr>
    requires b < |f.blocks|
  {
    var s := f.blocks[b];
    if b == ph && s != [] then s[..|s| - 1] + inv + [s[|s| - 1]] else Without(s, Ids(inv))
  }

  function Hoisted(f: Function, ph: nat, inv: seq<Instr>): Function {
    f.(blocks := seq(|f.blocks|, b requires 0 <= b < |f.blocks| => HoistedBlock(f, ph, inv, b)))
  }

  // ----- Where the moved instructions come from -----

  /** A hoisted id belongs to one loop instruction, and that one is on the list. */
  lemma HoistedPlace(f: Function, loop: Loop, inv: seq<Instr>, b: nat, i: nat) returns (j: nat)
    requires WellFormed(f) && IsHoistList(f, loop, inv) && At(f, b, i) && f.blocks[b][i].id in Ids(inv)
    ensures b in loop.blocks && j < |inv| && inv[j] == f.blocks[b][i]
  {
    j :| 0 <= j < |inv| && inv[j].id == f.blocks[b][i].id;
    assert InLoop(f, loop, inv[j]);
    var c: nat, k: nat :| c in loop.blocks && At(f, c, k) && f.blocks[c][k] == inv[j];
    assert SameIdSamePlace(f, b, i, c, k);
  }

  lemma HoistedDefInLoop(f: Function, loop: Loop, inv: seq<Instr>, d: nat, c: nat)
    requires WellFormed(f) && IsHoistList(f, loop, inv) && d in Ids(inv) && DefinedIn(f, d, c)
    ensures c in loop.blocks
  {
    var i: nat :| At(f, c, i) && f.blocks[c][i].id == d;
    var j := HoistedPlace(f, loop, inv, c, i);
  }

  // ----- The simulation relation -----

  /** Moved values agree where their original definition dominates the end of `p`. */
  ghost predicate AgreeAtEnd(f: Function, moved: set<nat>, p: nat, e: Env, e': Env) {
    forall d: nat, c: nat :: d in moved && DefinedIn(f, d, c) && Dom(f.graph, c, p) ==> Lookup(e, d) == Lookup(e', d)
  }

  ghost predicate AgreeAtStart(f: Function, moved: set<nat>, b: nat, e: Env, e': Env) {
    forall d: nat, c: nat :: d in moved && DefinedIn(f, d, c) && SDom(f.graph, c, b) ==> Lookup(e, d) == Lookup(e', d)
  }

  /** The moved values are what the moved instructions would compute right now. */
  ghost predicate Consistent(m: Semantics, inv: seq<Instr>, e: Env) {
    forall j :: 0 <= j < |inv| ==> Lookup(e, inv[j].id) == m.eval(inv[j].id, Values(e, inv[j].ops))
  }

  /** The relation after the first `i` instructions of block `b`. */
  ghost predicate RelatedAt(f: Function, loop: Loop, inv: seq<Instr>, m: Semantics, b: nat, i: nat, l: Local, l': Local)
    requires b < |f.blocks| && i <= |f.blocks[b]|
  {
    && l.world == l'.world
    && AgreeOff(Ids(inv), l.env, l'.env)
    && AgreeAtStart(f, Ids(inv), b, l.env, l'.env)
    && (forall j :: 0 <= j < i && f.blocks[b][j].id in Ids(inv) ==>
          Lookup(l.env, f.blocks[b][j].id) == Lookup(l'.env, f.blocks[b][j].id))
    && (b in loop.blocks ==> Consistent(m, inv, l'.env))
  }

  lemma OperandsAgree(f: Function, loop: Loop, ph: nat, inv: seq<Instr>, m: Semantics, b: nat, i: nat, l: Local,
                      l': Local)
    requires CanHoist(f, loop, ph, inv) && At(f, b, i) && Reachable(f.graph, b) && !f.blocks[b][i].kind.Phi?
    requires RelatedAt(f, loop, inv, m, b, i, l, l')
    ensures Values(l.env, f.blocks[b][i].ops) == Values(l'.env, f.blocks[b][i].ops)
  {
    var s := f.blocks[b][i];
    forall d: nat | Ref(d) in s.ops
      ensures Lookup(l.env, d) == Lookup(l'.env, d)
    {
      if d in Ids(inv) {
        var k :| 0 <= k < |inv| && inv[k].id == d;
        assert InLoop(f, loop, inv[k]);
        var c: nat, j: nat :| c in loop.blocks && At(f, c, j) && f.blocks[c][j] == inv[k];
        assert IsUse(f, b, i, c, j);
        assert DefBeforeUse(f, b, i, c, j);
        assert DefinedIn(f, d, c);
      }
    }
    SameValues(l.env, l'.env, s.ops);
  }

  /** Executing an instruction that has been moved away. */
  lemma MovedStep(f: Function, loop: Loop, ph: nat, inv: seq<Instr>, m: Semantics, b: nat, i: nat, l: Local, l': Local)
    requires CanHoist(f, loop, ph, inv) && At(f, b, i) && Reachable(f.graph, b) && f.blocks[b][i].id in Ids(inv)
    requires RelatedAt(f, loop, inv, m, b, i, l, l')
    ensures RelatedAt(f, loop, inv, m, b, i + 1, Exec(m, f.blocks[b][i], l), l')
  {
    var s := f.blocks[b][i];
    var j := HoistedPlace(f, loop, inv, b, i);
    OperandsAgree(f, loop, ph, inv, m, b, i, l, l');
    var r := Exec(m, s, l);
    assert Lookup(r.env, s.id) == Lookup(l'.env, s.id);
    assert forall d: nat :: d != s.id ==> Lookup(r.env, d) == Lookup(l.env, d);
  }

  /** Executing an instruction that stays. */
  lemma KeptStep(f: Function, loop: Loop, ph: nat, inv: seq<Instr>, m: Semantics, b: nat, i: nat, l: Local, l': Local)
    requires CanHoist(f, loop, ph, inv) && At(f, b, i) && Reachable(f.graph, b) && f.blocks[b][i].id !in Ids(inv)
    requires RelatedAt(f, loop, inv, m, b, i, l, l')
    ensures RelatedAt(f, loop, inv, m, b, i + 1, Exec(m, f.blocks[b][i], l), Exec(m, f.blocks[b][i], l'))
  {
    var s := f.blocks[b][i];
    if !s.kind.Phi? && !s.kind.Term? {
      OperandsAgree(f, loop, ph, inv, m, b, i, l, l');
      var r, r' := Exec(m, s, l), Exec(m, s, l');
      assert r.world == r'.world && Lookup(r.env, s.id) == Lookup(r'.env, s.id);
      assert forall d: nat :: d != s.id ==>
          Lookup(r.env, d) == Lookup(l.env, d) && Lookup(r'.env, d) == Lookup(l'.env, d);
      if b in loop.blocks {
        assert DefinedIn(f, s.id, b);
        assert LoopDef(f, loop, s.id);
        ConsistentFrame(f, loop, inv, m, l'.env, r'.env, s.id);
      }
    }
  }

  /** Writing a loop value that is not moved leaves the moved values consistent. */
  lemma ConsistentFrame(f: Function, loop: Loop, inv: seq<Instr>, m: Semantics, e: Env, e2: Env, d: nat)
    requires IsHoistList(f, loop, inv) && LoopDef(f, loop, d) && d !in Ids(inv) && Consistent(m, inv, e)
    requires forall x: nat :: x != d ==> Lookup(e, x) == Lookup(e2, x)
    ensures Consistent(m, inv, e2)
  {
    forall j | 0 <= j < |inv|
      ensures Lookup(e2, inv[j].id) == m.eval(inv[j].id, Values(e2, inv[j].ops))
    {
      assert inv[j].Uses(d) ==> d in Ids(inv[..j]);
      assert forall x :: x in Ids(inv[..j]) ==> x in Ids(inv);
      SameValues(e, e2, inv[j].ops);
    }
  }

  lemma RelatedStep(f: Function, loop: Loop, ph: nat, inv: seq<Instr>, m: Semantics, b: nat, i: nat, l: Local,
                    l': Local)
    requires CanHoist(f, loop, ph, inv) && At(f, b, i) && Reachable(f.graph, b)
    requires RelatedAt(f, loop, inv, m, b, i, l, l')
    ensures var s := f.blocks[b][i];
            RelatedAt(f, loop, inv, m, b, i + 1, Exec(m, s, l), if s.id in Ids(inv) then l' else Exec(m, s, l'))
  {
    if f.blocks[b][i].id in Ids(inv) {
      MovedStep(f, loop, ph, inv, m, b, i, l, l');
    } else {
      KeptStep(f, loop, ph, inv, m, b, i, l, l');
    }
  }

  lemma {:induction false} RelatedPrefix(f: Function, loop: Loop, ph: nat, inv: seq<Instr>, m: Semantics, b: nat,
                                         i: nat, l: Local, l': Local)
    requires CanHoist(f, loop, ph, inv) && b < |f.blocks| && i <= |f.blocks[b]| && Reachable(f.graph, b)
    requires RelatedAt(f, loop, inv, m, b, 0, l, l')
    ensures var s := f.blocks[b];
            RelatedAt(f, loop, inv, m, b, i, ExecAll(m, s[..i], l), ExecAll(m, Without(s[..i], Ids(inv)), l'))
  {
    if i > 0 {
      var s := f.blocks[b];
      RelatedPrefix(f, loop, ph, inv, m, b, i - 1, l, l');
      RelatedStep(f, loop, ph, inv, m, b, i - 1, ExecAll(m, s[..i - 1], l),
          ExecAll(m, Without(s[..i - 1], Ids(inv)), l'));
      ExecOneMore(m, s, i - 1, Ids(inv), l, l');
    }
  }

  // ----- Entering a block -----

  lemma PhiOperandAgrees(f: Function, loop: Loop, ph: nat, inv: seq<Instr>, b: nat, i: nat, p: nat, e: Env, e': Env)
    requires CanHoist(f, loop, ph, inv) && At(f, b, i) && f.blocks[b][i].kind.Phi? && Reachable(f.graph, b)
    requires AgreeOff(Ids(inv), e, e') && AgreeAtEnd(f, Ids(inv), p, e, e')
    ensures Taken(f.blocks[b][i], p, e) == Taken(f.blocks[b][i], p, e')
  {
    var s := f.blocks[b][i];
    var op := Incoming(s.kind.from, s.ops, p, 0);
    if op.Ref? && op.id in Ids(inv) {
      var x :| 0 <= x < |s.ops| && x < |s.kind.from| && s.kind.from[x] == p && s.ops[x] == op;
      var k :| 0 <= k < |inv| && inv[k].id == op.id;
      assert InLoop(f, loop, inv[k]);
      var c: nat, j: nat :| c in loop.blocks && At(f, c, j) && f.blocks[c][j] == inv[k];
      assert IsUse(f, b, i, c, j);
      assert DefBeforeUse(f, b, i, c, j);
      assert DefinedIn(f, op.id, c);
    }
  }

  lemma PhisRelated(f: Function, loop: Loop, ph: nat, inv: seq<Instr>, b: nat, p: nat, e: Env, e': Env)
    requires CanHoist(f, loop, ph, inv) && b < |f.blocks| && Reachable(f.graph, b)
    requires AgreeOff(Ids(inv), e, e') && AgreeAtEnd(f, Ids(inv), p, e, e')
    ensures AgreeOff(Ids(inv), PhiEnv(f.blocks[b], p, e), PhiEnv(Without(f.blocks[b], Ids(inv)), p, e'))
  {
    var s := f.blocks[b];
    forall i | 0 <= i < |s| && s[i].kind.Phi? && s[i].id !in Ids(inv)
      ensures Taken(s[i], p, e) == Taken(s[i], p, e')
    {
      PhiOperandAgrees(f, loop, ph, inv, b, i, p, e, e');
    }
    PhisAgree(s, |s|, Ids(inv), p, e, e');
    assert s[..|s|] == s;
  }

  /** No phi of a block changes a moved value. */
  lemma PhisKeepMoved(f: Function, loop: Loop, inv: seq<Instr>, b: nat, p: nat, e: Env, d: nat)
    requires WellFormed(f) && IsHoistList(f, loop, inv) && b < |f.blocks| && d in Ids(inv)
    ensures Lookup(PhiEnv(f.blocks[b], p, e), d) == Lookup(e, d)
    ensures Lookup(PhiEnv(Without(f.blocks[b], Ids(inv)), p, e), d) == Lookup(e, d)
  {
    var s := f.blocks[b];
    forall i | 0 <= i < |s| && s[i].kind.Phi?
      ensures s[i].id != d
    {
      if s[i].id == d {
        var j := HoistedPlace(f, loop, inv, b, i);
      }
    }
    PhiEnvFrame(s, p, e, d);
    var kept := Without(s, Ids(inv));
    forall i | 0 <= i < |kept|
      ensures kept[i].id != d
    {
      assert kept[i] in kept;
      WithoutMember(s, Ids(inv), kept[i]);
    }
    PhiEnvFrame(kept, p, e, d);
  }

  lemma ConsistentSame(f: Function, loop: Loop, ph: nat, inv: seq<Instr>, m: Semantics, b: nat, p: nat, e: Env)
    requires CanHoist(f, loop, ph, inv) && b in loop.blocks && b < |f.blocks| && Consistent(m, inv, e)
    ensures Consistent(m, inv, PhiEnv(Without(f.blocks[b], Ids(inv)), p, e))
  {
    var kept := Without(f.blocks[b], Ids(inv));
    var e2 := PhiEnv(kept, p, e);
    forall j | 0 <= j < |inv|
      ensures Lookup(e2, inv[j].id) == m.eval(inv[j].id, Values(e2, inv[j].ops))
    {
      PhisKeepMoved(f, loop, inv, b, p, e, inv[j].id);
      forall d: nat | Ref(d) in inv[j].ops
        ensures Lookup(e, d) == Lookup(e2, d)
      {
        forall i | 0 <= i < |kept|
          ensures kept[i].id != d
        {
          assert kept[i] in kept;
          WithoutMember(f.blocks[b], Ids(inv), kept[i]);
          LoopOperandMoved(f, loop, inv, j, b, kept[i], d);
        }
        PhiEnvFrame(kept, p, e, d);
      }
      SameValues(e, e2, inv[j].ops);
    }
  }

  /** A loop instruction that stays is not an operand of a moved one. */
  lemma LoopOperandMoved(f: Function, loop: Loop, inv: seq<Instr>, j: nat, b: nat, s: Instr, d: nat)
    requires IsHoistList(f, loop, inv) && j < |inv| && inv[j].Uses(d) && b in loop.blocks && b < |f.blocks|
    requires s in f.blocks[b] && s.id !in Ids(inv)
    ensures s.id != d
  {
    var i :| 0 <= i < |f.blocks[b]| && f.blocks[b][i] == s;
    assert At(f, b, i);
    assert DefinedIn(f, s.id, b);
    assert LoopDef(f, loop, s.id);
  }

  // ----- The preheader runs the moved instructions -----

  lemma {:induction false} RunMoved(f: Function, loop: Loop, inv: seq<Instr>, m: Semantics, n: nat, l: Local)
    requires IsHoistList(f, loop, inv) && n <= |inv|
    ensures var r := ExecAll(m, inv[..n], l);
            && r.world == l.world && AgreeOff(Ids(inv), l.env, r.env)
            && forall j :: 0 <= j < n ==> Lookup(r.env, inv[j].id) == m.eval(inv[j].id, Values(r.env, inv[j].ops))
  {
    if n > 0 {
      RunMoved(f, loop, inv, m, n - 1, l);
      assert inv[..n][..n - 1] == inv[..n - 1];
      var before := ExecAll(m, inv[..n - 1], l);
      var after := ExecAll(m, inv[..n], l);
      assert after == Exec(m, inv[n - 1], before);
      forall j | 0 <= j < n
        ensures Lookup(after.env, inv[j].id) == m.eval(inv[j].id, Values(after.env, inv[j].ops))
      {
        MovedOperandsEarlier(f, loop, inv, j, n - 1);
        SameValues(before.env, after.env, inv[j].ops);
      }
    }
  }

  /** An instruction of the list uses neither itself nor a later one. */
  lemma MovedOperandsEarlier(f: Function, loop: Loop, inv: seq<Instr>, j: nat, n: nat)
    requires IsHoistList(f, loop, inv) && j <= n < |inv|
    ensures !inv[j].Uses(inv[n].id)
  {
    if inv[j].Uses(inv[n].id) {
      assert InLoop(f, loop, inv[n]);
      var c: nat, k: nat :| c in loop.blocks && At(f, c, k) && f.blocks[c][k] == inv[n];
      assert DefinedIn(f, inv[n].id, c);
      assert LoopDef(f, loop, inv[n].id);
    }
  }

  // ----- One block of the simulation -----

  /** The relation between the two runs when they are about to enter a block. */
  ghost predicate Related(f: Function, loop: Loop, inv: seq<Instr>, m: Semantics, s: State, s': State) {
    && Observe(s) == Observe(s')
    && (s.Running? ==>
          && Reachable(f.graph, s.block)
          && AgreeOff(Ids(inv), s.local.env, s'.local.env)
          && (s.block == 0 || f.graph.Edge(s.prev, s.block))
          && AgreeAtEnd(f, Ids(inv), s.prev, s.local.env, s'.local.env)
          && (s.block in loop.blocks ==> Consistent(m, inv, s'.local.env)))
  }

  lemma EnterBlock(f: Function, loop: Loop, ph: nat, inv: seq<Instr>, m: Semantics, b: nat, p: nat, l: Local, l': Local)
    requires CanHoist(f, loop, ph, inv) && Related(f, loop, inv, m, Running(b, p, l), Running(b, p, l'))
    ensures b < |f.blocks|
    ensures RelatedAt(f, loop, inv, m, b, 0, Local(PhiEnv(f.blocks[b], p, l.env), l.world),
                      Local(PhiEnv(Without(f.blocks[b], Ids(inv)), p, l'.env), l'.world))
  {
    ReachableIsBlock(f.graph, b);
    var s := f.blocks[b];
    var kept := Without(s, Ids(inv));
    PhisRelated(f, loop, ph, inv, b, p, l.env, l'.env);
    forall d: nat, c: nat | d in Ids(inv) && DefinedIn(f, d, c) && SDom(f.graph, c, b)
      ensures Lookup(PhiEnv(s, p, l.env), d) == Lookup(PhiEnv(kept, p, l'.env), d)
    {
      assert b != 0 by {
        assert IsPath(f.graph, [0], 0);
      }
      SDomAcrossEdge(f.graph, c, p, b);
      PhisKeepMoved(f, loop, inv, b, p, l.env, d);
      PhisKeepMoved(f, loop, inv, b, p, l'.env, d);
    }
    if b in loop.blocks {
      ConsistentSame(f, loop, ph, inv, m, b, p, l'.env);
    }
  }

  /** What the transformed function executes in block `b`. */
  lemma HoistedRun(f: Function, loop: Loop, ph: nat, inv: seq<Instr>, m: Semantics, b: nat, p: nat, l: Local)
    requires CanHoist(f, loop, ph, inv) && b < |f.blocks|
    ensures var kept := Without(f.blocks[b], Ids(inv));
            RunBlock(m, HoistedBlock(f, ph, inv, b), p, l) ==
            if b == ph then ExecAll(m, inv, RunBlock(m, kept, p, l)) else RunBlock(m, kept, p, l)
  {
    if b == ph {
      assert BlockShape(f, ph);
      PreheaderKeepsAll(f, loop, ph, inv);
      assert forall j :: 0 <= j < |inv| ==> inv[j].IsSafe() && !inv[j].kind.Phi?;
      RunWithInserted(m, f.blocks[ph], inv, p, l);
    }
  }

  /** Instructions inserted before the terminator run after everything else. */
  lemma RunWithInserted(m: Semantics, s: seq<Instr>, inv: seq<Instr>, p: nat, l: Local)
    requires s != [] && s[|s| - 1].kind.Term? && forall j :: 0 <= j < |inv| ==> !inv[j].kind.Phi?
    ensures RunBlock(m, s[..|s| - 1] + inv + [s[|s| - 1]], p, l) == ExecAll(m, inv, RunBlock(m, s, p, l))
  {
    var front, t := s[..|s| - 1], s[|s| - 1];
    var long := front + inv + [t];
    assert s == front + [t] && long == front + (inv + [t]);
    PhiEnvAppend(front, [t], p, l.env);
    PhiEnvAppend(front, inv + [t], p, l.env);
    var l1 := Local(PhiEnv(front, p, l.env), l.world);
    assert RunBlock(m, s, p, l) == ExecAll(m, front, l1) by {
      ExecOne(m, t, ExecAll(m, front, l1));
      ExecAppend(m, front, [t], l1);
    }
    assert RunBlock(m, long, p, l) == ExecAll(m, inv, ExecAll(m, front, l1)) by {
      assert long[..|long| - 1] == front + inv && long[|long| - 1] == t;
      ExecAppend(m, front, inv, l1);
    }
  }

  lemma ExecOne(m: Semantics, t: Instr, l: Local)
    ensures ExecAll(m, [t], l) == Exec(m, t, l)
  {
    assert [t][..0] == [];
  }

  lemma PreheaderKeepsAll(f: Function, loop: Loop, ph: nat, inv: seq<Instr>)
    requires CanHoist(f, loop, ph, inv) && ph < |f.blocks|
    ensures Without(f.blocks[ph], Ids(inv)) == f.blocks[ph]
    ensures forall i :: 0 <= i < |f.blocks[ph]| ==> f.blocks[ph][i].id !in Ids(inv)
  {
    var s := f.blocks[ph];
    forall i | 0 <= i < |s|
      ensures s[i].id !in Ids(inv)
    {
      if s[i].id in Ids(inv) {
        var j := HoistedPlace(f, loop, inv, ph, i);
      }
    }
    WithoutNothing(s, Ids(inv));
  }

  /** Running a whole block keeps what the next block needs. */
  lemma RunRelated(f: Function, loop: Loop, ph: nat, inv: seq<Instr>, m: Semantics, b: nat, p: nat, l: Local, l': Local)
    requires CanHoist(f, loop, ph, inv) && Related(f, loop, inv, m, Running(b, p, l), Running(b, p, l'))
    requires b < |f.blocks| && f.blocks[b] != []
    ensures var r, r' := RunBlock(m, f.blocks[b], p, l), RunBlock(m, HoistedBlock(f, ph, inv, b), p, l');
            && r.world == r'.world && AgreeOff(Ids(inv), r.env, r'.env) && AgreeAtEnd(f, Ids(inv), b, r.env, r'.env)
            && (b in loop.blocks || b == ph ==> Consistent(m, inv, r'.env))
            && Values(r.env, f.blocks[b][|f.blocks[b]| - 1].ops) == Values(r'.env, f.blocks[b][|f.blocks[b]| - 1].ops)
  {
    var s := f.blocks[b];
    assert BlockShape(f, b);
    var kept := Without(s, Ids(inv));
    EnterBlock(f, loop, ph, inv, m, b, p, l, l');
    var l0, l0' := Local(PhiEnv(s, p, l.env), l.world), Local(PhiEnv(kept, p, l'.env), l'.world);
    RelatedPrefix(f, loop, ph, inv, m, b, |s|, l0, l0');
    assert s[..|s|] == s;
    var r, mid := ExecAll(m, s, l0), ExecAll(m, kept, l0');
    HoistedRun(f, loop, ph, inv, m, b, p, l');
    EndAgrees(f, loop, inv, m, b, r, mid);
    TermAgrees(f, loop, ph, inv, m, b, r, mid);
    if b == ph {
      RunMoved(f, loop, inv, m, |inv|, mid);
      assert inv[..|inv|] == inv;
      var r' := ExecAll(m, inv, mid);
      NothingMovedBefore(f, loop, ph, inv, r.env, r'.env);
      TermAtPreheader(f, loop, ph, inv, r.env, r'.env);
    }
  }

  lemma EndAgrees(f: Function, loop: Loop, inv: seq<Instr>, m: Semantics, b: nat, l: Local, l': Local)
    requires b < |f.blocks| && RelatedAt(f, loop, inv, m, b, |f.blocks[b]|, l, l')
    ensures AgreeAtEnd(f, Ids(inv), b, l.env, l'.env)
  {
    forall d: nat, c: nat | d in Ids(inv) && DefinedIn(f, d, c) && Dom(f.graph, c, b)
      ensures Lookup(l.env, d) == Lookup(l'.env, d)
    {
      if c == b {
        var j: nat :| At(f, c, j) && f.blocks[c][j].id == d;
      }
    }
  }

  /** The terminator reads the same values in both functions. */
  lemma TermAgrees(f: Function, loop: Loop, ph: nat, inv: seq<Instr>, m: Semantics, b: nat, l: Local, l': Local)
    requires CanHoist(f, loop, ph, inv) && b < |f.blocks| && Reachable(f.graph, b)
    requires RelatedAt(f, loop, inv, m, b, |f.blocks[b]|, l, l')
    ensures f.blocks[b] != []
    ensures var t := f.blocks[b][|f.blocks[b]| - 1]; Values(l.env, t.ops) == Values(l'.env, t.ops)
  {
    assert BlockShape(f, b);
    OperandsAgree(f, loop, ph, inv, m, b, |f.blocks[b]| - 1, l, l');
  }

  /** No moved definition dominates the preheader. */
  lemma NothingMovedBefore(f: Function, loop: Loop, ph: nat, inv: seq<Instr>, e: Env, e': Env)
    requires CanHoist(f, loop, ph, inv)
    ensures AgreeAtEnd(f, Ids(inv), ph, e, e')
  {
    forall d: nat, c: nat | d in Ids(inv) && DefinedIn(f, d, c)
      ensures !Dom(f.graph, c, ph)
    {
      HoistedDefInLoop(f, loop, inv, d, c);
      LoopBlockNotBeforePreheader(f.graph, loop, ph, c);
    }
  }

  lemma TermAtPreheader(f: Function, loop: Loop, ph: nat, inv: seq<Instr>, e: Env, e': Env)
    requires CanHoist(f, loop, ph, inv) && ph < |f.blocks| && AgreeOff(Ids(inv), e, e')
    ensures f.blocks[ph] != []
    ensures var t := f.blocks[ph][|f.blocks[ph]| - 1]; Values(e, t.ops) == Values(e', t.ops)
  {
    assert BlockShape(f, ph);
    var i := |f.blocks[ph]| - 1;
    var t := f.blocks[ph][i];
    forall d: nat | Ref(d) in t.ops
      ensures d !in Ids(inv)
    {
      if d in Ids(inv) {
        var k :| 0 <= k < |inv| && inv[k].id == d;
        assert InLoop(f, loop, inv[k]);
        var c: nat, j: nat :| c in loop.blocks && At(f, c, j) && f.blocks[c][j] == inv[k];
        assert IsUse(f, ph, i, c, j);
        assert DefBeforeUse(f, ph, i, c, j);
        LoopBlockNotBeforePreheader(f.graph, loop, ph, c);
      }
    }
    SameValues(e, e', t.ops);
  }

  lemma RelatedBlock(f: Function, loop: Loop, ph: nat, inv: seq<Instr>, m: Semantics, s: State, s': State)
    requires CanHoist(f, loop, ph, inv) && Related(f, loop, inv, m, s, s')
    ensures Related(f, loop, inv, m, Step(f, m, s), Step(Hoisted(f, ph, inv), m, s'))
  {
    if s.Running? {
      var b := s.block;
      ReachableIsBlock(f.graph, b);
      assert BlockShape(f, b);
      LastStays(f, loop, ph, inv, b);
      RunRelated(f, loop, ph, inv, m, b, s.prev, s.local, s'.local);
      var next := Step(f, m, s);
      if next.Running? {
        LeaveEdge(f.graph, m, b, f.blocks[b][|f.blocks[b]| - 1], RunBlock(m, f.blocks[b], s.prev, s.local));
        ReachableStep(f.graph, b, next.block);
        if next.block in loop.blocks {
          EnteringLoop(f.graph, loop, ph, b, next.block);
        }
      }
    }
  }

  /** The terminator of each block stays where it is. */
  lemma LastStays(f: Function, loop: Loop, ph: nat, inv: seq<Instr>, b: nat)
    requires CanHoist(f, loop, ph, inv) && b < |f.blocks|
    ensures f.blocks[b] != []
    ensures var r := HoistedBlock(f, ph, inv, b); r != [] && r[|r| - 1] == f.blocks[b][|f.blocks[b]| - 1]
  {
    assert BlockShape(f, b);
    var s := f.blocks[b];
    if s[|s| - 1].id in Ids(inv) {
      var j := HoistedPlace(f, loop, inv, b, |s| - 1);
    }
  }

  lemma {:induction false} RelatedRun(f: Function, loop: Loop, ph: nat, inv: seq<Instr>, m: Semantics, l: Local, k: nat)
    requires CanHoist(f, loop, ph, inv)
    ensures Related(f, loop, inv, m, RunFor(f, m, Running(0, 0, l), k),
            RunFor(Hoisted(f, ph, inv), m, Running(0, 0, l), k))
  {
    if k == 0 {
      EntryReachable(f.graph);
      assert 0 !in loop.blocks by {
        assert IsPath(f.graph, [0], 0);
      }
    } else {
      RelatedRun(f, loop, ph, inv, m, l, k - 1);
      RelatedBlock(f, loop, ph, inv, m, RunFor(f, m, Running(0, 0, l), k - 1),
          RunFor(Hoisted(f, ph, inv), m, Running(0, 0, l), k - 1));
    }
  }

  /** Hoisting preserves meaning: every run enters the same blocks in the same order
      with the same side effects, and returns the same value. */
  lemma HoistingPreservesMeaning(f: Function, loop: Loop, ph: nat, inv: seq<Instr>)
    requires CanHoist(f, loop, ph, inv)
    ensures SameBehaviour(f, Hoisted(f, ph, inv))
  {
    forall m, l, k: nat
      ensures Observe(RunFor(f, m, Running(0, 0, l), k)) == Observe(RunFor(Hoisted(f, ph, inv), m, Running(0, 0, l), k))
    {
      RelatedRun(f, loop, ph, inv, m, l, k);
    }
  }
}
