/** Functions in static single assignment form and what running them means. */
module Ir {
  import opened Cfg

  /** An operand is a constant or a value: the result of an instruction, or, when no
      instruction has that id, a function argument. */
  datatype Operand = Const(value: int) | Ref(id: nat)

  /** `Pure` instructions (and safe binary operators) may be executed speculatively
      and read no memory; `Reads` have no side effect but must stay where they are;
      `Effect` covers side effects, landing pads and debug intrinsics. */
  datatype Kind = Phi(from: seq<nat>) | Binary(opcode: nat, safe: bool) | Pure | Reads | Effect | Term

  datatype Instr = Instr(id: nat, kind: Kind, ops: seq<Operand>) {

    predicate IsRoot() {
      kind.Effect? || kind.Term?
    }

    predicate IsSafe() {
      kind.Pure? || (kind.Binary? && kind.safe)
    }

    predicate Uses(d: nat) {
      Ref(d) in ops
    }
  }

  datatype Function = Function(graph: Graph, blocks: seq<seq<Instr>>)

  predicate At(f: Function, b: nat, i: nat) {
    b < |f.blocks| && i < |f.blocks[b]|
  }

  ghost predicate SameIdSamePlace(f: Function, b: nat, i: nat, c: nat, j: nat)
    requires At(f, b, i) && At(f, c, j)
  {
    f.blocks[b][i].id == f.blocks[c][j].id ==> b == c && i == j
  }

  ghost predicate UniqueIds(f: Function) {
    forall b: nat, i: nat, c: nat, j: nat :: At(f, b, i) && At(f, c, j) ==> SameIdSamePlace(f, b, i, c, j)
  }

  /** A block is a run of phis, then other instructions, then one terminator. */
  ghost predicate BlockShape(f: Function, b: nat)
    requires b < |f.blocks|
  {
    var s := f.blocks[b];
    && s != [] && s[|s| - 1].kind.Term?
    && (forall i :: 0 <= i < |s| - 1 ==> !s[i].kind.Term?)
    && (forall i, j :: 0 <= i < j < |s| && s[j].kind.Phi? ==> s[i].kind.Phi?)
    && (forall i :: 0 <= i < |s| && s[i].kind.Phi? ==> PhiShape(f, b, s[i]))
  }

  ghost predicate PhiShape(f: Function, b: nat, phi: Instr)
    requires phi.kind.Phi?
  {
    |phi.kind.from| == |phi.ops| && forall k :: 0 <= k < |phi.ops| ==> f.graph.Edge(phi.kind.from[k], b)
  }

  ghost predicate WellFormed(f: Function) {
    && f.graph.Valid() && |f.blocks| == |f.graph.succ|
    && UniqueIds(f)
    && (forall b: nat :: b < |f.blocks| ==> BlockShape(f, b))
  }

  /** The instruction at (b, i) uses the result of the instruction at (c, j). */
  ghost predicate IsUse(f: Function, b: nat, i: nat, c: nat, j: nat) {
    At(f, b, i) && At(f, c, j) && f.blocks[b][i].Uses(f.blocks[c][j].id)
  }

  /** The definition is executed before the use on every path; a phi uses its operand
      at the end of the block the operand comes from. */
  ghost predicate DefBeforeUse(f: Function, b: nat, i: nat, c: nat, j: nat)
    requires At(f, b, i) && At(f, c, j)
  {
    var use, def := f.blocks[b][i], f.blocks[c][j];
    if use.kind.Phi? then
      forall k :: 0 <= k < |use.ops| && k < |use.kind.from| && use.ops[k] == Ref(def.id) ==>
          Dom(f.graph, c, use.kind.from[k])
    else
      SDom(f.graph, c, b) || (c == b && j < i)
  }

  /** Strict SSA: in reachable code every definition comes before its uses, and
      terminators define no value. */
  ghost predicate StrictSsa(f: Function) {
    && (forall b: nat, i: nat, c: nat, j: nat :: IsUse(f, b, i, c, j) && Reachable(f.graph, b) ==>
          DefBeforeUse(f, b, i, c, j))
    && (forall b: nat, i: nat, c: nat, j: nat :: IsUse(f, b, i, c, j) ==> !f.blocks[c][j].kind.Term?)
  }

  ghost predicate DefinedIn(f: Function, d: nat, c: nat) {
    exists j: nat :: At(f, c, j) && f.blocks[c][j].id == d
  }

  ghost predicate IsInstr(f: Function, d: nat) {
    exists c: nat :: DefinedIn(f, d, c)
  }

  function Ids(s: seq<Instr>): set<nat> {
    set i | 0 <= i < |s| :: s[i].id
  }

  lemma IdsConcat(s: seq<Instr>, t: seq<Instr>)
    ensures Ids(s + t) == Ids(s) + Ids(t)
  {
    var r := s + t;
    forall d | d in Ids(s) + Ids(t)
      ensures d in Ids(r)
    {
      if d in Ids(s) {
        var i :| 0 <= i < |s| && s[i].id == d;
        assert r[i].id == d;
      } else {
        var i :| 0 <= i < |t| && t[i].id == d;
        assert r[|s| + i].id == d;
      }
    }
  }

  lemma IdsSnoc(s: seq<Instr>, t: Instr)
    ensures Ids(s + [t]) == Ids(s) + {t.id}
  {
    assert [t][0].id == t.id;
    IdsConcat(s, [t]);
  }

  /** `s` without the instructions whose ids are in `dead`. */
  function Without(s: seq<Instr>, dead: set<nat>): seq<Instr> {
    if s == [] then []
    else
      var rest := Without(s[..|s| - 1], dead);
      var last := s[|s| - 1];
      if last.id in dead then rest else rest + [last]
  }

  lemma {:induction false} WithoutMember(s: seq<Instr>, dead: set<nat>, x: Instr)
    ensures x in Without(s, dead) <==> x in s && x.id !in dead
  {
    if s != [] {
      WithoutMember(s[..|s| - 1], dead, x);
      assert s == s[..|s| - 1] + [s[|s| - 1]];
    }
  }

  lemma {:induction false} WithoutNothing(s: seq<Instr>, dead: set<nat>)
    requires forall i :: 0 <= i < |s| ==> s[i].id !in dead
    ensures Without(s, dead) == s
  {
    if s != [] {
      var front, last := s[..|s| - 1], s[|s| - 1];
      assert forall i :: 0 <= i < |front| ==> front[i] == s[i];
      WithoutNothing(front, dead);
      assert last.id !in dead && s == front + [last];
    }
  }

  lemma {:induction false} WithoutAppend(s: seq<Instr>, t: seq<Instr>, dead: set<nat>)
    ensures Without(s + t, dead) == Without(s, dead) + Without(t, dead)
  {
    if t == [] {
      assert s + t == s;
    } else {
      assert (s + t)[..|s + t| - 1] == s + t[..|t| - 1];
      WithoutAppend(s, t[..|t| - 1], dead);
    }
  }

  lemma {:induction false} WithoutTwice(s: seq<Instr>, dead1: set<nat>, dead2: set<nat>)
    ensures Without(Without(s, dead1), dead2) == Without(s, dead1 + dead2)
  {
    if s != [] {
      var front, last := s[..|s| - 1], s[|s| - 1];
      WithoutTwice(front, dead1, dead2);
      WithoutAppend(Without(front, dead1), [last], dead2);
    }
  }

  ghost predicate DistinctIds(s: seq<Instr>) {
    forall i, j :: 0 <= i < j < |s| ==> s[i].id != s[j].id
  }

  lemma BlockDistinct(f: Function, b: nat)
    requires UniqueIds(f) && b < |f.blocks|
    ensures DistinctIds(f.blocks[b])
  {
    forall i, j | 0 <= i < j < |f.blocks[b]|
      ensures f.blocks[b][i].id != f.blocks[b][j].id
    {
      assert SameIdSamePlace(f, b, i, b, j);
    }
  }

  /** Taking instructions out keeps the order of the others. */
  lemma {:induction false} WithoutOrder(s: seq<Instr>, dead: set<nat>, i: nat, j: nat) returns (x: nat, y: nat)
    requires i < j < |Without(s, dead)|
    ensures x < y < |s| && s[x] == Without(s, dead)[i] && s[y] == Without(s, dead)[j]
  {
    var front, last := s[..|s| - 1], s[|s| - 1];
    var rest := Without(front, dead);
    if j < |rest| {
      x, y := WithoutOrder(front, dead, i, j);
    } else {
      assert rest[i] in rest;
      WithoutMember(front, dead, rest[i]);
      x :| 0 <= x < |front| && front[x] == rest[i];
      y := |s| - 1;
    }
  }

  lemma WithoutDistinct(s: seq<Instr>, dead: set<nat>)
    requires DistinctIds(s)
    ensures DistinctIds(Without(s, dead))
  {
    var r := Without(s, dead);
    forall i, j | 0 <= i < j < |r|
      ensures r[i].id != r[j].id
    {
      var x, y := WithoutOrder(s, dead, i, j);
    }
  }

  /** Two kept instructions stay in the same order. */
  lemma WithoutKeepsOrder(s: seq<Instr>, dead: set<nat>, x: nat, y: nat, i: nat, j: nat)
    requires DistinctIds(s) && x < y < |s| && i < |Without(s, dead)| && j < |Without(s, dead)|
    requires Without(s, dead)[i] == s[x] && Without(s, dead)[j] == s[y]
    ensures i < j
  {
    if j < i {
      var u, v := WithoutOrder(s, dead, j, i);
    }
  }

  /** The code of a function, updated in place. */
  class Body {
    const graph: Graph
    var blocks: seq<seq<Instr>>

    constructor (f: Function)
      ensures graph == f.graph && blocks == f.blocks
    {
      graph := f.graph;
      blocks := f.blocks;
    }

    ghost function Fn(): Function
      reads this
    {
      Function(graph, blocks)
    }
  }

  // ----- Running a function -----

  type Env = map<nat, int>

  /** Everything outside the function: memory, and the side effects so far. */
  datatype World = World(memory: map<int, int>, trace: seq<int>)

  datatype Next = Jump(index: nat) | Return(value: int)

  /** What each instruction computes from its operand values, and from the world
      where its kind allows. */
  datatype Semantics = Semantics(
    eval: (nat, seq<int>) -> int,
    read: (nat, seq<int>, World) -> int,
    effect: (nat, seq<int>, World) -> (int, World),
    leave: (nat, seq<int>, World) -> (Next, World))

  datatype Local = Local(env: Env, world: World)

  /** Between blocks: about to enter `block`, coming from `prev`. */
  datatype State = Running(block: nat, prev: nat, local: Local) | Done(value: int, world: World) | Stuck

  function Lookup(env: Env, d: nat): int {
    if d in env then env[d] else 0
  }

  function Value(env: Env, op: Operand): int {
    if op.Const? then op.value else Lookup(env, op.id)
  }

  function Values(env: Env, ops: seq<Operand>): (vs: seq<int>)
    ensures |vs| == |ops| && forall k :: 0 <= k < |ops| ==> vs[k] == Value(env, ops[k])
  {
    seq(|ops|, k requires 0 <= k < |ops| => Value(env, ops[k]))
  }

  function Exec(m: Semantics, s: Instr, l: Local): Local {
    var args := Values(l.env, s.ops);
    if s.kind.Phi? || s.kind.Term? then l
    else if s.IsSafe() then Local(l.env[s.id := m.eval(s.id, args)], l.world)
    else if s.kind.Effect? then
      var (v, w) := m.effect(s.id, args, l.world);
      Local(l.env[s.id := v], w)
    else Local(l.env[s.id := m.read(s.id, args, l.world)], l.world)
  }

  function ExecAll(m: Semantics, s: seq<Instr>, l: Local): Local {
    if s == [] then l else Exec(m, s[|s| - 1], ExecAll(m, s[..|s| - 1], l))
  }

  /** The operand a phi takes when control comes from `prev`: the first entry, from
      position `k` on, that names `prev`. */
  function Incoming(from: seq<nat>, ops: seq<Operand>, prev: nat, k: nat): (op: Operand)
    ensures op == Const(0) || exists j :: 0 <= j < |ops| && j < |from| && from[j] == prev && ops[j] == op
    decreases |from| - k
  {
    if k >= |from| || k >= |ops| then Const(0)
    else if from[k] == prev then ops[k]
    else Incoming(from, ops, prev, k + 1)
  }

  /** All phis of a block take their values at once, from the environment `env` at the
      end of the previous block. */
  function PhiEnv(s: seq<Instr>, prev: nat, env: Env): Env {
    if s == [] then env
    else
      var front := PhiEnv(s[..|s| - 1], prev, env);
      var last := s[|s| - 1];
      if last.kind.Phi? then front[last.id := Value(env, Incoming(last.kind.from, last.ops, prev, 0))] else front
  }

  function RunBlock(m: Semantics, s: seq<Instr>, prev: nat, l: Local): Local {
    ExecAll(m, s, Local(PhiEnv(s, prev, l.env), l.world))
  }

  function Leave(g: Graph, m: Semantics, b: nat, t: Instr, l: Local): State {
    var (next, w) := m.leave(t.id, Values(l.env, t.ops), l.world);
    match next
    case Return(v) => Done(v, w)
    case Jump(k) =>
      if b < |g.succ| && k < |g.succ[b]| then Running(g.succ[b][k], b, Local(l.env, w)) else Stuck
  }

  function Step(f: Function, m: Semantics, s: State): State {
    if s.Running? && s.block < |f.blocks| && f.blocks[s.block] != [] then
      var code := f.blocks[s.block];
      Leave(f.graph, m, s.block, code[|code| - 1], RunBlock(m, code, s.prev, s.local))
    else s
  }

  function RunFor(f: Function, m: Semantics, s: State, k: nat): State {
    if k == 0 then s else Step(f, m, RunFor(f, m, s, k - 1))
  }

  /** What an observer sees: the blocks entered, the world, and the result. */
  datatype Observation = Entering(block: nat, prev: nat, world: World) | Finished(value: int, world: World) | Wedged

  function Observe(s: State): Observation {
    match s
    case Running(b, p, l) => Entering(b, p, l.world)
    case Done(v, w) => Finished(v, w)
    case Stuck => Wedged
  }

  /** After any number of blocks, from any arguments and world, both functions are
      about to enter the same block with the same effects, or have returned the same
      value. */
  ghost predicate SameBehaviour(f: Function, g: Function) {
    forall m, l, k: nat :: Observe(RunFor(f, m, Running(0, 0, l), k)) == Observe(RunFor(g, m, Running(0, 0, l), k))
  }

  // ----- Facts about execution -----

  lemma LeaveEdge(g: Graph, m: Semantics, b: nat, t: Instr, l: Local)
    ensures var s := Leave(g, m, b, t, l); s.Running? ==> g.Edge(b, s.block) && s.prev == b
  {
    var (next, w) := m.leave(t.id, Values(l.env, t.ops), l.world);
    if next.Jump? && b < |g.succ| && next.index < |g.succ[b]| {
      assert g.succ[b][next.index] in g.succ[b];
    }
  }

  /** Executing this instruction can change the world outside. */
  ghost predicate CanAct(s: Instr) {
    exists m, l :: Exec(m, s, l).world != l.world
  }

  /** The roots are the terminators and exactly those other instructions that can act on
      the world. */
  lemma RootsAct(s: Instr)
    ensures s.IsRoot() <==> s.kind.Term? || CanAct(s)
  {
    if s.kind.Effect? {
      var log := (id: nat, args: seq<int>, w: World) => (0, World(w.memory, w.trace + [id]));
      var m := Semantics((d, args) => 0, (d, args, w) => 0, log, (d, args, w) => (Return(0), w));
      var l := Local(map[], World(map[], []));
      assert Exec(m, s, l).world.trace == [s.id];
    }
  }

  /** Two environments agree on all values outside `ids`. */
  ghost predicate AgreeOff(ids: set<nat>, e: Env, e': Env) {
    forall d: nat :: d !in ids ==> Lookup(e, d) == Lookup(e', d)
  }

  lemma {:induction false} ExecAppend(m: Semantics, s: seq<Instr>, t: seq<Instr>, l: Local)
    ensures ExecAll(m, s + t, l) == ExecAll(m, t, ExecAll(m, s, l))
  {
    if t == [] {
      assert s + t == s;
    } else {
      assert (s + t)[..|s + t| - 1] == s + t[..|t| - 1];
      ExecAppend(m, s, t[..|t| - 1], l);
    }
  }

  /** Executing one more instruction, in the full block and in the block without `dead`. */
  lemma ExecOneMore(m: Semantics, s: seq<Instr>, i: nat, dead: set<nat>, l: Local, l': Local)
    requires i < |s|
    ensures ExecAll(m, s[..i + 1], l) == Exec(m, s[i], ExecAll(m, s[..i], l))
    ensures var before := ExecAll(m, Without(s[..i], dead), l');
            ExecAll(m, Without(s[..i + 1], dead), l') == if s[i].id in dead then before else Exec(m, s[i], before)
  {
    var t := s[..i + 1];
    assert t[..|t| - 1] == s[..i] && t[|t| - 1] == s[i];
    var kept := Without(s[..i], dead);
    var more := kept + [s[i]];
    assert more[..|more| - 1] == kept && more[|more| - 1] == s[i];
  }

  /** The value a phi takes when control comes from block `p`. */
  function Taken(phi: Instr, p: nat, env: Env): int
    requires phi.kind.Phi?
  {
    Value(env, Incoming(phi.kind.from, phi.ops, p, 0))
  }

  /** The phis that survive take the same values from both environments. */
  ghost predicate SurvivorsAgree(s: seq<Instr>, dead: set<nat>, p: nat, e: Env, e': Env) {
    forall i :: 0 <= i < |s| && s[i].kind.Phi? && s[i].id !in dead ==> Taken(s[i], p, e) == Taken(s[i], p, e')
  }

  /** Setting one more phi, in the full block and in the block without `dead`. */
  lemma PhiOneMore(s: seq<Instr>, i: nat, dead: set<nat>, p: nat, e: Env, e': Env)
    requires i < |s|
    ensures var before := PhiEnv(s[..i], p, e);
            PhiEnv(s[..i + 1], p, e) == if s[i].kind.Phi? then before[s[i].id := Taken(s[i], p, e)] else before
    ensures var before := PhiEnv(Without(s[..i], dead), p, e');
            PhiEnv(Without(s[..i + 1], dead), p, e') ==
            if s[i].kind.Phi? && s[i].id !in dead then before[s[i].id := Taken(s[i], p, e')] else before
  {
    var t := s[..i + 1];
    assert t[..|t| - 1] == s[..i] && t[|t| - 1] == s[i];
    var kept := Without(s[..i], dead);
    var more := kept + [s[i]];
    assert more[..|more| - 1] == kept && more[|more| - 1] == s[i];
  }

  lemma SetBoth(dead: set<nat>, e: Env, e': Env, d: nat, x: int)
    requires AgreeOff(dead, e, e')
    ensures AgreeOff(dead, e[d := x], e'[d := x])
    ensures d in dead ==> AgreeOff(dead, e[d := x], e')
  {
    var u, u' := e[d := x], e'[d := x];
    forall c: nat | c !in dead
      ensures Lookup(u, c) == Lookup(u', c)
      ensures d in dead ==> Lookup(u, c) == Lookup(e', c)
    {
      assert Lookup(e, c) == Lookup(e', c);
    }
  }

  /** Phis of a block with and without `dead`, when the operands that survive agree. */
  lemma {:induction false} PhisAgree(s: seq<Instr>, i: nat, dead: set<nat>, p: nat, e: Env, e': Env)
    requires AgreeOff(dead, e, e') && SurvivorsAgree(s, dead, p, e, e') && i <= |s|
    ensures AgreeOff(dead, PhiEnv(s[..i], p, e), PhiEnv(Without(s[..i], dead), p, e'))
  {
    if i > 0 {
      PhisAgree(s, i - 1, dead, p, e, e');
      PhiOneMore(s, i - 1, dead, p, e, e');
      if s[i - 1].kind.Phi? {
        SetBoth(dead, PhiEnv(s[..i - 1], p, e), PhiEnv(Without(s[..i - 1], dead), p, e'), s[i - 1].id,
            Taken(s[i - 1], p, e));
      }
    }
  }

  lemma {:induction false} PhiEnvAppend(s: seq<Instr>, t: seq<Instr>, prev: nat, env: Env)
    requires forall i :: 0 <= i < |t| ==> !t[i].kind.Phi?
    ensures PhiEnv(s + t, prev, env) == PhiEnv(s, prev, env)
  {
    if t == [] {
      assert s + t == s;
    } else {
      assert (s + t)[..|s + t| - 1] == s + t[..|t| - 1];
      PhiEnvAppend(s, t[..|t| - 1], prev, env);
    }
  }

  lemma {:induction false} PhiEnvFrame(s: seq<Instr>, prev: nat, env: Env, d: nat)
    requires forall i :: 0 <= i < |s| && s[i].kind.Phi? ==> s[i].id != d
    ensures Lookup(PhiEnv(s, prev, env), d) == Lookup(env, d)
  {
    if s != [] {
      PhiEnvFrame(s[..|s| - 1], prev, env, d);
    }
  }

  lemma SameValues(e1: Env, e2: Env, ops: seq<Operand>)
    requires forall d: nat :: Ref(d) in ops ==> Lookup(e1, d) == Lookup(e2, d)
    ensures Values(e1, ops) == Values(e2, ops)
  {
    forall k | 0 <= k < |ops|
      ensures Value(e1, ops[k]) == Value(e2, ops[k])
    {
      if ops[k].Ref? {
        assert Ref(ops[k].id) in ops;
      }
    }
  }
}
