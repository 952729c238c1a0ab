/** Strong liveness: which instructions dead code elimination must keep. */
module Dce {
  import opened Cfg
  import opened DataFlow
  import opened Ir
  import opened PhiVals

  function AllIds(f: Function): (ids: set<nat>)
    ensures forall b: nat, i: nat :: At(f, b, i) ==> f.blocks[b][i].id in ids
    ensures forall d: nat :: d in ids ==> IsInstr(f, d)
  {
    var ids := set b, i | 0 <= b < |f.blocks| && 0 <= i < |f.blocks[b]| :: f.blocks[b][i].id;
    assert forall d: nat :: d in ids ==> IsInstr(f, d) by {
      forall d: nat | d in ids
        ensures IsInstr(f, d)
      {
        var b, i :| 0 <= b < |f.blocks| && 0 <= i < |f.blocks[b]| && f.blocks[b][i].id == d;
        assert At(f, b, i);
        assert DefinedIn(f, d, b);
      }
    }
    ids
  }

  // ----- The transfer function -----

  function RootIds(s: seq<Instr>): set<nat> {
    set i | 0 <= i < |s| && s[i].IsRoot() :: s[i].id
  }

  /** The operands of `s` that are instructions. */
  function OpIds(s: Instr, known: set<nat>): set<nat> {
    set k | 0 <= k < |s.ops| && s.ops[k].Ref? && s.ops[k].id in known :: s.ops[k].id
  }

  /** The live set after looking at the instructions from last to first: a live
      instruction other than a phi makes its operands live. */
  function MarkBack(s: seq<Instr>, live: set<nat>, known: set<nat>): set<nat> {
    if s == [] then live
    else
      var last := s[|s| - 1];
      MarkBack(s[..|s| - 1], if last.id in live && !last.kind.Phi? then live + OpIds(last, known) else live, known)
  }

  function LiveIn(s: seq<Instr>, input: set<nat>, known: set<nat>): set<nat> {
    MarkBack(s, input + RootIds(s), known)
  }

  function BlockTransfer(s: seq<Instr>, input: set<nat>, known: set<nat>): TransferOutput {
    var live := LiveIn(s, input, known);
    TransferOutput(live, NeighborVals(s, live, known))
  }

  function DceTransfer(f: Function, input: set<nat>, b: nat): TransferOutput {
    if b < |f.blocks| then BlockTransfer(f.blocks[b], input, AllIds(f)) else TransferOutput(input, map[])
  }

  function DceProblem(f: Function): Problem {
    Problem(f.graph, Backward, Union, (x: set<nat>, b: nat) => DceTransfer(f, x, b), AllIds(f))
  }

  // ----- Properties of the marking -----

  lemma {:induction false} MarkGrows(s: seq<Instr>, live: set<nat>, known: set<nat>)
    ensures live <= MarkBack(s, live, known)
  {
    if s != [] {
      var last := s[|s| - 1];
      MarkGrows(s[..|s| - 1], if last.id in live && !last.kind.Phi? then live + OpIds(last, known) else live, known);
    }
  }

  lemma {:induction false} MarkMono(s: seq<Instr>, x: set<nat>, y: set<nat>, known: set<nat>)
    requires x <= y
    ensures MarkBack(s, x, known) <= MarkBack(s, y, known)
  {
    if s != [] {
      var last := s[|s| - 1];
      var x1 := if last.id in x && !last.kind.Phi? then x + OpIds(last, known) else x;
      var y1 := if last.id in y && !last.kind.Phi? then y + OpIds(last, known) else y;
      MarkMono(s[..|s| - 1], x1, y1, known);
    }
  }

  /** Marking stays inside any set that already contains the operands of its members. */
  lemma {:induction false} MarkWithin(s: seq<Instr>, live: set<nat>, known: set<nat>, all: set<nat>)
    requires live <= all
    requires forall i :: 0 <= i < |s| && s[i].id in all && !s[i].kind.Phi? ==> OpIds(s[i], known) <= all
    ensures MarkBack(s, live, known) <= all
  {
    if s != [] {
      var front, last := s[..|s| - 1], s[|s| - 1];
      assert forall i :: 0 <= i < |front| ==> front[i] == s[i];
      MarkWithin(front, if last.id in live && !last.kind.Phi? then live + OpIds(last, known) else live, known, all);
    }
  }

  /** What marking adds is used by some instruction it has looked at. */
  lemma {:induction false} MarkAdds(s: seq<Instr>, live: set<nat>, known: set<nat>, d: nat)
    requires d in MarkBack(s, live, known) && d !in live
    ensures exists i :: 0 <= i < |s| && !s[i].kind.Phi? && s[i].Uses(d)
  {
    var front, last := s[..|s| - 1], s[|s| - 1];
    var live1 := if last.id in live && !last.kind.Phi? then live + OpIds(last, known) else live;
    if d in live1 {
      assert last.Uses(d);
    } else {
      MarkAdds(front, live1, known, d);
      var i :| 0 <= i < |front| && !front[i].kind.Phi? && front[i].Uses(d);
      assert s[i] == front[i];
    }
  }

  /** No instruction other than a phi uses itself or a later one of the block. */
  ghost predicate UsesBackwards(s: seq<Instr>) {
    forall j, i :: 0 <= j <= i < |s| && !s[j].kind.Phi? ==> !s[j].Uses(s[i].id)
  }

  /** Everything a live instruction uses, other than a phi, is live. */
  lemma {:induction false} MarkClosed(s: seq<Instr>, live: set<nat>, known: set<nat>, i: nat)
    requires UsesBackwards(s) && i < |s| && !s[i].kind.Phi? && s[i].id in MarkBack(s, live, known)
    ensures OpIds(s[i], known) <= MarkBack(s, live, known)
  {
    var front, last := s[..|s| - 1], s[|s| - 1];
    var live1 := if last.id in live && !last.kind.Phi? then live + OpIds(last, known) else live;
    if i < |s| - 1 {
      assert front[i] == s[i];
      assert UsesBackwards(front);
      MarkClosed(front, live1, known, i);
    } else {
      if last.id !in live1 {
        MarkAdds(front, live1, known, last.id);
      }
      assert last.id in live1;
      assert !last.Uses(last.id);
      assert last.id in live;
      MarkGrows(front, live1, known);
    }
  }

  // ----- The transfer function as two loops over the block -----

  ghost predicate PhisFirst(s: seq<Instr>) {
    && (forall i, j :: 0 <= i < j < |s| && s[j].kind.Phi? ==> s[i].kind.Phi?)
    && (forall i :: 0 <= i < |s| && s[i].kind.Phi? ==> |s[i].kind.from| == |s[i].ops|)
  }

  method MarkRoots(s: seq<Instr>, input: set<nat>) returns (use: set<nat>)
    ensures use == input + RootIds(s)
  {
    use := input;
    for i := 0 to |s|
      invariant use == input + RootIds(s[..i])
    {
      if s[i].IsRoot() {
        use := use + {s[i].id};
      }
      assert forall d :: d in RootIds(s[..i + 1]) <==> d in RootIds(s[..i]) || (s[i].IsRoot() && d == s[i].id) by {
        RootsSnoc(s, i);
      }
    }
    assert s[..|s|] == s;
  }

  lemma RootsSnoc(s: seq<Instr>, i: nat)
    requires i < |s|
    ensures RootIds(s[..i + 1]) == RootIds(s[..i]) + if s[i].IsRoot() then {s[i].id} else {}
  {
    var a, b := s[..i], s[..i + 1];
    assert b == a + [s[i]];
    forall d | d in RootIds(a)
      ensures d in RootIds(b)
    {
      var k :| 0 <= k < |a| && a[k].IsRoot() && a[k].id == d;
      assert b[k] == a[k];
    }
    assert b[i] == s[i];
    assert s[i].IsRoot() ==> b[i].id in RootIds(b);
  }

  method MarkOperands(s: Instr, use: set<nat>, known: set<nat>) returns (r: set<nat>)
    ensures r == use + OpIds(s, known)
  {
    r := use;
    for k := 0 to |s.ops|
      invariant use <= r <= use + OpIds(s, known)
      invariant forall x :: 0 <= x < k && s.ops[x].Ref? && s.ops[x].id in known ==> s.ops[x].id in r
    {
      if s.ops[k].Ref? && s.ops[k].id in known {
        r := r + {s.ops[k].id};
      }
    }
  }

  /** One step of the backward loop. */
  method MarkInstr(s: seq<Instr>, i: nat, use: set<nat>, vals: map<nat, set<nat>>, known: set<nat>)
    returns (use': set<nat>, vals': map<nat, set<nat>>)
    requires PhisFirst(s) && i < |s| && vals == NeighborVals(s[i + 1..], use, known)
    ensures use <= use' && MarkBack(s[..i], use', known) == MarkBack(s[..i + 1], use, known)
    ensures vals' == NeighborVals(s[i..], use', known)
  {
    use', vals' := use, vals;
    assert s[..i + 1][..i] == s[..i];
    assert s[i..] == [s[i]] + s[i + 1..];
    NeighborValsWithOne(s[i..], s[i], s[i + 1..], use, known);
    if s[i].id in use {
      if s[i].kind.Phi? {
        vals' := MarkPhi(s[i], vals, known);
      } else {
        NoPhisNoVals(s[i + 1..], use, known);
        use' := MarkOperands(s[i], use, known);
        NoPhisNoVals(s[i..], use', known);
      }
    }
  }

  /** The transfer function of the pass. */
  method TransferFn(s: seq<Instr>, input: set<nat>, known: set<nat>) returns (t: TransferOutput)
    requires PhisFirst(s) && input <= known
    ensures t == BlockTransfer(s, input, known)
  {
    var use := MarkRoots(s, input);
    var defs, vals := {}, map[];
    var i := |s|;
    assert s[..i] == s;
    while i > 0
      invariant 0 <= i <= |s|
      invariant input <= use && MarkBack(s[..i], use, known) == LiveIn(s, input, known)
      invariant vals == NeighborVals(s[i..], use, known)
      decreases i
    {
      i := i - 1;
      if s[i].id in use {
        defs := defs + {s[i].id};
      }
      use, vals := MarkInstr(s, i, use, vals, known);
    }
    assert s[..0] == [] && s[0..] == s;
    var element := (known - defs) * input + use;
    assert element == use;
    t := TransferOutput(element, vals);
  }

  // ----- The analysis is well behaved -----

  lemma EdgeMono(s: TransferOutput, t: TransferOutput)
    requires s.element <= t.element && s.neighborVals.Keys <= t.neighborVals.Keys
    requires forall p :: p in s.neighborVals ==> s.neighborVals[p] <= t.neighborVals[p]
    ensures Grows(Union, s, t)
  {
  }

  lemma TransferWithin(f: Function, x: set<nat>, b: nat)
    requires WellFormed(f) && x <= AllIds(f)
    ensures Within(DceProblem(f), DceTransfer(f, x, b))
  {
    if b < |f.blocks| {
      var s, known := f.blocks[b], AllIds(f);
      assert forall i: nat :: i < |s| ==> At(f, b, i);
      MarkWithin(s, x + RootIds(s), known, known);
      PhiSourcesAreBlocks(f, b);
    }
  }

  lemma DceWellBehaved(f: Function)
    requires WellFormed(f)
    ensures WellBehaved(DceProblem(f))
  {
    var p := DceProblem(f);
    forall x, b: nat | x <= p.domain
      ensures Within(p, p.transfer(x, b))
    {
      TransferWithin(f, x, b);
    }
    forall x, y, b: nat | x <= p.domain && y <= p.domain && Le(p.meet, x, y)
      ensures Grows(p.meet, p.transfer(x, b), p.transfer(y, b))
    {
      if b < |f.blocks| {
        var s, known := f.blocks[b], AllIds(f);
        MarkMono(s, x + RootIds(s), y + RootIds(s), known);
        NeighborValsMono(s, LiveIn(s, x, known), LiveIn(s, y, known), known);
        EdgeMono(p.transfer(x, b), p.transfer(y, b));
      } else {
        EdgeMono(p.transfer(x, b), p.transfer(y, b));
      }
    }
    // The neighbour values are a function of the output set.
    forall x, y, b: nat | x <= p.domain && y <= p.domain
      ensures Determined(p.transfer(x, b), p.transfer(y, b))
    {
    }
  }

  // ----- What must be kept -----

  /** A set that contains the roots and the operands of its members. */
  ghost predicate NeedClosed(f: Function, kept: set<nat>) {
    && (forall b: nat, i: nat :: At(f, b, i) && f.blocks[b][i].IsRoot() ==> f.blocks[b][i].id in kept)
    && (forall b: nat, i: nat, c: nat, j: nat :: IsUse(f, b, i, c, j) && f.blocks[b][i].id in kept ==>
          f.blocks[c][j].id in kept)
  }

  /** `d` belongs to the least such set. */
  ghost predicate Needed(f: Function, d: nat) {
    forall kept: set<nat> :: NeedClosed(f, kept) ==> d in kept
  }

  // ----- Nothing unneeded is marked -----

  /** A closed set, offered at every block, satisfies the equations as inequalities. */
  ghost function ConstantResults(f: Function, kept: set<nat>): (s: map<nat, BlockResult>)
    ensures DceProblem(f).Covers(s)
  {
    map b | b in f.graph.Blocks() ::
      BlockResult(kept, if f.graph.succ[b] == [] then {} else kept,
                  TransferOutput(kept, if b < |f.blocks| then NeighborVals(f.blocks[b], kept, AllIds(f)) else map[]))
  }

  lemma OpsKept(f: Function, kept: set<nat>, b: nat, i: nat)
    requires NeedClosed(f, kept) && At(f, b, i) && f.blocks[b][i].id in kept
    ensures OpIds(f.blocks[b][i], AllIds(f)) <= kept
  {
    forall d | d in OpIds(f.blocks[b][i], AllIds(f))
      ensures d in kept
    {
      assert IsInstr(f, d);
      var c: nat :| DefinedIn(f, d, c);
      var j: nat :| At(f, c, j) && f.blocks[c][j].id == d;
      assert f.blocks[b][i].Uses(d);
      assert IsUse(f, b, i, c, j);
    }
  }

  lemma LiveKept(f: Function, kept: set<nat>, x: set<nat>, b: nat)
    requires NeedClosed(f, kept) && x <= kept && b < |f.blocks|
    ensures LiveIn(f.blocks[b], x, AllIds(f)) <= kept
  {
    var s := f.blocks[b];
    forall i: nat | i < |s|
      ensures s[i].IsRoot() ==> s[i].id in kept
      ensures s[i].id in kept && !s[i].kind.Phi? ==> OpIds(s[i], AllIds(f)) <= kept
    {
      assert At(f, b, i);
      if s[i].id in kept {
        OpsKept(f, kept, b, i);
      }
    }
    MarkWithin(s, x + RootIds(s), AllIds(f), kept);
  }

  lemma TakenKept(f: Function, kept: set<nat>, b: nat, p: nat)
    requires NeedClosed(f, kept) && b < |f.blocks|
    ensures TakenFrom(f.blocks[b], kept, AllIds(f), p) <= kept
  {
    var s := f.blocks[b];
    forall d | d in TakenFrom(s, kept, AllIds(f), p)
      ensures d in kept
    {
      var i :| 0 <= i < |s| && s[i].id in kept && PhiTakes(s[i], AllIds(f), p, d);
      OpsKept(f, kept, b, i);
      assert d in OpIds(s[i], AllIds(f));
    }
  }

  lemma ConstantEdges(f: Function, kept: set<nat>, b: nat, c: nat)
    requires WellFormed(f) && NeedClosed(f, kept) && b < |f.blocks|
    ensures EdgeValue(ConstantResults(f, kept)[b].transferOutput, c) == kept
  {
    TakenKept(f, kept, b, c);
  }

  lemma ConstantInput(f: Function, kept: set<nat>, b: nat)
    requires WellFormed(f) && NeedClosed(f, kept) && b < |f.blocks|
    ensures NewInput(DceProblem(f), ConstantResults(f, kept), b) <= kept
  {
    var p, s := DceProblem(f), ConstantResults(f, kept);
    var ms, ns := MeetInputs(p, s, b), p.Neighbors(b);
    NeighborsAreBlocks(p, b);
    forall i | 0 <= i < |ms|
      ensures ms[i] <= kept
    {
      ConstantEdges(f, kept, ns[i], b);
    }
    MeetWithin(Union, ms, kept);
  }

  lemma ConstantStep(f: Function, kept: set<nat>, b: nat)
    requires WellFormed(f) && NeedClosed(f, kept) && kept <= AllIds(f) && b < |f.blocks|
    ensures var p, s := DceProblem(f), ConstantResults(f, kept);
            TLe(Union, Visited(p, s, b).transferOutput, s[b].transferOutput)
  {
    var p, s := DceProblem(f), ConstantResults(f, kept);
    ConstantInput(f, kept, b);
    var x := NewInput(p, s, b);
    LiveKept(f, kept, x, b);
    NeighborValsMono(f.blocks[b], LiveIn(f.blocks[b], x, AllIds(f)), kept, AllIds(f));
    EdgeMono(Visited(p, s, b).transferOutput, s[b].transferOutput);
  }

  lemma ConstantWithin(f: Function, kept: set<nat>)
    requires WellFormed(f) && NeedClosed(f, kept) && kept <= AllIds(f)
    ensures AllWithin(DceProblem(f), ConstantResults(f, kept))
  {
    var p, s := DceProblem(f), ConstantResults(f, kept);
    forall b: nat | b < |f.blocks|
      ensures Within(p, s[b].transferOutput)
    {
      PhiSourcesAreBlocks(f, b);
      forall c: nat
        ensures EdgeValue(s[b].transferOutput, c) <= p.domain
      {
        ConstantEdges(f, kept, b, c);
      }
    }
  }

  lemma ConstantIsPostSolution(f: Function, kept: set<nat>, order: seq<nat>, exits: set<nat>)
    requires WellFormed(f) && NeedClosed(f, kept) && kept <= AllIds(f)
    ensures PostSolution(DceProblem(f), order, Start(DceProblem(f), exits, {}, {}, {}), ConstantResults(f, kept))
  {
    var p, s := DceProblem(f), ConstantResults(f, kept);
    var start := Start(p, exits, {}, {}, {});
    ConstantWithin(f, kept);
    forall b: nat | b < |f.blocks|
      ensures TLe(Union, Visited(p, s, b).transferOutput, s[b].transferOutput)
      ensures TLe(Union, start[b].transferOutput, s[b].transferOutput)
      ensures p.Neighbors(b) == [] ==> p.Input(s[b]) == p.Input(start[b])
    {
      ConstantStep(f, kept, b);
    }
  }

  /** Every set the solver reports lies inside every closed set. */
  lemma MarkedIsNeeded(f: Function, exits: set<nat>, res: map<nat, BlockResult>, b: nat, d: nat)
    requires WellFormed(f) && Solved(DceProblem(f), exits, {}, res) && b < |f.blocks| && d in res[b].inSet
    ensures Needed(f, d)
  {
    var p := DceProblem(f);
    var order :| IsOrder(p, order) && SolvedIn(p, order, exits, {}, res);
    SolvedSound(p, exits, {}, res, b);
    forall kept: set<nat> | NeedClosed(f, kept)
      ensures d in kept
    {
      var inner := kept * AllIds(f);
      assert NeedClosed(f, inner);
      ConstantIsPostSolution(f, inner, order, exits);
      assert Below(p, res, ConstantResults(f, inner));
      assert TLe(Union, res[b].transferOutput, ConstantResults(f, inner)[b].transferOutput);
    }
  }

  // ----- Everything needed is marked -----

  /** Strong liveness is never killed: it flows back along every walk. */
  lemma {:induction false} FlowsBack(f: Function, exits: set<nat>, res: map<nat, BlockResult>, w: seq<nat>, a: nat,
                                     b: nat, d: nat)
    requires WellFormed(f) && Solved(DceProblem(f), exits, {}, res)
    requires IsWalk(f.graph, w, a, b) && Reachable(f.graph, a) && b < |f.blocks| && d in res[b].inSet
    ensures a < |f.blocks| && d in res[a].inSet
    decreases |w|
  {
    ReachableIsBlock(f.graph, a);
    if |w| > 1 {
      var c := w[1];
      assert f.graph.Edge(w[0], c);
      ReachableStep(f.graph, a, c);
      WalkSuffix(f.graph, w, a, b, 1);
      FlowsBack(f, exits, res, w[1..], c, b, d);
      OfferedIsMarked(f, exits, res, a, c, d);
    }
  }

  /** What a successor offers on an edge is marked before the edge. */
  lemma OfferedIsMarked(f: Function, exits: set<nat>, res: map<nat, BlockResult>, a: nat, c: nat, d: nat)
    requires WellFormed(f) && Solved(DceProblem(f), exits, {}, res) && Reachable(f.graph, a) && f.graph.Edge(a, c)
    requires d in EdgeValue(res[c].transferOutput, a) || d in res[c].inSet
    ensures a < |f.blocks| && d in res[a].inSet
  {
    var p := DceProblem(f);
    SolvedAt(p, exits, {}, res, a);
    ReachableStep(f.graph, a, c);
    SolvedAt(p, exits, {}, res, c);
    assert d in EdgeValue(res[c].transferOutput, a);
    var ns, ms := p.Neighbors(a), MeetInputs(p, res, a);
    NeighborsAreBlocks(p, a);
    var i :| 0 <= i < |ns| && ns[i] == c;
    assert d in ms[i];
    MarkGrows(f.blocks[a], res[a].outSet + RootIds(f.blocks[a]), AllIds(f));
  }

  lemma BlockUsesBackwards(f: Function, b: nat)
    requires WellFormed(f) && StrictSsa(f) && b < |f.blocks| && Reachable(f.graph, b)
    ensures UsesBackwards(f.blocks[b])
  {
    var s := f.blocks[b];
    forall j, i | 0 <= j <= i < |s| && !s[j].kind.Phi?
      ensures !s[j].Uses(s[i].id)
    {
      if s[j].Uses(s[i].id) {
        assert IsUse(f, b, j, b, i);
      }
    }
  }

  ghost predicate MarkedAtHome(f: Function, res: map<nat, BlockResult>, c: nat, j: nat)
    requires At(f, c, j) && c in res
  {
    f.blocks[c][j].id in res[c].inSet
  }

  /** A marked phi offers its operand on the edge the operand comes from. */
  lemma PhiOffers(s: seq<Instr>, live: set<nat>, known: set<nat>, i: nat, k: nat, d: nat)
    requires i < |s| && s[i].kind.Phi? && s[i].id in live && d in known
    requires k < |s[i].ops| && k < |s[i].kind.from| && s[i].ops[k] == Ref(d)
    ensures d in EdgeValue(TransferOutput(live, NeighborVals(s, live, known)), s[i].kind.from[k])
  {
    var from := s[i].kind.from[k];
    assert PhiTakes(s[i], known, from, d);
    assert d in TakenFrom(s, live, known, from) && from in PhiSources(s);
  }

  lemma PhiUseIsMarked(f: Function, exits: set<nat>, res: map<nat, BlockResult>, b: nat, i: nat, c: nat, j: nat, k: nat)
    requires WellFormed(f) && AllReachable(f.graph) && Solved(DceProblem(f), exits, {}, res)
    requires At(f, b, i) && At(f, c, j) && MarkedAtHome(f, res, b, i) && f.blocks[b][i].kind.Phi?
    requires k < |f.blocks[b][i].ops| && f.blocks[b][i].ops[k] == Ref(f.blocks[c][j].id)
    requires k < |f.blocks[b][i].kind.from| && f.graph.Edge(f.blocks[b][i].kind.from[k], b)
    requires Dom(f.graph, c, f.blocks[b][i].kind.from[k])
    ensures MarkedAtHome(f, res, c, j)
  {
    var s, d := f.blocks[b][i], f.blocks[c][j].id;
    var from := s.kind.from[k];
    assert b in f.graph.Blocks() && from in f.graph.Blocks();
    SolvedAt(DceProblem(f), exits, {}, res, b);
    PhiOffers(f.blocks[b], res[b].inSet, AllIds(f), i, k, d);
    OfferedIsMarked(f, exits, res, from, b, d);
    WalkFromDominator(f, exits, res, c, from, d);
  }

  lemma PlainUseIsMarked(f: Function, exits: set<nat>, res: map<nat, BlockResult>, b: nat, i: nat, c: nat, j: nat)
    requires WellFormed(f) && StrictSsa(f) && AllReachable(f.graph) && Solved(DceProblem(f), exits, {}, res)
    requires IsUse(f, b, i, c, j) && MarkedAtHome(f, res, b, i) && !f.blocks[b][i].kind.Phi? && Dom(f.graph, c, b)
    ensures MarkedAtHome(f, res, c, j)
  {
    var s, d := f.blocks[b][i], f.blocks[c][j].id;
    assert b in f.graph.Blocks();
    SolvedAt(DceProblem(f), exits, {}, res, b);
    BlockUsesBackwards(f, b);
    MarkClosed(f.blocks[b], res[b].outSet + RootIds(f.blocks[b]), AllIds(f), i);
    assert d in OpIds(s, AllIds(f));
    WalkFromDominator(f, exits, res, c, b, d);
  }

  lemma UseIsMarked(f: Function, exits: set<nat>, res: map<nat, BlockResult>, b: nat, i: nat, c: nat, j: nat)
    requires WellFormed(f) && StrictSsa(f) && AllReachable(f.graph) && Solved(DceProblem(f), exits, {}, res)
    requires IsUse(f, b, i, c, j) && MarkedAtHome(f, res, b, i)
    ensures MarkedAtHome(f, res, c, j)
  {
    var s, d := f.blocks[b][i], f.blocks[c][j].id;
    assert b in f.graph.Blocks();
    assert DefBeforeUse(f, b, i, c, j);
    if s.kind.Phi? {
      var k :| 0 <= k < |s.ops| && s.ops[k] == Ref(d);
      assert BlockShape(f, b) && PhiShape(f, b, s);
      PhiUseIsMarked(f, exits, res, b, i, c, j, k);
    } else {
      DomRefl(f.graph, b);
      PlainUseIsMarked(f, exits, res, b, i, c, j);
    }
  }

  lemma WalkFromDominator(f: Function, exits: set<nat>, res: map<nat, BlockResult>, c: nat, b: nat, d: nat)
    requires WellFormed(f) && Solved(DceProblem(f), exits, {}, res)
    requires Dom(f.graph, c, b) && Reachable(f.graph, b) && b < |f.blocks| && d in res[b].inSet
    ensures c < |f.blocks| && d in res[c].inSet
  {
    var q :| IsPath(f.graph, q, b);
    assert c in q;
    var i :| 0 <= i < |q| && q[i] == c;
    DominatorReachable(f.graph, c, b);
    ReachableIsBlock(f.graph, c);
    WalkSuffix(f.graph, q, 0, b, i);
    FlowsBack(f, exits, res, q[i..], c, b, d);
  }

  lemma RootIsMarked(f: Function, exits: set<nat>, res: map<nat, BlockResult>, b: nat, i: nat)
    requires WellFormed(f) && Solved(DceProblem(f), exits, {}, res)
    requires At(f, b, i) && Reachable(f.graph, b) && f.blocks[b][i].IsRoot()
    ensures b in res && MarkedAtHome(f, res, b, i)
  {
    SolvedAt(DceProblem(f), exits, {}, res, b);
    var s := f.blocks[b];
    assert s[i].id in RootIds(s);
    MarkGrows(s, res[b].outSet + RootIds(s), AllIds(f));
  }

  ghost function MarkedIds(f: Function, res: map<nat, BlockResult>): (ids: set<nat>)
    requires forall b: nat :: b < |f.blocks| ==> b in res
    ensures forall b: nat, i: nat :: At(f, b, i) && MarkedAtHome(f, res, b, i) ==> f.blocks[b][i].id in ids
    ensures forall d: nat :: d in ids ==>
            exists b: nat, i: nat :: At(f, b, i) && f.blocks[b][i].id == d && MarkedAtHome(f, res, b, i)
  {
    var ids := set b, i | 0 <= b < |f.blocks| && 0 <= i < |f.blocks[b]| && f.blocks[b][i].id in res[b].inSet ::
        f.blocks[b][i].id;
    assert forall d: nat :: d in ids ==>
        exists b: nat, i: nat :: At(f, b, i) && f.blocks[b][i].id == d && MarkedAtHome(f, res, b, i) by {
      forall d: nat | d in ids
        ensures exists b: nat, i: nat :: At(f, b, i) && f.blocks[b][i].id == d && MarkedAtHome(f, res, b, i)
      {
        var b, i :| 0 <= b < |f.blocks| && 0 <= i < |f.blocks[b]| && f.blocks[b][i].id in res[b].inSet &&
            f.blocks[b][i].id == d;
        assert At(f, b, i) && MarkedAtHome(f, res, b, i);
      }
    }
    ids
  }

  lemma MarkedIsClosed(f: Function, exits: set<nat>, res: map<nat, BlockResult>)
    requires WellFormed(f) && StrictSsa(f) && AllReachable(f.graph) && Solved(DceProblem(f), exits, {}, res)
    ensures NeedClosed(f, MarkedIds(f, res))
  {
    forall b: nat, i: nat | At(f, b, i) && f.blocks[b][i].IsRoot()
      ensures f.blocks[b][i].id in MarkedIds(f, res)
    {
      assert b in f.graph.Blocks();
      RootIsMarked(f, exits, res, b, i);
    }
    forall b: nat, i: nat, c: nat, j: nat | IsUse(f, b, i, c, j) && f.blocks[b][i].id in MarkedIds(f, res)
      ensures f.blocks[c][j].id in MarkedIds(f, res)
    {
      var b1: nat, i1: nat :| At(f, b1, i1) && f.blocks[b1][i1].id == f.blocks[b][i].id && MarkedAtHome(f, res, b1, i1);
      assert SameIdSamePlace(f, b, i, b1, i1);
      UseIsMarked(f, exits, res, b, i, c, j);
    }
  }

  /** The data-flow analysis computes the least closed set: an instruction is in the IN
      set of its own block exactly when it is needed. */
  lemma DceExact(f: Function, exits: set<nat>, res: map<nat, BlockResult>, b: nat, i: nat)
    requires WellFormed(f) && StrictSsa(f) && AllReachable(f.graph) && Solved(DceProblem(f), exits, {}, res)
    requires At(f, b, i)
    ensures b in res && (f.blocks[b][i].id in res[b].inSet <==> Needed(f, f.blocks[b][i].id))
  {
    var d := f.blocks[b][i].id;
    if d in res[b].inSet {
      MarkedIsNeeded(f, exits, res, b, d);
    }
    if Needed(f, d) {
      MarkedIsClosed(f, exits, res);
      assert d in MarkedIds(f, res);
      var b1: nat, i1: nat :| At(f, b1, i1) && f.blocks[b1][i1].id == d && MarkedAtHome(f, res, b1, i1);
      assert SameIdSamePlace(f, b, i, b1, i1);
    }
  }

  /** Strong liveness of a whole function. */
  method StrongLiveness(f: Function, order: seq<nat>, exits: set<nat>) returns (res: map<nat, BlockResult>)
    requires WellFormed(f) && IsOrder(DceProblem(f), order)
    ensures forall b: nat, i: nat :: At(f, b, i) ==>
              b in res && (f.blocks[b][i].id in res[b].inSet ==> Needed(f, f.blocks[b][i].id))
    ensures StrictSsa(f) && AllReachable(f.graph) ==>
              forall b: nat, i: nat :: At(f, b, i) ==>
                b in res && (f.blocks[b][i].id in res[b].inSet <==> Needed(f, f.blocks[b][i].id))
  {
    DceWellBehaved(f);
    res := Run(DceProblem(f), order, exits, {}, {});
    forall b: nat, i: nat | At(f, b, i) && f.blocks[b][i].id in res[b].inSet
      ensures Needed(f, f.blocks[b][i].id)
    {
      MarkedIsNeeded(f, exits, res, b, f.blocks[b][i].id);
    }
    if StrictSsa(f) && AllReachable(f.graph) {
      forall b: nat, i: nat | At(f, b, i)
        ensures b in res && (f.blocks[b][i].id in res[b].inSet <==> Needed(f, f.blocks[b][i].id))
      {
        DceExact(f, exits, res, b, i);
      }
    }
  }
}
