/** The iterative data-flow solver shared by all analyses.  Bit vectors are modelled
    as sets of bit indices: a vector shorter than the domain reads as zeros. */
module DataFlow {
  import opened Cfg

  datatype Direction = Forward | Backward

  datatype MeetOp = Union | Intersection

  /** What a transfer function returns: the set for the other end of the block, and
      extra values that only particular neighbours see (phi operands). */
  datatype TransferOutput = TransferOutput(element: set<nat>, neighborVals: map<nat, set<nat>>)

  datatype BlockResult = BlockResult(inSet: set<nat>, outSet: set<nat>, transferOutput: TransferOutput)

  type Results = map<nat, BlockResult>

  /** One analysis of one function. */
  datatype Problem = Problem(
    graph: Graph,
    direction: Direction,
    meet: MeetOp,
    transfer: (set<nat>, nat) -> TransferOutput,
    domain: set<nat>)
  {
    function Neighbors(b: nat): seq<nat> {
      if direction.Forward? then graph.Preds(b) else if b < |graph.succ| then graph.succ[b] else []
    }

    // The set a block's transfer function starts from, and the set it produces.
    function Input(r: BlockResult): set<nat> {
      if direction.Forward? then r.inSet else r.outSet
    }

    function Output(r: BlockResult): set<nat> {
      if direction.Forward? then r.outSet else r.inSet
    }

    function Stored(input: set<nat>, out: TransferOutput): BlockResult {
      if direction.Forward? then BlockResult(input, out.element, out) else BlockResult(out.element, input, out)
    }

    /** The neutral element of the meet. */
    function Bottom(): set<nat> {
      if meet.Union? then {} else domain
    }

    ghost predicate Covers(res: Results) {
      forall b: nat :: b < |graph.succ| ==> b in res
    }
  }

  // ----- One visit of a block -----

  /** The value a block offers to its neighbour `b`. */
  function EdgeValue(t: TransferOutput, b: nat): set<nat> {
    t.element + if b in t.neighborVals then t.neighborVals[b] else {}
  }

  function MeetAll(op: MeetOp, inputs: seq<set<nat>>): set<nat> {
    if inputs == [] then {}
    else if op.Union? then set i, d | 0 <= i < |inputs| && d in inputs[i] :: d
    else set d | d in inputs[0] && forall i :: 0 <= i < |inputs| ==> d in inputs[i]
  }

  lemma NeighborsAreBlocks(p: Problem, b: nat)
    requires p.graph.Valid()
    ensures forall i :: 0 <= i < |p.Neighbors(b)| ==> p.Neighbors(b)[i] < |p.graph.succ|
  {
    var ns := p.Neighbors(b);
    forall i | 0 <= i < |ns|
      ensures ns[i] < |p.graph.succ|
    {
      assert ns[i] in ns;
    }
  }

  function MeetInputs(p: Problem, res: Results, b: nat): (ms: seq<set<nat>>)
    requires p.graph.Valid() && p.Covers(res)
  {
    NeighborsAreBlocks(p, b);
    var ns := p.Neighbors(b);
    seq(|ns|, i requires 0 <= i < |ns| => EdgeValue(res[ns[i]].transferOutput, b))
  }

  function NewInput(p: Problem, res: Results, b: nat): set<nat>
    requires p.graph.Valid() && p.Covers(res) && b < |p.graph.succ|
  {
    if p.Neighbors(b) == [] then p.Input(res[b]) else MeetAll(p.meet, MeetInputs(p, res, b))
  }

  function Visited(p: Problem, res: Results, b: nat): BlockResult
    requires p.graph.Valid() && p.Covers(res) && b < |p.graph.succ|
  {
    var input := NewInput(p, res, b);
    p.Stored(input, p.transfer(input, b))
  }

  method ApplyMeetOp(op: MeetOp, inputs: seq<set<nat>>) returns (result: set<nat>)
    ensures result == MeetAll(op, inputs)
  {
    result := {};
    for i := 0 to |inputs|
      invariant result == MeetAll(op, inputs[..i])
    {
      if i == 0 {
        result := inputs[i];
      } else if op.Union? {
        result := result + inputs[i];
      } else {
        result := result * inputs[i];
      }
      MeetSnoc(op, inputs[..i], inputs[i]);
      assert inputs[..i] + [inputs[i]] == inputs[..i + 1];
    }
    assert inputs[..|inputs|] == inputs;
  }

  lemma MeetSnoc(op: MeetOp, inputs: seq<set<nat>>, x: set<nat>)
    ensures MeetAll(op, inputs + [x]) ==
            if inputs == [] then x else if op.Union? then MeetAll(op, inputs) + x else MeetAll(op, inputs) * x
  {
    var all := inputs + [x];
    assert all[|inputs|] == x;
    assert forall i :: 0 <= i < |inputs| ==> all[i] == inputs[i];
    if inputs == [] {
      assert forall d :: d in MeetAll(op, all) <==> d in x;
    } else if op.Union? {
      forall d | d in MeetAll(op, inputs)
        ensures d in MeetAll(op, all)
      {
        var i :| 0 <= i < |inputs| && d in inputs[i];
        assert d in all[i];
      }
    }
  }

  method VisitBlock(p: Problem, res: Results, b: nat) returns (r: BlockResult)
    requires p.graph.Valid() && p.Covers(res) && b < |p.graph.succ|
    ensures r == Visited(p, res, b)
  {
    NeighborsAreBlocks(p, b);
    var ns := p.Neighbors(b);
    var meetInputs := [];
    for i := 0 to |ns|
      invariant meetInputs == MeetInputs(p, res, b)[..i]
    {
      var neighbor := res[ns[i]].transferOutput;
      var value := neighbor.element;
      if b in neighbor.neighborVals {
        value := value + neighbor.neighborVals[b];
      }
      assert value == MeetInputs(p, res, b)[i];
      meetInputs := meetInputs + [value];
    }
    assert meetInputs == MeetInputs(p, res, b);
    var input := p.Input(res[b]);
    if meetInputs != [] {
      input := ApplyMeetOp(p.meet, meetInputs);
    }
    r := p.Stored(input, p.transfer(input, b));
  }

  // ----- The order in which values move -----

  ghost predicate Le(m: MeetOp, x: set<nat>, y: set<nat>) {
    if m.Union? then x <= y else y <= x
  }

  ghost predicate TLe(m: MeetOp, s: TransferOutput, t: TransferOutput) {
    Le(m, s.element, t.element) && forall c: nat :: Le(m, EdgeValue(s, c), EdgeValue(t, c))
  }

  ghost predicate Grows(m: MeetOp, s: TransferOutput, t: TransferOutput) {
    TLe(m, s, t) && s.neighborVals.Keys <= t.neighborVals.Keys
  }

  ghost predicate Within(p: Problem, t: TransferOutput) {
    && t.element <= p.domain
    && t.neighborVals.Keys <= p.graph.Blocks()
    && forall c: nat :: EdgeValue(t, c) <= p.domain
  }

  ghost predicate AllWithin(p: Problem, res: Results)
    requires p.Covers(res)
  {
    forall b: nat :: b < |p.graph.succ| ==> p.Input(res[b]) <= p.domain && Within(p, res[b].transferOutput)
  }

  /** What the solver needs of a transfer function.  The last condition is what makes
      its convergence test sound: the output set together with the number of
      neighbour-specific entries determines those entries. */
  ghost predicate WellBehaved(p: Problem) {
    && p.graph.Valid()
    && (forall x, b :: x <= p.domain ==> Within(p, p.transfer(x, b)))
    && (forall x, y, b :: x <= p.domain && y <= p.domain && Le(p.meet, x, y) ==>
          Grows(p.meet, p.transfer(x, b), p.transfer(y, b)))
    && (forall x, y, b :: x <= p.domain && y <= p.domain ==>
          Determined(p.transfer(x, b), p.transfer(y, b)))
  }

  ghost predicate Determined(s: TransferOutput, t: TransferOutput) {
    s.element == t.element && |s.neighborVals| == |t.neighborVals| ==> s.neighborVals == t.neighborVals
  }

  // ----- Invariants of the iteration -----

  /** Facts about every state of the iteration that starts from `start`. */
  ghost predicate Sound(p: Problem, order: seq<nat>, start: Results, res: Results) {
    && p.Covers(start) && p.Covers(res)
    && (forall b: nat :: b < |p.graph.succ| ==> SoundAt(p, order, start, res, b))
  }

  ghost predicate SoundAt(p: Problem, order: seq<nat>, start: Results, res: Results, b: nat)
    requires b in start && b in res
  {
    && p.Input(res[b]) <= p.domain && Within(p, res[b].transferOutput)
    && p.Output(res[b]) == res[b].transferOutput.element
    && (res[b].transferOutput.neighborVals == map[] || res[b].transferOutput == p.transfer(p.Input(res[b]), b))
    && (p.Neighbors(b) == [] ==> p.Input(res[b]) == p.Input(start[b]))
    && (b !in order ==> res[b] == start[b])
  }

  /** Every block's value can only move up when it is visited. */
  ghost predicate Rising(p: Problem, order: seq<nat>, res: Results)
    requires p.graph.Valid() && p.Covers(res)
  {
    forall b: nat :: b in order && b < |p.graph.succ| ==>
      Grows(p.meet, res[b].transferOutput, Visited(p, res, b).transferOutput)
  }

  /** Assignments that satisfy the data-flow equations as inequalities. */
  ghost predicate PostSolution(p: Problem, order: seq<nat>, start: Results, s: Results)
    requires p.graph.Valid() && p.Covers(start)
  {
    && p.Covers(s) && AllWithin(p, s)
    && (forall b: nat :: b < |p.graph.succ| && b !in order ==>
          TLe(p.meet, start[b].transferOutput, s[b].transferOutput))
    && (forall b: nat :: b < |p.graph.succ| && b in order ==>
          && (p.Neighbors(b) == [] ==> p.Input(s[b]) == p.Input(start[b]))
          && TLe(p.meet, Visited(p, s, b).transferOutput, s[b].transferOutput))
  }

  ghost predicate Below(p: Problem, res: Results, s: Results)
    requires p.Covers(res) && p.Covers(s)
  {
    forall b: nat :: b < |p.graph.succ| ==> TLe(p.meet, res[b].transferOutput, s[b].transferOutput)
  }

  ghost predicate BelowAll(p: Problem, order: seq<nat>, start: Results, res: Results)
    requires p.graph.Valid() && p.Covers(start) && p.Covers(res)
  {
    forall s: Results :: PostSolution(p, order, start, s) ==> Below(p, res, s)
  }

  /** Where the iteration may start: everything at the neutral element, except that
      the first block of the order may hold anything if it has no neighbours. */
  ghost predicate Ready(p: Problem, order: seq<nat>, start: Results) {
    && order != [] && (forall i :: 0 <= i < |order| ==> order[i] < |p.graph.succ|)
    && Sound(p, order, start, start)
    && (forall b: nat :: b < |p.graph.succ| ==> start[b].transferOutput.neighborVals == map[])
    && (forall b: nat :: b in order ==>
          start[b].transferOutput.element == p.Bottom() || (b == order[0] && p.Neighbors(b) == []))
  }

  ghost predicate StableAt(p: Problem, res: Results, b: nat)
    requires p.graph.Valid() && p.Covers(res) && b < |p.graph.succ|
  {
    res[b] == Visited(p, res, b)
  }

  /** The data-flow equations hold at every block of the order. */
  ghost predicate IsSolution(p: Problem, order: seq<nat>, res: Results)
    requires p.graph.Valid() && p.Covers(res)
  {
    forall b: nat :: b in order && b < |p.graph.succ| ==> StableAt(p, res, b)
  }

  // ----- Monotonicity -----

  lemma MeetMono(m: MeetOp, xs: seq<set<nat>>, ys: seq<set<nat>>)
    requires |xs| == |ys| && forall i :: 0 <= i < |xs| ==> Le(m, xs[i], ys[i])
    ensures Le(m, MeetAll(m, xs), MeetAll(m, ys))
  {
    if xs != [] && m.Union? {
      forall d | d in MeetAll(m, xs)
        ensures d in MeetAll(m, ys)
      {
        var i :| 0 <= i < |xs| && d in xs[i];
        assert Le(m, xs[i], ys[i]);
        assert d in ys[i];
      }
    } else if xs != [] {
      forall d | d in MeetAll(m, ys)
        ensures d in MeetAll(m, xs)
      {
        assert forall i :: 0 <= i < |xs| ==> Le(m, xs[i], ys[i]) && d in ys[i];
      }
    }
  }

  lemma MeetWithin(m: MeetOp, xs: seq<set<nat>>, domain: set<nat>)
    requires forall i :: 0 <= i < |xs| ==> xs[i] <= domain
    ensures MeetAll(m, xs) <= domain
  {
  }

  lemma NewInputWithin(p: Problem, res: Results, b: nat)
    requires p.graph.Valid() && p.Covers(res) && b < |p.graph.succ|
    requires AllWithin(p, res)
    ensures NewInput(p, res, b) <= p.domain
  {
    var ms, ns := MeetInputs(p, res, b), p.Neighbors(b);
    NeighborsAreBlocks(p, b);
    forall i | 0 <= i < |ms|
      ensures ms[i] <= p.domain
    {
      assert Within(p, res[ns[i]].transferOutput);
    }
    MeetWithin(p.meet, ms, p.domain);
  }

  lemma SoundWithin(p: Problem, order: seq<nat>, start: Results, res: Results)
    requires Sound(p, order, start, res)
    ensures AllWithin(p, res)
  {
    forall b: nat | b < |p.graph.succ|
      ensures p.Input(res[b]) <= p.domain && Within(p, res[b].transferOutput)
    {
      assert SoundAt(p, order, start, res, b);
    }
  }

  lemma NewInputMono(p: Problem, r: Results, s: Results, b: nat)
    requires p.graph.Valid() && p.Covers(r) && p.Covers(s) && b < |p.graph.succ|
    requires Below(p, r, s)
    requires p.Neighbors(b) == [] ==> p.Input(r[b]) == p.Input(s[b])
    ensures Le(p.meet, NewInput(p, r, b), NewInput(p, s, b))
  {
    var xs, ys, ns := MeetInputs(p, r, b), MeetInputs(p, s, b), p.Neighbors(b);
    NeighborsAreBlocks(p, b);
    forall i | 0 <= i < |xs|
      ensures Le(p.meet, xs[i], ys[i])
    {
      assert TLe(p.meet, r[ns[i]].transferOutput, s[ns[i]].transferOutput);
    }
    MeetMono(p.meet, xs, ys);
  }

  lemma VisitMono(p: Problem, r: Results, s: Results, b: nat)
    requires WellBehaved(p) && p.Covers(r) && p.Covers(s) && b < |p.graph.succ|
    requires Below(p, r, s)
    requires p.Neighbors(b) == [] ==> p.Input(r[b]) == p.Input(s[b])
    requires AllWithin(p, r) && AllWithin(p, s)
    ensures Grows(p.meet, Visited(p, r, b).transferOutput, Visited(p, s, b).transferOutput)
  {
    NewInputMono(p, r, s, b);
    NewInputWithin(p, r, b);
    NewInputWithin(p, s, b);
  }

  lemma TLeTrans(m: MeetOp, s: TransferOutput, t: TransferOutput, u: TransferOutput)
    requires TLe(m, s, t) && TLe(m, t, u)
    ensures TLe(m, s, u)
  {
    forall c: nat
      ensures Le(m, EdgeValue(s, c), EdgeValue(u, c))
    {
      assert Le(m, EdgeValue(s, c), EdgeValue(t, c)) && Le(m, EdgeValue(t, c), EdgeValue(u, c));
    }
  }

  lemma BottomLeast(p: Problem, s: TransferOutput, t: TransferOutput)
    requires s.element == p.Bottom() && s.neighborVals == map[] && Within(p, t)
    ensures Grows(p.meet, s, t)
  {
  }

  // ----- One step of the iteration -----

  lemma SoundStep(p: Problem, order: seq<nat>, start: Results, res: Results, b: nat)
    requires WellBehaved(p) && Sound(p, order, start, res) && b < |p.graph.succ| && b in order
    ensures Sound(p, order, start, res[b := Visited(p, res, b)])
  {
    var after := res[b := Visited(p, res, b)];
    SoundWithin(p, order, start, res);
    assert SoundAt(p, order, start, res, b);
    forall c: nat | c < |p.graph.succ|
      ensures SoundAt(p, order, start, after, c)
    {
      assert SoundAt(p, order, start, res, c);
      if c == b {
        NewInputWithin(p, res, b);
      }
    }
  }

  lemma BelowStep(p: Problem, order: seq<nat>, start: Results, res: Results, b: nat)
    requires WellBehaved(p) && Sound(p, order, start, res) && b < |p.graph.succ| && b in order
    requires BelowAll(p, order, start, res)
    ensures BelowAll(p, order, start, res[b := Visited(p, res, b)])
  {
    forall s: Results | PostSolution(p, order, start, s)
      ensures Below(p, res[b := Visited(p, res, b)], s)
    {
      VisitBelow(p, order, start, res, b, s);
    }
  }

  lemma VisitBelow(p: Problem, order: seq<nat>, start: Results, res: Results, b: nat, s: Results)
    requires WellBehaved(p) && Sound(p, order, start, res) && b < |p.graph.succ| && b in order
    requires PostSolution(p, order, start, s) && Below(p, res, s)
    ensures TLe(p.meet, Visited(p, res, b).transferOutput, s[b].transferOutput)
  {
    assert SoundAt(p, order, start, res, b);
    SoundWithin(p, order, start, res);
    VisitMono(p, res, s, b);
    TLeTrans(p.meet, Visited(p, res, b).transferOutput, Visited(p, s, b).transferOutput, s[b].transferOutput);
  }

  lemma RisingStep(p: Problem, order: seq<nat>, start: Results, res: Results, b: nat)
    requires WellBehaved(p) && Sound(p, order, start, res) && b < |p.graph.succ| && b in order
    requires Rising(p, order, res)
    ensures var after := res[b := Visited(p, res, b)];
            p.Covers(after) && Below(p, res, after) && Rising(p, order, after)
  {
    var after := res[b := Visited(p, res, b)];
    SoundStep(p, order, start, res, b);
    SoundWithin(p, order, start, res);
    SoundWithin(p, order, start, after);
    forall c: nat | c in order && c < |p.graph.succ|
      ensures Grows(p.meet, after[c].transferOutput, Visited(p, after, c).transferOutput)
    {
      assert SoundAt(p, order, start, res, c) && SoundAt(p, order, start, after, c);
      VisitMono(p, res, after, c);
      if c != b {
        TLeTrans(p.meet, res[c].transferOutput, Visited(p, res, c).transferOutput, Visited(p, after, c).transferOutput);
      }
    }
  }

  /** After the first block has been visited, the iteration is rising. */
  lemma FirstStep(p: Problem, order: seq<nat>, start: Results)
    requires WellBehaved(p) && Ready(p, order, start)
    ensures var res := start[order[0] := Visited(p, start, order[0])];
            Sound(p, order, start, res) && Rising(p, order, res) && BelowAll(p, order, start, res)
  {
    var b0 := order[0];
    var res := start[b0 := Visited(p, start, b0)];
    SoundStep(p, order, start, start, b0);
    SoundWithin(p, order, start, start);
    SoundWithin(p, order, start, res);
    forall c: nat | c in order && c < |p.graph.succ|
      ensures Grows(p.meet, res[c].transferOutput, Visited(p, res, c).transferOutput)
    {
      assert SoundAt(p, order, start, res, c);
      NewInputWithin(p, res, c);
      if c != b0 {
        BottomLeast(p, start[c].transferOutput, Visited(p, res, c).transferOutput);
      } else if p.Neighbors(b0) != [] {
        FirstBelow(p, order, start);
        VisitMono(p, start, res, b0);
      }
    }
    forall s: Results | PostSolution(p, order, start, s)
      ensures Below(p, res, s)
    {
      FirstBelowSolution(p, order, start, s);
    }
  }

  lemma FirstBelow(p: Problem, order: seq<nat>, start: Results)
    requires WellBehaved(p) && Ready(p, order, start) && p.Neighbors(order[0]) != []
    ensures Below(p, start, start[order[0] := Visited(p, start, order[0])])
  {
    var b0 := order[0];
    SoundWithin(p, order, start, start);
    NewInputWithin(p, start, b0);
    BottomLeast(p, start[b0].transferOutput, Visited(p, start, b0).transferOutput);
  }

  lemma FirstBelowSolution(p: Problem, order: seq<nat>, start: Results, s: Results)
    requires WellBehaved(p) && Ready(p, order, start) && PostSolution(p, order, start, s)
    ensures Below(p, start[order[0] := Visited(p, start, order[0])], s)
  {
    var b0 := order[0];
    var res := start[b0 := Visited(p, start, b0)];
    forall c: nat | c < |p.graph.succ|
      ensures TLe(p.meet, res[c].transferOutput, s[c].transferOutput)
    {
      assert SoundAt(p, order, start, start, c);
      if c != b0 && c in order {
        BottomLeast(p, start[c].transferOutput, s[c].transferOutput);
      } else if c == b0 {
        if p.Neighbors(b0) == [] {
          assert Visited(p, start, b0) == Visited(p, s, b0);
        } else {
          StartBelow(p, order, start, s);
          VisitBelow(p, order, start, start, b0, s);
        }
      }
    }
  }

  lemma StartBelow(p: Problem, order: seq<nat>, start: Results, s: Results)
    requires WellBehaved(p) && Ready(p, order, start) && PostSolution(p, order, start, s)
    requires p.Neighbors(order[0]) != []
    ensures Below(p, start, s)
  {
    forall c: nat | c < |p.graph.succ|
      ensures TLe(p.meet, start[c].transferOutput, s[c].transferOutput)
    {
      if c in order {
        BottomLeast(p, start[c].transferOutput, s[c].transferOutput);
      }
    }
  }

  // ----- Convergence -----

  /** The convergence test: an unchanged output set and an unchanged number of
      neighbour-specific entries mean that the whole transfer output is unchanged. */
  lemma TestIsSound(p: Problem, order: seq<nat>, start: Results, res: Results, b: nat)
    requires WellBehaved(p) && Sound(p, order, start, res) && b < |p.graph.succ|
    requires Visited(p, res, b).transferOutput.element == p.Output(res[b])
    requires |Visited(p, res, b).transferOutput.neighborVals| == |res[b].transferOutput.neighborVals|
    ensures Visited(p, res, b).transferOutput == res[b].transferOutput
  {
    assert SoundAt(p, order, start, res, b);
    SoundWithin(p, order, start, res);
    NewInputWithin(p, res, b);
    var x, y := p.Input(res[b]), NewInput(p, res, b);
    if res[b].transferOutput.neighborVals == map[] {
      assert |Visited(p, res, b).transferOutput.neighborVals| == 0;
    } else {
      assert Determined(p.transfer(x, b), p.transfer(y, b));
    }
  }

  /** A visit that leaves the transfer output alone keeps every stable block stable. */
  lemma StableStep(p: Problem, res: Results, b: nat, c: nat)
    requires p.graph.Valid() && p.Covers(res) && b < |p.graph.succ| && c < |p.graph.succ|
    requires Visited(p, res, b).transferOutput == res[b].transferOutput
    requires c == b || StableAt(p, res, c)
    ensures StableAt(p, res[b := Visited(p, res, b)], c)
  {
    var after := res[b := Visited(p, res, b)];
    assert MeetInputs(p, res, c) == MeetInputs(p, after, c);
  }

  /** Room left above the current values: the measure that shrinks. */
  ghost function Room(p: Problem, order: seq<nat>, res: Results): set<(nat, nat)>
    requires p.Covers(res)
  {
    set b: nat, d: nat | b in order && b in p.graph.Blocks() && d in p.domain &&
                         (if p.meet.Union? then d !in res[b].transferOutput.element
                                           else d in res[b].transferOutput.element) :: (b, d)
  }

  ghost function KeyRoom(p: Problem, order: seq<nat>, res: Results): set<(nat, nat)>
    requires p.Covers(res)
  {
    set b: nat, c: nat | b in order && b in p.graph.Blocks() && c in p.graph.Blocks() &&
                         c !in res[b].transferOutput.neighborVals :: (b, c)
  }

  lemma RoomStep(p: Problem, order: seq<nat>, res: Results, b: nat, r: BlockResult)
    requires p.Covers(res) && b in order && b < |p.graph.succ|
    requires Le(p.meet, res[b].transferOutput.element, r.transferOutput.element)
    requires res[b].transferOutput.element <= p.domain && r.transferOutput.element <= p.domain
    ensures Room(p, order, res[b := r]) <= Room(p, order, res)
    ensures r.transferOutput.element != res[b].transferOutput.element ==>
              Room(p, order, res[b := r]) != Room(p, order, res)
  {
    var s, t := res[b].transferOutput.element, r.transferOutput.element;
    if t != s {
      assert exists d :: (d in s) != (d in t);
      var d :| (d in s) != (d in t);
      assert ((b, d) in Room(p, order, res)) != ((b, d) in Room(p, order, res[b := r]));
    }
  }

  lemma KeyRoomStep(p: Problem, order: seq<nat>, res: Results, b: nat, r: BlockResult)
    requires p.Covers(res) && b in order && b < |p.graph.succ|
    requires res[b].transferOutput.neighborVals.Keys <= r.transferOutput.neighborVals.Keys <= p.graph.Blocks()
    ensures KeyRoom(p, order, res[b := r]) <= KeyRoom(p, order, res)
    ensures |r.transferOutput.neighborVals| != |res[b].transferOutput.neighborVals| ==>
              KeyRoom(p, order, res[b := r]) != KeyRoom(p, order, res)
  {
    var s, t := res[b].transferOutput.neighborVals, r.transferOutput.neighborVals;
    if |t| != |s| {
      assert t.Keys != s.Keys by {
        assert |t.Keys| == |t| && |s.Keys| == |s|;
      }
      var c :| c in t.Keys && c !in s.Keys;
      assert (b, c) in KeyRoom(p, order, res) && (b, c) !in KeyRoom(p, order, res[b := r]);
    }
  }

  lemma RoomShrinks(p: Problem, order: seq<nat>, start: Results, res: Results, b: nat)
    requires WellBehaved(p) && Sound(p, order, start, res) && Rising(p, order, res)
    requires b in order && b < |p.graph.succ|
    ensures var after := res[b := Visited(p, res, b)];
            && Room(p, order, after) <= Room(p, order, res)
            && KeyRoom(p, order, after) <= KeyRoom(p, order, res)
            && (after[b].transferOutput.element != p.Output(res[b]) ==> Room(p, order, after) != Room(p, order, res))
            && (|after[b].transferOutput.neighborVals| != |res[b].transferOutput.neighborVals| ==>
                  KeyRoom(p, order, after) != KeyRoom(p, order, res))
  {
    var r := Visited(p, res, b);
    assert SoundAt(p, order, start, res, b);
    SoundWithin(p, order, start, res);
    NewInputWithin(p, res, b);
    assert Within(p, r.transferOutput);
    RoomStep(p, order, res, b, r);
    KeyRoomStep(p, order, res, b, r);
  }

  // ----- The solver -----

  /** The round-robin loop.  It ends in a solution of the data-flow equations, and
      that solution is the extreme one: it lies below every assignment that satisfies
      the equations as inequalities. */
  method Solve(p: Problem, order: seq<nat>, start: Results) returns (res: Results)
    requires WellBehaved(p) && Ready(p, order, start)
    ensures Sound(p, order, start, res)
    ensures IsSolution(p, order, res)
    ensures BelowAll(p, order, start, res)
  {
    res := start;
    var converged := false;
    ghost var begun := false;
    while !converged
      invariant Sound(p, order, start, res)
      invariant if begun then Rising(p, order, res) && BelowAll(p, order, start, res) else res == start
      invariant converged ==> begun && IsSolution(p, order, res)
      decreases !begun, Room(p, order, res), KeyRoom(p, order, res), !converged
    {
      converged := true;
      ghost var before := begun;
      ghost var room, keys := Room(p, order, res), KeyRoom(p, order, res);
      for i := 0 to |order|
        invariant Sound(p, order, start, res)
        invariant begun == (before || i > 0)
        invariant if begun then Rising(p, order, res) && BelowAll(p, order, start, res) else res == start
        invariant converged ==> forall j :: 0 <= j < i ==> StableAt(p, res, order[j])
        invariant before ==> Room(p, order, res) <= room && KeyRoom(p, order, res) <= keys
        invariant before && !converged ==> Room(p, order, res) != room || KeyRoom(p, order, res) != keys
      {
        var b := order[i];
        var oldRes := res[b];
        var r := VisitBlock(p, res, b);
        if converged && (p.Output(r) != p.Output(oldRes)
                         || |r.transferOutput.neighborVals| != |oldRes.transferOutput.neighborVals|) {
          converged := false;
        }
        if begun {
          RoomShrinks(p, order, start, res, b);
          RisingStep(p, order, start, res, b);
          BelowStep(p, order, start, res, b);
        } else {
          FirstStep(p, order, start);
        }
        SoundStep(p, order, start, res, b);
        if converged {
          TestIsSound(p, order, start, res, b);
          forall j | 0 <= j <= i
            ensures StableAt(p, res[b := r], order[j])
          {
            StableStep(p, res, b, order[j]);
          }
        }
        res := res[b := r];
        begun := true;
      }
    }
  }

  // ----- Setting the solver up -----

  /** Initial values.  `exits` are the blocks that end in a return; `interior` is what
      the interior blocks start with at the end of the block they are computed from. */
  function Start(p: Problem, exits: set<nat>, boundary: set<nat>, init: set<nat>, interior: set<nat>): (r: Results)
    ensures p.Covers(r)
  {
    map b | b in p.graph.Blocks() ::
      if p.direction.Forward? then
        if b == 0 then BlockResult(boundary, {}, TransferOutput(boundary, map[]))
        else BlockResult(interior, init, TransferOutput(init, map[]))
      else
        if b in exits then BlockResult({}, boundary, TransferOutput(boundary, map[]))
        else BlockResult(init, interior, TransferOutput(init, map[]))
  }

  function Reversed(s: seq<nat>): (r: seq<nat>)
    ensures |r| == |s| && forall i :: 0 <= i < |s| ==> r[i] == s[|s| - 1 - i]
  {
    if s == [] then [] else Reversed(s[1..]) + [s[0]]
  }

  /** Reverse post-order for forward problems, post-order for backward ones. */
  function Traversal(p: Problem): seq<nat>
    requires p.graph.Valid()
  {
    if p.direction.Forward? then Reversed(PostOrder(p.graph)) else PostOrder(p.graph)
  }

  /** An order in which the solver may visit the blocks: it lists the reachable blocks,
      and for forward problems the entry block comes first. */
  ghost predicate IsOrder(p: Problem, o: seq<nat>) {
    && o != [] && (p.direction.Forward? ==> o[0] == 0)
    && (forall b: nat :: b in o <==> Reachable(p.graph, b))
    && (forall i :: 0 <= i < |o| ==> o[i] < |p.graph.succ|)
  }

  lemma TraversalFacts(p: Problem)
    requires p.graph.Valid()
    ensures IsOrder(p, Traversal(p))
  {
    PostOrderFacts(p.graph);
    var po, o := PostOrder(p.graph), Traversal(p);
    forall b: nat
      ensures b in o <==> b in po
    {
      if b in po && p.direction.Forward? {
        var i :| 0 <= i < |po| && po[i] == b;
        assert o[|po| - 1 - i] == b;
      }
    }
    forall i | 0 <= i < |o|
      ensures o[i] < |p.graph.succ|
    {
      assert o[i] in o;
      ReachableIsBlock(p.graph, o[i]);
    }
  }

  lemma {:induction false} EntryHasNoPreds(g: Graph, k: nat)
    requires g.Valid() && k <= |g.succ|
    ensures g.PredsBelow(0, k) == []
  {
    if k > 0 {
      EntryHasNoPreds(g, k - 1);
    }
  }

  /** What the solver delivers when it visits the blocks in the given order. */
  ghost predicate SolvedIn(p: Problem, order: seq<nat>, exits: set<nat>, interior: set<nat>, res: Results)
    requires p.graph.Valid()
  {
    var start := Start(p, exits, {}, p.Bottom(), interior);
    && Sound(p, order, start, res)
    && IsSolution(p, order, res)
    && BelowAll(p, order, start, res)
  }

  /** What the solver delivers to its clients, whatever order it used. */
  ghost predicate Solved(p: Problem, exits: set<nat>, interior: set<nat>, res: Results)
    requires p.graph.Valid()
  {
    exists order :: IsOrder(p, order) && SolvedIn(p, order, exits, interior, res)
  }

  lemma SolvedAt(p: Problem, exits: set<nat>, interior: set<nat>, res: Results, b: nat)
    requires p.graph.Valid() && Solved(p, exits, interior, res) && Reachable(p.graph, b)
    ensures b < |p.graph.succ| && p.Covers(res) && StableAt(p, res, b)
  {
    var order :| IsOrder(p, order) && SolvedIn(p, order, exits, interior, res);
    ReachableIsBlock(p.graph, b);
    assert b in order;
  }

  /** The sets of every block, reachable or not. */
  lemma SolvedSound(p: Problem, exits: set<nat>, interior: set<nat>, res: Results, b: nat)
    requires p.graph.Valid() && Solved(p, exits, interior, res) && b < |p.graph.succ|
    ensures var start := Start(p, exits, {}, p.Bottom(), interior);
            && p.Covers(res)
            && p.Input(res[b]) <= p.domain && Within(p, res[b].transferOutput)
            && p.Output(res[b]) == res[b].transferOutput.element
            && (res[b].transferOutput.neighborVals == map[] || res[b].transferOutput == p.transfer(p.Input(res[b]), b))
            && (p.Neighbors(b) == [] ==> p.Input(res[b]) == p.Input(start[b]))
            && (!Reachable(p.graph, b) ==> res[b] == start[b])
  {
    var order :| IsOrder(p, order) && SolvedIn(p, order, exits, interior, res);
    assert SoundAt(p, order, Start(p, exits, {}, p.Bottom(), interior), res, b);
    assert b in order <==> Reachable(p.graph, b);
  }

  /** The whole analysis, for any client whose boundary condition is empty and any order
      of visiting the reachable blocks; forward analyses must begin with the entry. */
  method Run(p: Problem, order: seq<nat>, exits: set<nat>, init: set<nat>, interior: set<nat>) returns (res: Results)
    requires WellBehaved(p) && IsOrder(p, order) && init == p.Bottom() && interior <= p.domain
    requires p.direction.Backward? ==> p.meet.Union?
    ensures Solved(p, exits, interior, res)
  {
    var start := Start(p, exits, {}, init, interior);
    forall b: nat | b < |p.graph.succ|
      ensures SoundAt(p, order, start, start, b)
    {
    }
    assert p.Neighbors(0) == [] || p.direction.Backward? by {
      EntryHasNoPreds(p.graph, |p.graph.succ|);
    }
    res := Solve(p, order, start);
    assert SolvedIn(p, order, exits, interior, res);
  }
}
