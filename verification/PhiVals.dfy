/** The values that the phis of a block take along each incoming edge. */
module PhiVals {
  import opened Ir

  predicate PhiTakes(s: Instr, known: set<nat>, p: nat, d: nat) {
    s.kind.Phi? &&
    exists k :: 0 <= k < |s.ops| && k < |s.kind.from| && s.kind.from[k] == p && s.ops[k] == Ref(d) && d in known
  }

  /** What the live phis of a block take from its predecessor `p`. */
  function TakenFrom(s: seq<Instr>, live: set<nat>, known: set<nat>, p: nat): set<nat> {
    set d | d in known && exists i :: 0 <= i < |s| && s[i].id in live && PhiTakes(s[i], known, p, d)
  }

  function PhiSources(s: seq<Instr>): set<nat> {
    set i, k | 0 <= i < |s| && s[i].kind.Phi? && 0 <= k < |s[i].kind.from| :: s[i].kind.from[k]
  }

  function NeighborVals(s: seq<Instr>, live: set<nat>, known: set<nat>): map<nat, set<nat>> {
    map p | p in PhiSources(s) && TakenFrom(s, live, known, p) != {} :: TakenFrom(s, live, known, p)
  }

  /** The neighbour values after recording the first `n` entries of the phi `s`. */
  function AddPhi(vals: map<nat, set<nat>>, s: Instr, known: set<nat>, n: nat): map<nat, set<nat>>
    requires s.kind.Phi? && |s.kind.from| == |s.ops| && n <= |s.ops|
  {
    if n == 0 then vals
    else
      var before := AddPhi(vals, s, known, n - 1);
      var p := s.kind.from[n - 1];
      if s.ops[n - 1].Ref? && s.ops[n - 1].id in known then
        before[p := (if p in before then before[p] else {}) + {s.ops[n - 1].id}]
      else before
  }

  ghost predicate Entry(s: Instr, known: set<nat>, n: nat, p: nat, d: nat)
    requires s.kind.Phi? && |s.kind.from| == |s.ops| && n <= |s.ops|
  {
    exists k :: 0 <= k < n && s.kind.from[k] == p && s.ops[k] == Ref(d) && d in known
  }

  ghost predicate Holds(vals: map<nat, set<nat>>, p: nat, d: nat) {
    p in vals && d in vals[p]
  }

  lemma {:induction false} AddPhiMember(vals: map<nat, set<nat>>, s: Instr, known: set<nat>, n: nat, p: nat, d: nat)
    requires s.kind.Phi? && |s.kind.from| == |s.ops| && n <= |s.ops|
    ensures Holds(AddPhi(vals, s, known, n), p, d) <==> Holds(vals, p, d) || Entry(s, known, n, p, d)
  {
    if n > 0 {
      AddPhiMember(vals, s, known, n - 1, p, d);
      var here := s.kind.from[n - 1] == p && s.ops[n - 1] == Ref(d) && d in known;
      assert Entry(s, known, n, p, d) <==> Entry(s, known, n - 1, p, d) || here;
    }
  }

  lemma {:induction false} AddPhiNonempty(vals: map<nat, set<nat>>, s: Instr, known: set<nat>, n: nat)
    requires s.kind.Phi? && |s.kind.from| == |s.ops| && n <= |s.ops|
    requires forall p :: p in vals ==> vals[p] != {}
    ensures forall p :: p in AddPhi(vals, s, known, n) ==> AddPhi(vals, s, known, n)[p] != {}
  {
    if n > 0 {
      AddPhiNonempty(vals, s, known, n - 1);
    }
  }

  lemma NeighborValsHolds(s: seq<Instr>, live: set<nat>, known: set<nat>, p: nat, d: nat)
    ensures Holds(NeighborVals(s, live, known), p, d) <==> d in TakenFrom(s, live, known, p)
  {
    if d in TakenFrom(s, live, known, p) {
      var i :| 0 <= i < |s| && s[i].id in live && PhiTakes(s[i], known, p, d);
      var k :| 0 <= k < |s[i].ops| && k < |s[i].kind.from| && s[i].kind.from[k] == p && s[i].ops[k] == Ref(d) &&
          d in known;
      assert p in PhiSources(s);
    }
  }

  lemma SameVals(u: map<nat, set<nat>>, v: map<nat, set<nat>>)
    requires forall p: nat, d: nat :: Holds(u, p, d) <==> Holds(v, p, d)
    requires forall p :: p in u ==> u[p] != {}
    requires forall p :: p in v ==> v[p] != {}
    ensures u == v
  {
    forall p: nat
      ensures p in u <==> p in v
      ensures p in u && p in v ==> u[p] == v[p]
    {
      assert forall d: nat :: Holds(u, p, d) <==> Holds(v, p, d);
      if p in u {
        var d :| d in u[p];
        assert Holds(u, p, d);
      }
      if p in v {
        var d :| d in v[p];
        assert Holds(v, p, d);
      }
      forall d: nat | p in u && p in v
        ensures d in u[p] <==> d in v[p]
      {
        assert Holds(u, p, d) <==> Holds(v, p, d);
      }
    }
  }

  /** `whole` is `rest` with one more instruction at either end. */
  ghost predicate AddsOne(whole: seq<Instr>, one: Instr, rest: seq<Instr>) {
    whole == [one] + rest || whole == rest + [one]
  }

  lemma TakenAppend(s: seq<Instr>, t: seq<Instr>, live: set<nat>, known: set<nat>, p: nat, d: nat)
    ensures d in TakenFrom(s + t, live, known, p) <==>
            d in TakenFrom(s, live, known, p) || d in TakenFrom(t, live, known, p)
  {
    var r := s + t;
    if d in TakenFrom(s, live, known, p) {
      var i :| 0 <= i < |s| && s[i].id in live && PhiTakes(s[i], known, p, d);
      assert r[i] == s[i];
    }
    if d in TakenFrom(t, live, known, p) {
      var i :| 0 <= i < |t| && t[i].id in live && PhiTakes(t[i], known, p, d);
      assert r[|s| + i] == t[i];
    }
  }

  lemma TakenWithOne(whole: seq<Instr>, one: Instr, rest: seq<Instr>, live: set<nat>, known: set<nat>, p: nat, d: nat)
    requires AddsOne(whole, one, rest)
    ensures d in TakenFrom(whole, live, known, p) <==>
            (one.id in live && PhiTakes(one, known, p, d)) || d in TakenFrom(rest, live, known, p)
  {
    TakenAppend([one], rest, live, known, p, d);
    TakenAppend(rest, [one], live, known, p, d);
    assert [one][0] == one;
    assert d in TakenFrom([one], live, known, p) <==> one.id in live && PhiTakes(one, known, p, d);
  }

  lemma NeighborValsWithOne(whole: seq<Instr>, one: Instr, rest: seq<Instr>, live: set<nat>, known: set<nat>)
    requires AddsOne(whole, one, rest) && (one.kind.Phi? ==> |one.kind.from| == |one.ops|)
    ensures NeighborVals(whole, live, known) ==
            if one.kind.Phi? && one.id in live then AddPhi(NeighborVals(rest, live, known), one, known, |one.ops|)
            else NeighborVals(rest, live, known)
  {
    var u, v := NeighborVals(whole, live, known), NeighborVals(rest, live, known);
    var w := if one.kind.Phi? && one.id in live then AddPhi(v, one, known, |one.ops|) else v;
    forall p: nat, d: nat
      ensures Holds(u, p, d) <==> Holds(w, p, d)
    {
      NeighborValsHolds(whole, live, known, p, d);
      NeighborValsHolds(rest, live, known, p, d);
      TakenWithOne(whole, one, rest, live, known, p, d);
      if one.kind.Phi? && one.id in live {
        AddPhiMember(v, one, known, |one.ops|, p, d);
      }
    }
    if one.kind.Phi? && one.id in live {
      AddPhiNonempty(v, one, known, |one.ops|);
    }
    SameVals(u, w);
  }

  lemma NoPhisNoVals(s: seq<Instr>, live: set<nat>, known: set<nat>)
    requires forall i :: 0 <= i < |s| ==> !s[i].kind.Phi?
    ensures NeighborVals(s, live, known) == map[]
  {
    assert PhiSources(s) == {};
  }

  method MarkPhi(s: Instr, vals: map<nat, set<nat>>, known: set<nat>) returns (r: map<nat, set<nat>>)
    requires s.kind.Phi? && |s.kind.from| == |s.ops|
    ensures r == AddPhi(vals, s, known, |s.ops|)
  {
    r := vals;
    for k := 0 to |s.ops|
      invariant r == AddPhi(vals, s, known, k)
    {
      if s.ops[k].Ref? && s.ops[k].id in known {
        var p := s.kind.from[k];
        if p !in r {
          r := r[p := {}];
        }
        r := r[p := r[p] + {s.ops[k].id}];
      }
    }
  }

  lemma NeighborValsMono(s: seq<Instr>, x: set<nat>, y: set<nat>, known: set<nat>)
    requires x <= y
    ensures NeighborVals(s, x, known).Keys <= NeighborVals(s, y, known).Keys
    ensures forall p :: p in NeighborVals(s, x, known) ==> NeighborVals(s, x, known)[p] <= NeighborVals(s, y, known)[p]
  {
    forall p
      ensures TakenFrom(s, x, known, p) <= TakenFrom(s, y, known, p)
    {
    }
  }

  lemma PhiSourcesAreBlocks(f: Function, b: nat)
    requires WellFormed(f) && b < |f.blocks|
    ensures PhiSources(f.blocks[b]) <= f.graph.Blocks()
  {
    assert BlockShape(f, b);
    var s := f.blocks[b];
    forall i, k | 0 <= i < |s| && s[i].kind.Phi? && 0 <= k < |s[i].kind.from|
      ensures s[i].kind.from[k] in f.graph.Blocks()
    {
      assert PhiShape(f, b, s[i]);
    }
  }
}
