/** Natural loops, their preheaders, and where their dominators lie. */
module Loops {
  import opened Cfg

  datatype Loop = Loop(header: nat, blocks: set<nat>)

  /** The header dominates the loop, and a loop block other than the header is entered
      from inside the loop only. */
  ghost predicate IsNaturalLoop(g: Graph, loop: Loop) {
    && loop.header in loop.blocks
    && (forall b :: b in loop.blocks ==> Reachable(g, b) && Dom(g, loop.header, b))
    && (forall a: nat, b: nat :: b in loop.blocks && b != loop.header && g.Edge(a, b) && Reachable(g, a) ==>
          a in loop.blocks)
  }

  /** The one predecessor of the header outside the loop; it leads nowhere else. */
  ghost predicate IsPreheader(g: Graph, loop: Loop, ph: nat) {
    && ph !in loop.blocks && Reachable(g, ph) && g.Edge(ph, loop.header)
    && (forall c: nat :: g.Edge(ph, c) ==> c == loop.header)
    && (forall a: nat :: g.Edge(a, loop.header) ==> a in loop.blocks || a == ph)
  }

  lemma HeaderNotBeforePreheader(g: Graph, loop: Loop, ph: nat)
    requires g.Valid() && IsNaturalLoop(g, loop) && IsPreheader(g, loop, ph)
    ensures !Dom(g, loop.header, ph)
  {
    var h := loop.header;
    var q := FreshPath(g, h);
    assert h != 0;
    var a, front := q[|q| - 2], q[..|q| - 1];
    assert g.Edge(a, q[|q| - 1]);
    WalkPrefix(g, q, 0, h, |q| - 2);
    assert IsPath(g, front, a);
    assert a in loop.blocks ==> Dom(g, h, a);
  }

  lemma LoopBlockNotBeforePreheader(g: Graph, loop: Loop, ph: nat, c: nat)
    requires g.Valid() && IsNaturalLoop(g, loop) && IsPreheader(g, loop, ph) && c in loop.blocks
    ensures !Dom(g, c, ph)
  {
    HeaderNotBeforePreheader(g, loop, ph);
    if Dom(g, c, ph) {
      DomTrans(g, loop.header, c, ph);
    }
  }

  lemma EnteringLoop(g: Graph, loop: Loop, ph: nat, a: nat, b: nat)
    requires IsNaturalLoop(g, loop) && IsPreheader(g, loop, ph)
    requires b in loop.blocks && g.Edge(a, b) && Reachable(g, a)
    ensures a in loop.blocks || a == ph
  {
  }

  /** A walk that ends in the loop and meets the header only at its start stays in the
      loop. */
  lemma {:induction false} LoopSuffix(g: Graph, loop: Loop, q: seq<nat>, b: nat, i: nat, k: nat)
    requires IsNaturalLoop(g, loop) && IsPath(g, q, b) && b in loop.blocks && i <= k < |q|
    requires forall j :: i < j < |q| ==> q[j] != loop.header
    ensures q[k] in loop.blocks
    decreases |q| - k
  {
    if k < |q| - 1 {
      LoopSuffix(g, loop, q, b, i, k + 1);
      assert g.Edge(q[k], q[k + 1]);
      WalkPrefix(g, q, 0, b, k);
      assert IsPath(g, q[..k + 1], q[k]);
    }
  }

  /** A block between the header and a loop block in the dominance order is in the loop. */
  lemma DominatorInLoop(g: Graph, loop: Loop, x: nat, b: nat)
    requires IsNaturalLoop(g, loop) && b in loop.blocks && Dom(g, x, b) && Dom(g, loop.header, x)
    ensures x in loop.blocks
  {
    var h := loop.header;
    var q :| IsPath(g, q, b);
    assert h in q;
    var i := LastMeeting(q, {h});
    assert forall j :: i < j < |q| ==> q[j] in q[i + 1..];
    var p := FreshPath(g, h);
    ChainDetour(g, q, b, i, p);
    var r := p + q[i + 1..];
    assert x in r;
    if x in q[i + 1..] {
      var k :| i < k < |q| && q[k] == x;
      LoopSuffix(g, loop, q, b, i, k);
    } else {
      var k :| 0 <= k < |p| && p[k] == x;
      WalkPrefix(g, p, 0, h, k);
      assert IsPath(g, p[..k + 1], x);
      assert h in p[..k + 1];
    }
  }

  lemma PreheaderDominates(g: Graph, loop: Loop, ph: nat, b: nat)
    requires g.Valid() && IsNaturalLoop(g, loop) && IsPreheader(g, loop, ph) && b in loop.blocks
    ensures SDom(g, ph, b)
  {
    var h := loop.header;
    forall q | IsPath(g, q, h)
      ensures ph in q
    {
      var p, x := CutAtFirst(g, q, h, {h});
      assert h != 0;
      var a, front := p[|p| - 2], p[..|p| - 1];
      assert g.Edge(a, p[|p| - 1]);
      WalkPrefix(g, p, 0, h, |p| - 2);
      assert IsPath(g, front, a);
      assert a in loop.blocks ==> Dom(g, h, a);
      assert a in p && forall y :: y in p ==> y in q;
    }
    DomTrans(g, ph, h, b);
  }

  /** A block outside the loop that dominates a loop block dominates the preheader. */
  lemma OutsideDominatesPreheader(g: Graph, loop: Loop, ph: nat, c: nat, b: nat)
    requires g.Valid() && IsNaturalLoop(g, loop) && IsPreheader(g, loop, ph)
    requires b in loop.blocks && c !in loop.blocks && Dom(g, c, b)
    ensures Dom(g, c, ph)
  {
    DomChain(g, c, loop.header, b);
    if Dom(g, loop.header, c) {
      DominatorInLoop(g, loop, c, b);
    } else {
      SDomAcrossEdge(g, c, ph, loop.header);
    }
  }
}
