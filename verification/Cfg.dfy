/** Control-flow graphs, paths from the entry block, dominance, and the
    depth-first traversal that the passes use to order blocks. */
module Cfg {

  /** Blocks are numbered from 0 and block 0 is the entry block.  `succ[b]` lists
      the successors named by the terminator of block `b`. */
  datatype Graph = Graph(succ: seq<seq<nat>>) {

    // The entry block of a function has no predecessors.
    ghost predicate Valid() {
      |succ| > 0 && forall b, i :: 0 <= b < |succ| && 0 <= i < |succ[b]| ==> 0 < succ[b][i] < |succ|
    }

    predicate Edge(a: nat, b: nat) {
      a < |succ| && b in succ[a]
    }

    function Blocks(): (bs: set<nat>)
      ensures forall b: nat :: b in bs <==> b < |succ|
    {
      Upto(|succ|)
    }

    /** The predecessors of `b` among the blocks below `limit`. */
    function PredsBelow(b: nat, limit: nat): (ps: seq<nat>)
      requires limit <= |succ|
      ensures forall a: nat :: a in ps <==> a < limit && Edge(a, b)
    {
      if limit == 0 then []
      else PredsBelow(b, limit - 1) + if b in succ[limit - 1] then [limit - 1] else []
    }

    function Preds(b: nat): (ps: seq<nat>)
      ensures forall a: nat :: a in ps <==> Edge(a, b)
    {
      PredsBelow(b, |succ|)
    }
  }

  function Upto(n: nat): (s: set<nat>)
    ensures forall b: nat :: b in s <==> b < n
  {
    if n == 0 then {} else Upto(n - 1) + {n - 1}
  }

  ghost predicate IsWalk(g: Graph, p: seq<nat>, a: nat, b: nat) {
    && p != [] && p[0] == a && p[|p| - 1] == b && a < |g.succ|
    && forall i, j :: 0 <= i && j == i + 1 && j < |p| ==> g.Edge(p[i], p[j])
  }

  /** A path is a walk from the entry block. */
  ghost predicate IsPath(g: Graph, p: seq<nat>, b: nat) {
    IsWalk(g, p, 0, b)
  }

  ghost predicate Reachable(g: Graph, b: nat) {
    exists p :: IsPath(g, p, b)
  }

  ghost predicate AllReachable(g: Graph) {
    forall b: nat :: b in g.Blocks() ==> Reachable(g, b)
  }

  ghost predicate Dom(g: Graph, a: nat, b: nat) {
    forall p :: IsPath(g, p, b) ==> a in p
  }

  ghost predicate SDom(g: Graph, a: nat, b: nat) {
    a != b && Dom(g, a, b)
  }

  // ----- Walks -----

  lemma WalkPrefix(g: Graph, p: seq<nat>, a: nat, b: nat, i: nat)
    requires IsWalk(g, p, a, b) && i < |p|
    ensures IsWalk(g, p[..i + 1], a, p[i])
  {
  }

  lemma WalkSuffix(g: Graph, p: seq<nat>, a: nat, b: nat, i: nat)
    requires IsWalk(g, p, a, b) && i < |p| && p[i] < |g.succ|
    ensures IsWalk(g, p[i..], p[i], b)
  {
  }

  lemma WalkConcat(g: Graph, p: seq<nat>, q: seq<nat>, a: nat, b: nat, c: nat)
    requires IsWalk(g, p, a, b) && IsWalk(g, q, b, c)
    ensures IsWalk(g, p + q[1..], a, c)
  {
    var r := p + q[1..];
    forall i, j | 0 <= i && j == i + 1 && j < |r|
      ensures g.Edge(r[i], r[j])
    {
      if j >= |p| {
        assert r[j] == q[j - |p| + 1] && r[i] == q[i - |p| + 1];
      }
    }
  }

  lemma WalkExtend(g: Graph, p: seq<nat>, a: nat, b: nat, c: nat)
    requires IsWalk(g, p, a, b) && g.Edge(b, c)
    ensures IsWalk(g, p + [c], a, c)
  {
  }

  lemma WalkCons(g: Graph, p: seq<nat>, a: nat, b: nat, c: nat)
    requires IsWalk(g, p, b, c) && g.Edge(a, b)
    ensures IsWalk(g, [a] + p, a, c)
  {
  }

  lemma WalkInBlocks(g: Graph, p: seq<nat>, a: nat, b: nat)
    requires g.Valid() && IsWalk(g, p, a, b)
    ensures forall x :: x in p ==> x < |g.succ|
  {
    forall j | 0 <= j < |p|
      ensures p[j] < |g.succ|
    {
      if j > 0 {
        assert g.Edge(p[j - 1], p[j]);
      }
    }
  }

  lemma EntryReachable(g: Graph)
    requires g.Valid()
    ensures Reachable(g, 0)
  {
    assert IsPath(g, [0], 0);
  }

  lemma ReachableStep(g: Graph, a: nat, b: nat)
    requires Reachable(g, a) && g.Edge(a, b)
    ensures Reachable(g, b)
  {
    var p :| IsPath(g, p, a);
    WalkExtend(g, p, 0, a, b);
    assert IsPath(g, p + [b], b);
  }

  lemma ReachableIsBlock(g: Graph, b: nat)
    requires g.Valid() && Reachable(g, b)
    ensures b < |g.succ|
  {
    var p :| IsPath(g, p, b);
    WalkInBlocks(g, p, 0, b);
    assert p[|p| - 1] in p;
  }

  /** A path to `b` cut at the first place where it meets `stop`. */
  lemma CutAtFirst(g: Graph, p: seq<nat>, b: nat, stop: set<nat>) returns (q: seq<nat>, x: nat)
    requires IsPath(g, p, b) && exists y :: y in stop && y in p
    ensures IsPath(g, q, x) && x in stop && q <= p
    ensures forall y :: y in stop ==> y !in q[..|q| - 1]
  {
    var i := 0;
    while p[i] !in stop
      invariant i < |p| && forall j :: 0 <= j < i ==> p[j] !in stop
      decreases |p| - i
    {
      i := i + 1;
    }
    WalkPrefix(g, p, 0, b, i);
    q, x := p[..i + 1], p[i];
  }

  /** The last place where a walk meets `stop`. */
  lemma LastMeeting(p: seq<nat>, stop: set<nat>) returns (i: nat)
    requires exists y :: y in stop && y in p
    ensures i < |p| && p[i] in stop && forall y :: y in stop ==> y !in p[i + 1..]
  {
    i := |p| - 1;
    while p[i] !in stop
      invariant i < |p| && forall j :: i < j < |p| ==> p[j] !in stop
      decreases i
    {
      i := i - 1;
    }
  }

  // ----- Dominance is a partial order whose down-sets are chains -----

  lemma DomRefl(g: Graph, a: nat)
    ensures Dom(g, a, a)
  {
    forall p | IsPath(g, p, a)
      ensures a in p
    {
      assert p[|p| - 1] == a;
    }
  }

  lemma EntryDominates(g: Graph, b: nat)
    ensures Dom(g, 0, b)
  {
    forall p | IsPath(g, p, b)
      ensures 0 in p
    {
      assert p[0] == 0;
    }
  }

  lemma DomTrans(g: Graph, a: nat, b: nat, c: nat)
    requires Dom(g, a, b) && Dom(g, b, c)
    ensures Dom(g, a, c)
  {
    forall p | IsPath(g, p, c)
      ensures a in p
    {
      assert b in p;
      var i :| 0 <= i < |p| && p[i] == b;
      WalkPrefix(g, p, 0, c, i);
      assert a in p[..i + 1];
    }
  }

  lemma DomAntisym(g: Graph, a: nat, b: nat)
    requires Dom(g, a, b) && Dom(g, b, a) && Reachable(g, a)
    ensures a == b
  {
    var p :| IsPath(g, p, a);
    assert p[|p| - 1] == a;
    var q, x := CutAtFirst(g, p, a, {a, b});
    assert a in q && b in q by {
      DomRefl(g, x);
    }
    assert q == q[..|q| - 1] + [x];
  }

  /** A dominator of a reachable block is itself reachable. */
  lemma DominatorReachable(g: Graph, a: nat, b: nat)
    requires Dom(g, a, b) && Reachable(g, b)
    ensures Reachable(g, a)
  {
    var p :| IsPath(g, p, b);
    var i :| 0 <= i < |p| && p[i] == a;
    WalkPrefix(g, p, 0, b, i);
    assert IsPath(g, p[..i + 1], a);
  }

  /** The dominators of a reachable block form a chain. */
  lemma DomChain(g: Graph, a: nat, b: nat, c: nat)
    requires Dom(g, a, c) && Dom(g, b, c) && Reachable(g, c)
    ensures Dom(g, a, b) || Dom(g, b, a)
  {
    if !Dom(g, a, b) && !Dom(g, b, a) {
      var toB :| IsPath(g, toB, b) && a !in toB;
      var toA :| IsPath(g, toA, a) && b !in toA;
      var p :| IsPath(g, p, c);
      var i := LastMeeting(p, {a, b});
      var q := if p[i] == a then toA else toB;
      ChainDetour(g, p, c, i, q);
    }
  }

  lemma ChainDetour(g: Graph, p: seq<nat>, c: nat, i: nat, q: seq<nat>)
    requires IsPath(g, p, c) && i < |p| && IsPath(g, q, p[i])
    ensures IsPath(g, q + p[i + 1..], c)
  {
    if i == 0 {
      WalkConcat(g, q, p, 0, p[0], c);
    } else {
      assert g.Edge(p[i - 1], p[i]);
      if i + 1 < |p| {
        assert g.Edge(p[i], p[i + 1]);
        WalkSuffix(g, p, 0, c, i);
        WalkConcat(g, q, p[i..], 0, p[i], c);
        assert p[i..][1..] == p[i + 1..];
      } else {
        assert q + p[i + 1..] == q;
      }
    }
  }

  /** Crossing an edge: what strictly dominates the target dominates the source. */
  lemma SDomAcrossEdge(g: Graph, a: nat, b: nat, c: nat)
    requires g.Edge(b, c) && SDom(g, a, c)
    ensures Dom(g, a, b)
  {
    forall p | IsPath(g, p, b)
      ensures a in p
    {
      WalkExtend(g, p, 0, b, c);
      assert a in p + [c];
    }
  }

  /** Some path to a reachable block meets that block only at its end. */
  lemma FreshPath(g: Graph, b: nat) returns (p: seq<nat>)
    requires Reachable(g, b)
    ensures IsPath(g, p, b) && b !in p[..|p| - 1]
  {
    var q :| IsPath(g, q, b);
    assert q[|q| - 1] == b;
    var x;
    p, x := CutAtFirst(g, q, b, {b});
  }

  // ----- Depth-first search -----

  /** The finish order of a depth-first search that starts from the blocks `bs`,
      given the blocks already discovered, and all blocks discovered afterwards. */
  function Dfs(g: Graph, bs: seq<nat>, seen: set<nat>): (r: (seq<nat>, set<nat>))
    requires g.Valid() && forall i :: 0 <= i < |bs| ==> bs[i] < |g.succ|
    ensures seen <= r.1
    decreases g.Blocks() - seen, |bs|
  {
    if bs == [] then ([], seen)
    else if bs[0] in seen then Dfs(g, bs[1..], seen)
    else
      var inner := Dfs(g, g.succ[bs[0]], seen + {bs[0]});
      assert bs[0] in g.Blocks() - seen;
      var rest := Dfs(g, bs[1..], inner.1);
      (inner.0 + [bs[0]] + rest.0, rest.1)
  }

  /** The order in which a depth-first search from the entry finishes blocks. */
  function PostOrder(g: Graph): (order: seq<nat>)
    requires g.Valid()
  {
    Dfs(g, g.succ[0], {0}).0 + [0]
  }

  ghost predicate Distinct(s: seq<nat>) {
    forall i, j :: 0 <= i < j < |s| ==> s[i] != s[j]
  }

  lemma {:induction false} DfsFacts(g: Graph, bs: seq<nat>, seen: set<nat>)
    requires g.Valid() && forall i :: 0 <= i < |bs| ==> bs[i] < |g.succ|
    ensures var r := Dfs(g, bs, seen);
            && Distinct(r.0) && (forall x :: x in r.0 <==> x in r.1 && x !in seen)
            && (forall i :: 0 <= i < |bs| ==> bs[i] in r.1)
            && (forall x: nat, c: nat :: x in r.0 && g.Edge(x, c) ==> c in r.1)
    decreases g.Blocks() - seen, |bs|
  {
    if bs == [] {
    } else if bs[0] in seen {
      DfsFacts(g, bs[1..], seen);
    } else {
      var b := bs[0];
      assert b in g.Blocks() - seen;
      var inner := Dfs(g, g.succ[b], seen + {b});
      DfsFacts(g, g.succ[b], seen + {b});
      DfsFacts(g, bs[1..], inner.1);
      var rest := Dfs(g, bs[1..], inner.1);
      assert Dfs(g, bs, seen) == (inner.0 + [b] + rest.0, rest.1);
      DistinctJoin(inner.0, b, rest.0);
    }
  }

  lemma DistinctJoin(o1: seq<nat>, b: nat, o2: seq<nat>)
    requires Distinct(o1) && Distinct(o2) && b !in o1 && b !in o2
    requires forall x :: x in o1 ==> x !in o2
    ensures Distinct(o1 + [b] + o2)
  {
    var o := o1 + [b] + o2;
    forall i, j | 0 <= i < j < |o|
      ensures o[i] != o[j]
    {
      assert i < |o1| ==> o[i] in o1;
      assert j > |o1| ==> o[j] == o2[j - |o1| - 1];
      assert i > |o1| ==> o[i] == o2[i - |o1| - 1];
    }
  }

  /** Blocks finished by a search below the path `p` are reachable, and each of
      their strict dominators is on `p` or finishes later. */
  lemma {:induction false} DfsDominators(g: Graph, bs: seq<nat>, seen: set<nat>, p: seq<nat>)
    requires g.Valid() && p != [] && IsPath(g, p, p[|p| - 1])
    requires forall i :: 0 <= i < |bs| ==> g.Edge(p[|p| - 1], bs[i])
    ensures forall i :: 0 <= i < |bs| ==> bs[i] < |g.succ|
    ensures AllDominatorsLater(g, p, Dfs(g, bs, seen).0)
    decreases g.Blocks() - seen, |bs|
  {
    if bs == [] {
    } else if bs[0] in seen {
      DfsDominators(g, bs[1..], seen, p);
    } else {
      var b := bs[0];
      assert g.Edge(p[|p| - 1], b);
      assert b in g.Blocks() - seen;
      var inner := Dfs(g, g.succ[b], seen + {b});
      var rest := Dfs(g, bs[1..], inner.1);
      WalkExtend(g, p, 0, p[|p| - 1], b);
      DfsDominators(g, g.succ[b], seen + {b}, p + [b]);
      DfsDominators(g, bs[1..], inner.1, p);
      var o := inner.0 + [b] + rest.0;
      assert Dfs(g, bs, seen) == (o, rest.1);
      forall k | 0 <= k < |o|
        ensures DominatorsLater(g, p, o, k)
      {
        DfsMerge(g, p, inner.0, b, rest.0, k);
      }
    }
  }

  ghost predicate DominatorsLater(g: Graph, p: seq<nat>, o: seq<nat>, k: nat)
    requires k < |o|
  {
    Reachable(g, o[k]) && forall a :: SDom(g, a, o[k]) ==> a in p || a in o[k + 1..]
  }

  ghost predicate AllDominatorsLater(g: Graph, p: seq<nat>, o: seq<nat>) {
    forall k :: 0 <= k < |o| ==> DominatorsLater(g, p, o, k)
  }

  lemma DfsMerge(g: Graph, p: seq<nat>, o1: seq<nat>, b: nat, o2: seq<nat>, k: nat)
    requires p != [] && IsPath(g, p + [b], b)
    requires AllDominatorsLater(g, p + [b], o1) && AllDominatorsLater(g, p, o2)
    requires k < |o1| + 1 + |o2|
    ensures DominatorsLater(g, p, o1 + [b] + o2, k)
  {
    var o := o1 + [b] + o2;
    if k < |o1| {
      assert DominatorsLater(g, p + [b], o1, k);
      assert o[k + 1..] == o1[k + 1..] + [b] + o2;
    } else if k == |o1| {
      forall a | SDom(g, a, b)
        ensures a in p
      {
        assert a in p + [b];
      }
    } else {
      var i := k - |o1| - 1;
      assert DominatorsLater(g, p, o2, i);
      assert o[k + 1..] == o2[i + 1..];
    }
  }

  /** The post-order lists exactly the reachable blocks, each once, entry last. */
  lemma PostOrderFacts(g: Graph)
    requires g.Valid()
    ensures var o := PostOrder(g);
            Distinct(o) && o[|o| - 1] == 0 && forall b: nat :: b in o <==> Reachable(g, b)
  {
    DfsFacts(g, g.succ[0], {0});
    EntryReachable(g);
    assert IsPath(g, [0], 0);
    DfsDominators(g, g.succ[0], {0}, [0]);
    var o := PostOrder(g);
    forall b | b in o
      ensures Reachable(g, b)
    {
      var k :| 0 <= k < |o| && o[k] == b;
      assert k < |o| - 1 ==> DominatorsLater(g, [0], o[..|o| - 1], k);
    }
    forall b | Reachable(g, b)
      ensures b in o
    {
      var p :| IsPath(g, p, b);
      PathStaysIn(g, p, b, o);
    }
  }

  lemma {:induction false} PathStaysIn(g: Graph, p: seq<nat>, b: nat, o: seq<nat>)
    requires IsPath(g, p, b) && 0 in o
    requires forall x: nat, c: nat :: x in o && g.Edge(x, c) ==> c in o
    ensures b in o
  {
    if |p| > 1 {
      var q := p[..|p| - 1];
      WalkPrefix(g, p, 0, b, |p| - 2);
      assert p[..|p| - 2 + 1] == q;
      PathStaysIn(g, q, p[|p| - 2], o);
      assert g.Edge(p[|p| - 2], p[|p| - 1]);
    }
  }

  /** A dominated block finishes before its dominator. */
  lemma DominatedFinishesFirst(g: Graph, k: nat, m: nat)
    requires g.Valid() && k < |PostOrder(g)| && m < |PostOrder(g)|
    requires SDom(g, PostOrder(g)[m], PostOrder(g)[k])
    ensures k < m
  {
    PostOrderFacts(g);
    var o := PostOrder(g);
    var inner := Dfs(g, g.succ[0], {0}).0;
    if k < |inner| {
      assert IsPath(g, [0], 0);
      DfsDominators(g, g.succ[0], {0}, [0]);
      assert DominatorsLater(g, [0], inner, k);
      if o[m] in inner[k + 1..] {
        var i :| 0 <= i < |inner[k + 1..]| && inner[k + 1..][i] == o[m];
        assert o[k + 1 + i] == o[m];
      } else {
        assert o[m] == 0 == o[|inner|];
      }
    } else {
      assert IsPath(g, [0], 0);
    }
  }

  // ----- Successors are searched in the order in which the terminator names them -----

  ghost predicate ReachableFrom(g: Graph, bs: seq<nat>, x: nat) {
    exists i, p :: 0 <= i < |bs| && IsWalk(g, p, bs[i], x)
  }

  lemma {:induction false} DfsAppend(g: Graph, bs: seq<nat>, cs: seq<nat>, seen: set<nat>)
    requires g.Valid() && (forall i :: 0 <= i < |bs| ==> bs[i] < |g.succ|)
    requires forall i :: 0 <= i < |cs| ==> cs[i] < |g.succ|
    ensures forall i :: 0 <= i < |bs + cs| ==> (bs + cs)[i] < |g.succ|
    ensures var first := Dfs(g, bs, seen);
            var later := Dfs(g, cs, first.1);
            Dfs(g, bs + cs, seen) == (first.0 + later.0, later.1)
    decreases g.Blocks() - seen, |bs|
  {
    if bs == [] {
      assert bs + cs == cs;
      assert [] + Dfs(g, cs, seen).0 == Dfs(g, cs, seen).0;
    } else {
      assert (bs + cs)[1..] == bs[1..] + cs;
      if bs[0] in seen {
        DfsAppend(g, bs[1..], cs, seen);
      } else {
        assert bs[0] in g.Blocks() - seen;
        var inner := Dfs(g, g.succ[bs[0]], seen + {bs[0]});
        DfsAppend(g, bs[1..], cs, inner.1);
        var rest := Dfs(g, bs[1..], inner.1);
        var later := Dfs(g, cs, rest.1);
        assert Dfs(g, bs, seen) == (inner.0 + [bs[0]] + rest.0, rest.1);
        assert inner.0 + [bs[0]] + rest.0 + later.0 == inner.0 + [bs[0]] + (rest.0 + later.0);
      }
    }
  }

  /** A search finishes only blocks that can be reached from where it started. */
  lemma {:induction false} DfsOnlyReaches(g: Graph, bs: seq<nat>, seen: set<nat>, x: nat)
    requires g.Valid() && (forall i :: 0 <= i < |bs| ==> bs[i] < |g.succ|) && x in Dfs(g, bs, seen).0
    ensures ReachableFrom(g, bs, x)
    decreases g.Blocks() - seen, |bs|
  {
    if bs[0] in seen {
      DfsOnlyReaches(g, bs[1..], seen, x);
      var i, p :| 0 <= i < |bs[1..]| && IsWalk(g, p, bs[1..][i], x);
      assert bs[i + 1] == bs[1..][i];
    } else {
      var b := bs[0];
      assert b in g.Blocks() - seen;
      var inner := Dfs(g, g.succ[b], seen + {b});
      if x in inner.0 {
        DfsOnlyReaches(g, g.succ[b], seen + {b}, x);
        var i, p :| 0 <= i < |g.succ[b]| && IsWalk(g, p, g.succ[b][i], x);
        WalkCons(g, p, b, g.succ[b][i], x);
        assert IsWalk(g, [b] + p, bs[0], x);
      } else if x == b {
        assert IsWalk(g, [b], bs[0], x);
      } else {
        DfsOnlyReaches(g, bs[1..], inner.1, x);
        var i, p :| 0 <= i < |bs[1..]| && IsWalk(g, p, bs[1..][i], x);
        assert bs[i + 1] == bs[1..][i];
      }
    }
  }

  lemma {:induction false} WalkStaysIn(g: Graph, p: seq<nat>, a: nat, b: nat, o: set<nat>)
    requires IsWalk(g, p, a, b) && a in o && forall x: nat, c: nat :: x in o && g.Edge(x, c) ==> c in o
    ensures b in o
  {
    if |p| > 1 {
      WalkPrefix(g, p, a, b, |p| - 2);
      WalkStaysIn(g, p[..|p| - 1], a, p[|p| - 2], o);
      assert g.Edge(p[|p| - 2], p[|p| - 1]);
    }
  }

  /** A search from the first successors of the entry finishes exactly what they reach. */
  lemma FirstPart(g: Graph, n: nat, x: nat)
    requires g.Valid() && n <= |g.succ[0]|
    ensures x in Dfs(g, g.succ[0][..n], {0}).0 <==> ReachableFrom(g, g.succ[0][..n], x)
  {
    var bs := g.succ[0][..n];
    var r := Dfs(g, bs, {0});
    DfsFacts(g, bs, {0});
    if x in r.0 {
      DfsOnlyReaches(g, bs, {0}, x);
    }
    if ReachableFrom(g, bs, x) {
      var i, p :| 0 <= i < |bs| && IsWalk(g, p, bs[i], x);
      var done := set y | y in r.1 && y != 0;
      assert forall y: nat, c: nat :: y in done && g.Edge(y, c) ==> c in done;
      WalkStaysIn(g, p, bs[i], x, done);
    }
  }

  /** What the first `n` successors of the entry reach finishes before everything else. */
  lemma EarlierSuccessorsFirst(g: Graph, n: nat, k: nat, m: nat)
    requires g.Valid() && n <= |g.succ[0]| && k < |PostOrder(g)| && m < |PostOrder(g)|
    requires ReachableFrom(g, g.succ[0][..n], PostOrder(g)[k]) && !ReachableFrom(g, g.succ[0][..n], PostOrder(g)[m])
    ensures k < m
  {
    var bs, o := g.succ[0], PostOrder(g);
    var first := Dfs(g, bs[..n], {0}).0;
    PostOrderFacts(g);
    DfsAppend(g, bs[..n], bs[n..], {0});
    assert bs[..n] + bs[n..] == bs;
    assert first <= o;
    FirstPart(g, n, o[k]);
    FirstPart(g, n, o[m]);
    var x :| 0 <= x < |first| && first[x] == o[k];
    assert o[x] == o[k] && k == x;
    assert o[..|first|] == first;
  }
}
