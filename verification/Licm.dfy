/** Loop-invariant code motion: one walk over the loop's dominator tree collects the
    invariant instructions, then they move to the preheader. */
module Licm {
  import opened Cfg
  import opened Dominance
  import opened DomTree
  import opened Loops
  import opened Ir
  import opened Hoist
  import opened HoistSsa

  // ----- The dominator tree of a natural loop -----

  lemma IDomInLoop(g: Graph, loop: Loop, a: nat, b: nat)
    requires IsNaturalLoop(g, loop) && b in loop.blocks && b != loop.header && IDom(g, a, b)
    ensures a in loop.blocks
  {
    DominatorInLoop(g, loop, a, b);
  }

  /** `visited` lists blocks in the order they were taken from the work list `todo`. */
  ghost predicate WalkOk(idom: map<nat, nat>, loop: Loop, visited: seq<nat>, todo: seq<nat>) {
    && Distinct(visited) && Distinct(todo)
    && (forall x :: x in todo ==> Waiting(idom, loop, visited, x))
    && (forall x :: x in visited ==> x in loop.blocks)
    && (forall k :: 0 <= k < |visited| ==> ParentBefore(idom, loop, visited, k))
    && (loop.header in visited || loop.header in todo)
    && (forall x :: x in loop.blocks && x != loop.header && x in idom && idom[x] in visited ==>
          x in visited || x in todo)
  }

  ghost predicate ParentBefore(idom: map<nat, nat>, loop: Loop, visited: seq<nat>, k: nat)
    requires k < |visited|
  {
    visited[k] == loop.header || (visited[k] in idom && idom[visited[k]] in visited[..k])
  }

  ghost predicate AreKids(idom: map<nat, nat>, loop: Loop, b: nat, kids: seq<nat>) {
    && Distinct(kids)
    && forall x: nat :: x in kids <==> x in loop.blocks && x != loop.header && x in idom && idom[x] == b
  }

  /** The children of a block that is only now taken have not been seen. */
  lemma KidsAreNew(idom: map<nat, nat>, loop: Loop, visited: seq<nat>, todo: seq<nat>, kids: seq<nat>, x: nat)
    requires todo != [] && WalkOk(idom, loop, visited, todo) && AreKids(idom, loop, todo[|todo| - 1], kids) && x in kids
    ensures x !in visited && x !in todo
  {
    var b := todo[|todo| - 1];
    assert b in todo && idom[x] == b;
    forall k | 0 <= k < |visited|
      ensures visited[k] != x
    {
      assert ParentBefore(idom, loop, visited, k);
    }
  }

  lemma ParentsStayBefore(idom: map<nat, nat>, loop: Loop, visited: seq<nat>, todo: seq<nat>, b: nat, k: nat)
    requires WalkOk(idom, loop, visited, todo) && b in todo && k <= |visited|
    ensures ParentBefore(idom, loop, visited + [b], k)
  {
    var more := visited + [b];
    if k < |visited| {
      assert ParentBefore(idom, loop, visited, k);
      assert more[..k] == visited[..k];
    } else {
      assert more[..k] == visited;
    }
  }

  lemma NextVisited(idom: map<nat, nat>, loop: Loop, visited: seq<nat>, todo: seq<nat>, b: nat)
    requires WalkOk(idom, loop, visited, todo) && b in todo
    ensures var more := visited + [b];
            Distinct(more) && forall k :: 0 <= k < |more| ==> ParentBefore(idom, loop, more, k)
  {
    var more := visited + [b];
    forall k | 0 <= k < |more|
      ensures ParentBefore(idom, loop, more, k)
    {
      ParentsStayBefore(idom, loop, visited, todo, b, k);
    }
  }

  /** A block still waiting has its parent among the visited. */
  ghost predicate Waiting(idom: map<nat, nat>, loop: Loop, visited: seq<nat>, x: nat) {
    x in loop.blocks && x !in visited && (x == loop.header || (x in idom && idom[x] in visited))
  }

  lemma StillWaiting(idom: map<nat, nat>, loop: Loop, visited: seq<nat>, todo: seq<nat>, kids: seq<nat>, x: nat)
    requires todo != [] && WalkOk(idom, loop, visited, todo) && AreKids(idom, loop, todo[|todo| - 1], kids)
    requires x in todo[..|todo| - 1] || x in kids
    ensures Waiting(idom, loop, visited + [todo[|todo| - 1]], x)
  {
    var b := todo[|todo| - 1];
    assert b in todo;
    if x in kids {
      KidsAreNew(idom, loop, visited, todo, kids, x);
      assert idom[x] == b;
    } else {
      var k :| 0 <= k < |todo| - 1 && todo[k] == x;
      assert Waiting(idom, loop, visited, x) && x != b;
    }
  }

  lemma NextTodo(idom: map<nat, nat>, loop: Loop, visited: seq<nat>, todo: seq<nat>, kids: seq<nat>)
    requires todo != [] && WalkOk(idom, loop, visited, todo) && AreKids(idom, loop, todo[|todo| - 1], kids)
    ensures var rest := todo[..|todo| - 1] + kids;
            Distinct(rest) && forall x :: x in rest ==> Waiting(idom, loop, visited + [todo[|todo| - 1]], x)
  {
    var front := todo[..|todo| - 1];
    assert Distinct(front);
    forall x | x in kids
      ensures x !in front
    {
      KidsAreNew(idom, loop, visited, todo, kids, x);
    }
    DistinctAppend(front, kids);
    forall x | x in front + kids
      ensures Waiting(idom, loop, visited + [todo[|todo| - 1]], x)
    {
      StillWaiting(idom, loop, visited, todo, kids, x);
    }
  }

  /** Taking the last block of the work list and pushing its children. */
  lemma WalkStep(idom: map<nat, nat>, loop: Loop, visited: seq<nat>, todo: seq<nat>, kids: seq<nat>)
    requires todo != [] && WalkOk(idom, loop, visited, todo) && AreKids(idom, loop, todo[|todo| - 1], kids)
    ensures WalkOk(idom, loop, visited + [todo[|todo| - 1]], todo[..|todo| - 1] + kids)
  {
    NextVisited(idom, loop, visited, todo, todo[|todo| - 1]);
    NextTodo(idom, loop, visited, todo, kids);
    WalkCovers(idom, loop, visited, todo, kids);
  }

  lemma WalkCovers(idom: map<nat, nat>, loop: Loop, visited: seq<nat>, todo: seq<nat>, kids: seq<nat>)
    requires todo != [] && WalkOk(idom, loop, visited, todo) && AreKids(idom, loop, todo[|todo| - 1], kids)
    ensures var more, rest := visited + [todo[|todo| - 1]], todo[..|todo| - 1] + kids;
            && (loop.header in more || loop.header in rest)
            && (forall x :: x in loop.blocks && x != loop.header && x in idom && idom[x] in more ==>
                  x in more || x in rest)
  {
    var b, front := todo[|todo| - 1], todo[..|todo| - 1];
    assert todo == front + [b];
  }

  lemma DistinctAppend(s: seq<nat>, t: seq<nat>)
    requires Distinct(s) && Distinct(t) && forall x :: x in t ==> x !in s
    ensures Distinct(s + t)
  {
    var r := s + t;
    forall i, j | 0 <= i < j < |r|
      ensures r[i] != r[j]
    {
      assert j >= |s| ==> r[j] in t;
    }
  }

  /** When the work list is empty the whole loop has been visited. */
  lemma {:induction false} AllVisited(g: Graph, idom: map<nat, nat>, loop: Loop, visited: seq<nat>, b: nat)
    requires g.Valid() && IsIdomMap(g, idom) && IsNaturalLoop(g, loop) && loop.header != 0
    requires WalkOk(idom, loop, visited, []) && b in loop.blocks
    ensures b in visited
    decreases set x | x in loop.blocks && SDom(g, x, b)
  {
    if b != loop.header {
      ReachableIsBlock(g, b);
      var a := LoopParent(g, idom, loop, b);
      FewerDominators(g, loop, a, b);
      AllVisited(g, idom, loop, visited, a);
    }
  }

  /** The entry is in no loop that has a preheader, so loop blocks have parents. */
  lemma LoopParent(g: Graph, idom: map<nat, nat>, loop: Loop, b: nat) returns (a: nat)
    requires g.Valid() && IsIdomMap(g, idom) && IsNaturalLoop(g, loop) && loop.header != 0
    requires b in loop.blocks && b != loop.header
    ensures b in idom && a == idom[b] && a in loop.blocks && IDom(g, a, b)
  {
    ReachableIsBlock(g, b);
    assert b != 0 by {
      EntryHasNoDominator(g, loop.header);
    }
    a := idom[b];
    IDomInLoop(g, loop, a, b);
  }

  lemma FewerDominators(g: Graph, loop: Loop, a: nat, b: nat)
    requires IsNaturalLoop(g, loop) && a in loop.blocks && b in loop.blocks && SDom(g, a, b)
    ensures (set x | x in loop.blocks && SDom(g, x, a)) < (set x | x in loop.blocks && SDom(g, x, b))
  {
    var small, big := set x | x in loop.blocks && SDom(g, x, a), set x | x in loop.blocks && SDom(g, x, b);
    assert a in big && a !in small;
    forall x | x in small
      ensures x in big
    {
      DomTrans(g, x, a, b);
      if x == b {
        DomAntisym(g, a, b);
      }
    }
  }

  /** Dominators are visited before the blocks they dominate. */
  lemma {:induction false} DominatorsVisitedFirst(g: Graph, idom: map<nat, nat>, loop: Loop, visited: seq<nat>,
                                                  todo: seq<nat>, k: nat, c: nat)
    requires g.Valid() && IsIdomMap(g, idom) && IsNaturalLoop(g, loop) && WalkOk(idom, loop, visited, todo)
    requires k < |visited| && c in loop.blocks && SDom(g, c, visited[k])
    ensures c in visited[..k]
  {
    var b := visited[k];
    assert ParentBefore(idom, loop, visited, k);
    if b == loop.header {
      DomAntisym(g, b, c);
    } else {
      assert IDom(g, idom[b], b);
      var i :| 0 <= i < k && visited[..k][i] == idom[b];
      if c != idom[b] {
        DominatorsVisitedFirst(g, idom, loop, visited, todo, i, c);
        assert forall x :: x in visited[..i] ==> x in visited[..k];
      }
    }
  }

  // ----- Which instructions are invariant -----

  function LoopIds(f: Function, loop: Loop): (ids: set<nat>)
    ensures forall d: nat :: d in ids <==> LoopDef(f, loop, d)
  {
    var ids := set b, i | b in loop.blocks && b < |f.blocks| && 0 <= i < |f.blocks[b]| :: f.blocks[b][i].id;
    assert forall d: nat :: LoopDef(f, loop, d) ==> d in ids by {
      forall d: nat | LoopDef(f, loop, d)
        ensures d in ids
      {
        var c :| c in loop.blocks && DefinedIn(f, d, c);
        var j: nat :| At(f, c, j) && f.blocks[c][j].id == d;
      }
    }
    assert forall d: nat :: d in ids ==> LoopDef(f, loop, d) by {
      forall d: nat | d in ids
        ensures LoopDef(f, loop, d)
      {
        var b, i :| b in loop.blocks && b < |f.blocks| && 0 <= i < |f.blocks[b]| && f.blocks[b][i].id == d;
        assert At(f, b, i);
        assert DefinedIn(f, d, b);
      }
    }
    ids
  }

  /** Safe to speculate, and every operand computed in the loop is known invariant. */
  ghost predicate Eligible(f: Function, loop: Loop, known: set<nat>, s: Instr) {
    s.IsSafe() && forall d: nat :: s.Uses(d) && LoopDef(f, loop, d) ==> d in known
  }

  /** A set of values that contains every loop instruction eligible with respect to it. */
  ghost predicate ClosedUnderInvariance(f: Function, loop: Loop, known: set<nat>) {
    forall b: nat, i: nat :: b in loop.blocks && At(f, b, i) && Eligible(f, loop, known, f.blocks[b][i]) ==>
        f.blocks[b][i].id in known
  }

  /** `inv` lists the loop-invariant instructions: the least closed set, operands first. */
  ghost predicate IsInvariantList(f: Function, loop: Loop, inv: seq<Instr>) {
    && IsHoistList(f, loop, inv)
    && ClosedUnderInvariance(f, loop, Ids(inv))
    && forall known: set<nat> :: ClosedUnderInvariance(f, loop, known) ==> Ids(inv) <= known
  }

  lemma {:induction false} HoistListIsLeast(f: Function, loop: Loop, inv: seq<Instr>, known: set<nat>, n: nat)
    requires IsHoistList(f, loop, inv) && ClosedUnderInvariance(f, loop, known) && n <= |inv|
    ensures Ids(inv[..n]) <= known
  {
    if n > 0 {
      HoistListIsLeast(f, loop, inv, known, n - 1);
      var s := inv[n - 1];
      assert InLoop(f, loop, s);
      var b: nat, i: nat :| b in loop.blocks && At(f, b, i) && f.blocks[b][i] == s;
      assert Eligible(f, loop, known, s);
      assert s.id in known;
      forall d | d in Ids(inv[..n])
        ensures d in known
      {
        var k :| 0 <= k < n && inv[..n][k].id == d;
        assert k < n - 1 ==> inv[..n - 1][k].id == d;
      }
    }
  }

  method IsInvariant(f: Function, loop: Loop, inv: seq<Instr>, s: Instr) returns (yes: bool)
    ensures yes <==> Eligible(f, loop, Ids(inv), s)
    ensures yes <==> (s.kind.Pure? || (s.kind.Binary? && s.kind.safe)) &&
                     forall k :: 0 <= k < |s.ops| && s.ops[k].Ref? && LoopDef(f, loop, s.ops[k].id) ==>
                       s.ops[k].id in Ids(inv)
  {
    if !s.IsSafe() {
      return false;
    }
    var inLoop := LoopIds(f, loop);
    for k := 0 to |s.ops|
      invariant forall x :: 0 <= x < k && s.ops[x].Ref? && LoopDef(f, loop, s.ops[x].id) ==> s.ops[x].id in Ids(inv)
    {
      if s.ops[k].Ref? && s.ops[k].id in inLoop && s.ops[k].id !in Ids(inv) {
        assert s.Uses(s.ops[k].id);
        return false;
      }
    }
    forall d: nat | s.Uses(d) && LoopDef(f, loop, d)
      ensures d in Ids(inv)
    {
      var x :| 0 <= x < |s.ops| && s.ops[x] == Ref(d);
    }
    return true;
  }

  // ----- Progress of the walk -----

  /** The positions looked at so far: all of the visited blocks, and the first `n`
      instructions of block `b`. */
  ghost predicate Seen(visited: seq<nat>, b: nat, n: nat, c: nat, i: nat) {
    c in visited || (c == b && i < n)
  }

  /** Every instruction looked at has been judged rightly, and nothing else is listed. */
  ghost predicate Judged(f: Function, loop: Loop, inv: seq<Instr>, visited: seq<nat>, b: nat, n: nat) {
    && IsHoistList(f, loop, inv)
    && (forall c: nat, i: nat :: c in loop.blocks && At(f, c, i) && Seen(visited, b, n, c, i) ==>
          (f.blocks[c][i].id in Ids(inv) <==> Eligible(f, loop, Ids(inv), f.blocks[c][i])))
    && (forall c: nat, i: nat :: At(f, c, i) && f.blocks[c][i].id in Ids(inv) ==> Seen(visited, b, n, c, i))
  }

  /** What is seen never uses what has not been seen yet. */
  ghost predicate SeenFirst(f: Function, loop: Loop, visited: seq<nat>, b: nat, n: nat) {
    At(f, b, n) ==>
      forall c: nat, i: nat ::
        c in loop.blocks && At(f, c, i) && Seen(visited, b, n, c, i) && !f.blocks[c][i].kind.Phi? ==>
          !f.blocks[c][i].Uses(f.blocks[b][n].id)
  }

  lemma SeenUsesSeen(g: Graph, idom: map<nat, nat>, f: Function, loop: Loop, visited: seq<nat>, todo: seq<nat>,
                     b: nat, n: nat)
    requires WellFormed(f) && StrictSsa(f) && f.graph == g && IsIdomMap(g, idom) && IsNaturalLoop(g, loop)
    requires WalkOk(idom, loop, visited, todo) && b in loop.blocks && b !in visited
    ensures SeenFirst(f, loop, visited, b, n)
  {
    forall c: nat, i: nat | c in loop.blocks && At(f, c, i) && Seen(visited, b, n, c, i) &&
        !f.blocks[c][i].kind.Phi? && At(f, b, n)
      ensures !f.blocks[c][i].Uses(f.blocks[b][n].id)
    {
      if f.blocks[c][i].Uses(f.blocks[b][n].id) {
        assert IsUse(f, c, i, b, n);
        assert DefBeforeUse(f, c, i, b, n);
        if c in visited {
          var k :| 0 <= k < |visited| && visited[k] == c;
          DominatorsVisitedFirst(g, idom, loop, visited, todo, k, b);
        }
      }
    }
  }

  lemma JudgeNext(f: Function, loop: Loop, inv: seq<Instr>, visited: seq<nat>, b: nat, n: nat)
    requires WellFormed(f) && b in loop.blocks && b !in visited && At(f, b, n)
    requires Judged(f, loop, inv, visited, b, n) && SeenFirst(f, loop, visited, b, n)
    requires !f.blocks[b][n].Uses(f.blocks[b][n].id) || f.blocks[b][n].kind.Phi?
    ensures var s := f.blocks[b][n];
            Judged(f, loop, if Eligible(f, loop, Ids(inv), s) then inv + [s] else inv, visited, b, n + 1)
  {
    var s := f.blocks[b][n];
    assert !Seen(visited, b, n, b, n);
    if Eligible(f, loop, Ids(inv), s) {
      var more := inv + [s];
      ExtendHoistList(f, loop, inv, b, n);
      IdsSnoc(inv, s);
      forall c: nat, i: nat | c in loop.blocks && At(f, c, i) && Seen(visited, b, n + 1, c, i)
        ensures f.blocks[c][i].id in Ids(more) <==> Eligible(f, loop, Ids(more), f.blocks[c][i])
      {
        assert SameIdSamePlace(f, c, i, b, n);
        assert Seen(visited, b, n, c, i) || (c == b && i == n);
      }
      forall c: nat, i: nat | At(f, c, i) && f.blocks[c][i].id in Ids(more)
        ensures Seen(visited, b, n + 1, c, i)
      {
        assert SameIdSamePlace(f, c, i, b, n);
      }
    } else {
      forall c: nat, i: nat | c in loop.blocks && At(f, c, i) && Seen(visited, b, n + 1, c, i)
        ensures f.blocks[c][i].id in Ids(inv) <==> Eligible(f, loop, Ids(inv), f.blocks[c][i])
      {
        assert Seen(visited, b, n, c, i) || (c == b && i == n);
      }
    }
  }

  lemma ExtendHoistList(f: Function, loop: Loop, inv: seq<Instr>, b: nat, n: nat)
    requires IsHoistList(f, loop, inv) && b in loop.blocks && At(f, b, n) && f.blocks[b][n].id !in Ids(inv)
    requires Eligible(f, loop, Ids(inv), f.blocks[b][n])
    ensures IsHoistList(f, loop, inv + [f.blocks[b][n]])
  {
    var s := f.blocks[b][n];
    var more := inv + [s];
    assert InLoop(f, loop, s);
    forall j, d: nat | 0 <= j < |more| && more[j].Uses(d) && LoopDef(f, loop, d)
      ensures d in Ids(more[..j])
    {
      assert more[..j] == inv[..j];
      assert j == |inv| ==> inv[..j] == inv;
    }
  }

  /** The outcome of the walk: the invariant instructions, or nothing because a block
      of an inner loop was met. */
  datatype Collected = Inner | Invariants(stmts: seq<Instr>)

  /** The blocks of the loop as LoopInfo lists them: header first, each once. */
  ghost predicate ListsLoop(loop: Loop, blocks: seq<nat>) {
    && blocks != [] && blocks[0] == loop.header && Distinct(blocks)
    && forall b: nat :: b in blocks <==> b in loop.blocks
  }

  /** The tree of a natural loop has a node for each block of the loop, one node above
      the header, and no other node. */
  lemma TreeHoldsLoop(g: Graph, loop: Loop, idom: map<nat, nat>, blocks: seq<nat>, r: BlockRef)
    requires g.Valid() && IsIdomMap(g, idom) && IsNaturalLoop(g, loop) && loop.header != 0 && ListsLoop(loop, blocks)
    ensures r in Mentioned(idom, blocks, |blocks|) <==> r == Null || r.b in loop.blocks
  {
    MentionedMember(idom, blocks, |blocks|, r);
    if r.Null? {
      assert ParentOf(idom, blocks, 0) == r;
    } else if r.b in loop.blocks {
      var k :| 0 <= k < |blocks| && blocks[k] == r.b;
    } else {
      forall k | 0 <= k < |blocks|
        ensures Block(blocks[k]) != r && ParentOf(idom, blocks, k) != r
      {
        assert blocks[k] in blocks;
        if k > 0 {
          var a := LoopParent(g, idom, loop, blocks[k]);
        }
      }
    }
  }

  lemma {:induction false} KidsDistinct(idom: map<nat, nat>, blocks: seq<nat>, n: nat, r: BlockRef)
    requires n <= |blocks| && Distinct(blocks)
    ensures Distinct(Kids(idom, blocks, n, r))
  {
    if n > 0 {
      KidsDistinct(idom, blocks, n - 1, r);
      KidsMember(idom, blocks, n - 1, r, blocks[n - 1]);
    }
  }

  lemma KidsAreKids(idom: map<nat, nat>, loop: Loop, blocks: seq<nat>, b: nat)
    requires ListsLoop(loop, blocks)
    ensures AreKids(idom, loop, b, Kids(idom, blocks, |blocks|, Block(b)))
  {
    KidsDistinct(idom, blocks, |blocks|, Block(b));
    forall x: nat
      ensures x in Kids(idom, blocks, |blocks|, Block(b)) <==>
              x in loop.blocks && x != loop.header && x in idom && idom[x] == b
    {
      KidsMember(idom, blocks, |blocks|, Block(b), x);
      if x in loop.blocks && x != loop.header && x in idom && idom[x] == b {
        var k :| 0 <= k < |blocks| && blocks[k] == x;
        assert ParentOf(idom, blocks, k) == Block(b);
      }
    }
  }

  lemma NoSelfUse(f: Function, b: nat, i: nat)
    requires StrictSsa(f) && Reachable(f.graph, b) && At(f, b, i)
    ensures !f.blocks[b][i].Uses(f.blocks[b][i].id) || f.blocks[b][i].kind.Phi?
  {
    if f.blocks[b][i].Uses(f.blocks[b][i].id) && !f.blocks[b][i].kind.Phi? {
      assert IsUse(f, b, i, b, i);
    }
  }

  /** Look at the instructions of one block in order. */
  method ScanBlock(f: Function, loop: Loop, b: nat, before: seq<Instr>, ghost idom: map<nat, nat>,
                   ghost visited: seq<nat>, ghost todo: seq<nat>)
    returns (inv: seq<Instr>)
    requires WellFormed(f) && StrictSsa(f) && IsNaturalLoop(f.graph, loop) && IsIdomMap(f.graph, idom)
    requires WalkOk(idom, loop, visited, todo) && b in loop.blocks && b !in visited && b < |f.blocks|
    requires Judged(f, loop, before, visited, 0, 0)
    ensures Judged(f, loop, inv, visited + [b], 0, 0)
  {
    inv := before;
    for i := 0 to |f.blocks[b]|
      invariant Judged(f, loop, inv, visited, b, i)
    {
      var s := f.blocks[b][i];
      var yes := IsInvariant(f, loop, inv, s);
      SeenUsesSeen(f.graph, idom, f, loop, visited, todo, b, i);
      NoSelfUse(f, b, i);
      JudgeNext(f, loop, inv, visited, b, i);
      if yes {
        inv := inv + [s];
      }
    }
    BlockDone(f, loop, inv, visited, b);
  }

  lemma BlockDone(f: Function, loop: Loop, inv: seq<Instr>, visited: seq<nat>, b: nat)
    requires b < |f.blocks| && Judged(f, loop, inv, visited, b, |f.blocks[b]|)
    ensures Judged(f, loop, inv, visited + [b], 0, 0)
  {
    forall c: nat, i: nat | At(f, c, i)
      ensures Seen(visited + [b], 0, 0, c, i) <==> Seen(visited, b, |f.blocks[b]|, c, i)
    {
    }
  }

  /** The work list holds the nodes of the blocks `todo`. */
  ghost predicate Stacked(lookup: Lookup, worklist: seq<DomTreeNode>, todo: seq<nat>) {
    && |worklist| == |todo|
    && forall x :: 0 <= x < |todo| ==> Block(todo[x]) in lookup && worklist[x] == lookup[Block(todo[x])]
  }

  /** Visit the block of one tree node and push the node's children. */
  method VisitNode(f: Function, loop: Loop, b: nat, n: DomTreeNode, rest: seq<DomTreeNode>, before: seq<Instr>,
                   ghost blocks: seq<nat>, ghost idom: map<nat, nat>, ghost lookup: Lookup, ghost visited: seq<nat>,
                   ghost todo: seq<nat>)
    returns (inv: seq<Instr>, worklist: seq<DomTreeNode>, ghost more: seq<nat>)
    requires WellFormed(f) && StrictSsa(f) && IsNaturalLoop(f.graph, loop) && IsIdomMap(f.graph, idom) &&
             ListsLoop(loop, blocks)
    requires TreeOk(lookup, idom, blocks, |blocks|)
    requires WalkOk(idom, loop, visited, todo) && todo != [] && todo[|todo| - 1] == b
    requires Stacked(lookup, rest + [n], todo) && Judged(f, loop, before, visited, 0, 0)
    ensures WalkOk(idom, loop, visited + [b], more) && Stacked(lookup, worklist, more)
    ensures Judged(f, loop, inv, visited + [b], 0, 0)
  {
    assert b in todo;
    ReachableIsBlock(f.graph, b);
    inv := ScanBlock(f, loop, b, before, idom, visited, todo);
    worklist := PushChildren(n, rest);
    more := todo[..|todo| - 1] + Kids(idom, blocks, |blocks|, Block(b));
    VisitStep(idom, loop, blocks, lookup, rest, n, visited, todo);
  }

  method PushChildren(n: DomTreeNode, rest: seq<DomTreeNode>) returns (worklist: seq<DomTreeNode>)
    ensures worklist == rest + n.children
  {
    worklist := rest;
    for i := 0 to |n.children|
      invariant worklist == rest + n.children[..i]
    {
      worklist := worklist + [n.children[i]];
    }
  }

  lemma VisitStep(idom: map<nat, nat>, loop: Loop, blocks: seq<nat>, lookup: Lookup, rest: seq<DomTreeNode>,
                  n: DomTreeNode, visited: seq<nat>, todo: seq<nat>)
    requires ListsLoop(loop, blocks) && TreeOk(lookup, idom, blocks, |blocks|)
    requires todo != [] && WalkOk(idom, loop, visited, todo) && Stacked(lookup, rest + [n], todo)
    ensures var b := todo[|todo| - 1];
            var more := todo[..|todo| - 1] + Kids(idom, blocks, |blocks|, Block(b));
            WalkOk(idom, loop, visited + [b], more) && Stacked(lookup, rest + n.children, more)
  {
    var b := todo[|todo| - 1];
    KidsAreKids(idom, loop, blocks, b);
    WalkStep(idom, loop, visited, todo, Kids(idom, blocks, |blocks|, Block(b)));
    PushKids(idom, blocks, lookup, rest, n, todo);
  }

  lemma PushKids(idom: map<nat, nat>, blocks: seq<nat>, lookup: Lookup, rest: seq<DomTreeNode>, n: DomTreeNode,
                 todo: seq<nat>)
    requires TreeOk(lookup, idom, blocks, |blocks|) && todo != [] && Stacked(lookup, rest + [n], todo)
    ensures Stacked(lookup, rest + n.children,
            todo[..|todo| - 1] + Kids(idom, blocks, |blocks|, Block(todo[|todo| - 1])))
  {
    var b := todo[|todo| - 1];
    assert (rest + [n])[|todo| - 1] == n;
    assert NodeOk(lookup, idom, blocks, |blocks|, Block(b));
    StackPop(lookup, rest, n, todo);
    StackAppend(lookup, rest, todo[..|todo| - 1], n.children, Kids(idom, blocks, |blocks|, Block(b)));
  }

  lemma StackPop(lookup: Lookup, rest: seq<DomTreeNode>, n: DomTreeNode, todo: seq<nat>)
    requires todo != [] && Stacked(lookup, rest + [n], todo)
    ensures Stacked(lookup, rest, todo[..|todo| - 1])
  {
    assert forall x :: 0 <= x < |rest| ==> (rest + [n])[x] == rest[x];
  }

  lemma StackAppend(lookup: Lookup, s: seq<DomTreeNode>, a: seq<nat>, t: seq<DomTreeNode>, b: seq<nat>)
    requires Stacked(lookup, s, a) && Stacked(lookup, t, b)
    ensures Stacked(lookup, s + t, a + b)
  {
  }

  lemma TopOfStack(idom: map<nat, nat>, loop: Loop, blocks: seq<nat>, lookup: Lookup, worklist: seq<DomTreeNode>,
                   visited: seq<nat>, todo: seq<nat>)
    requires TreeOk(lookup, idom, blocks, |blocks|) && Stacked(lookup, worklist, todo) && worklist != []
    requires WalkOk(idom, loop, visited, todo)
    ensures worklist[|worklist| - 1].block == Block(todo[|todo| - 1])
    ensures todo[|todo| - 1] in loop.blocks && todo[|todo| - 1] !in visited
  {
    var b := todo[|todo| - 1];
    assert NodeOk(lookup, idom, blocks, |blocks|, Block(b));
    assert b in todo;
  }

  /** The stack-driven walk over the dominator tree. */
  method Collect(f: Function, loop: Loop, root: DomTreeNode, nested: set<nat>,
                 ghost blocks: seq<nat>, ghost idom: map<nat, nat>, ghost lookup: Lookup)
    returns (r: Collected, ghost visited: seq<nat>)
    requires WellFormed(f) && StrictSsa(f) && IsNaturalLoop(f.graph, loop) && loop.header != 0
    requires IsIdomMap(f.graph, idom) && ListsLoop(loop, blocks)
    requires TreeOk(lookup, idom, blocks, |blocks|) && Block(loop.header) in lookup &&
             root == lookup[Block(loop.header)]
    ensures r.Inner? <==> nested * loop.blocks != {}
    ensures r.Invariants? ==> IsInvariantList(f, loop, r.stmts) && DominatorFirst(f.graph, loop, visited)
  {
    var worklist := [root];
    var inv: seq<Instr> := [];
    ghost var todo: seq<nat>, left := [loop.header], loop.blocks;
    visited := [];
    WalkBegins(f, loop, idom);
    while worklist != []
      invariant Stacked(lookup, worklist, todo)
      invariant WalkOk(idom, loop, visited, todo)
      invariant Judged(f, loop, inv, visited, 0, 0)
      invariant forall x :: x in visited ==> x !in nested
      invariant forall x :: x in loop.blocks && x !in visited ==> x in left
      decreases left
    {
      var n := worklist[|worklist| - 1];
      TopOfStack(idom, loop, blocks, lookup, worklist, visited, todo);
      var b := n.block.b;
      SplitLast(worklist);
      worklist := worklist[..|worklist| - 1];
      if b in nested {
        assert b in nested * loop.blocks;
        return Inner, visited;
      }
      inv, worklist, todo := VisitNode(f, loop, b, n, worklist, inv, blocks, idom, lookup, visited, todo);
      visited, left := visited + [b], left - {b};
    }
    assert todo == [];
    WalkComplete(f, loop, inv, idom, visited);
    WalkOrder(f.graph, loop, idom, visited);
    assert nested * loop.blocks == {} by {
      assert forall x :: x in loop.blocks ==> x !in nested;
    }
    r := Invariants(inv);
  }

  /** Each block of the loop once, dominators before what they dominate. */
  ghost predicate DominatorFirst(g: Graph, loop: Loop, visited: seq<nat>) {
    && Distinct(visited) && (forall b: nat :: b in visited <==> b in loop.blocks)
    && forall k, c :: 0 <= k < |visited| && c in loop.blocks && SDom(g, c, visited[k]) ==> c in visited[..k]
  }

  lemma WalkOrder(g: Graph, loop: Loop, idom: map<nat, nat>, visited: seq<nat>)
    requires g.Valid() && IsIdomMap(g, idom) && IsNaturalLoop(g, loop) && loop.header != 0 &&
             WalkOk(idom, loop, visited, [])
    ensures DominatorFirst(g, loop, visited)
  {
    forall b | b in loop.blocks
      ensures b in visited
    {
      AllVisited(g, idom, loop, visited, b);
    }
    forall k, c | 0 <= k < |visited| && c in loop.blocks && SDom(g, c, visited[k])
      ensures c in visited[..k]
    {
      DominatorsVisitedFirst(g, idom, loop, visited, [], k, c);
    }
  }

  lemma SplitLast(s: seq<DomTreeNode>)
    requires s != []
    ensures s[..|s| - 1] + [s[|s| - 1]] == s
  {
  }

  lemma WalkBegins(f: Function, loop: Loop, idom: map<nat, nat>)
    requires loop.header in loop.blocks
    ensures WalkOk(idom, loop, [], [loop.header]) && Judged(f, loop, [], [], 0, 0)
  {
  }

  /** One walk is enough: what it has collected is the whole invariant set. */
  lemma WalkComplete(f: Function, loop: Loop, inv: seq<Instr>, idom: map<nat, nat>, visited: seq<nat>)
    requires WellFormed(f) && IsNaturalLoop(f.graph, loop) && loop.header != 0 && IsIdomMap(f.graph, idom)
    requires WalkOk(idom, loop, visited, []) && Judged(f, loop, inv, visited, 0, 0)
    ensures forall b :: b in loop.blocks ==> b in visited
    ensures IsInvariantList(f, loop, inv)
  {
    forall b | b in loop.blocks
      ensures b in visited
    {
      AllVisited(f.graph, idom, loop, visited, b);
    }
    assert ClosedUnderInvariance(f, loop, Ids(inv)) by {
      forall b: nat, i: nat | b in loop.blocks && At(f, b, i) && Eligible(f, loop, Ids(inv), f.blocks[b][i])
        ensures f.blocks[b][i].id in Ids(inv)
      {
        assert Seen(visited, 0, 0, b, i);
      }
    }
    forall known: set<nat> | ClosedUnderInvariance(f, loop, known)
      ensures Ids(inv) <= known
    {
      HoistListIsLeast(f, loop, inv, known, |inv|);
      assert inv[..|inv|] == inv;
    }
  }

  // ----- Moving -----

  lemma HoistNothing(f: Function, ph: nat)
    ensures Hoisted(f, ph, []).blocks == f.blocks
  {
    forall b | 0 <= b < |f.blocks|
      ensures HoistedBlock(f, ph, [], b) == f.blocks[b]
    {
      var s := f.blocks[b];
      if b == ph && s != [] {
        assert s[..|s| - 1] + [] + [s[|s| - 1]] == s;
      } else {
        WithoutNothing(s, Ids([]));
      }
    }
  }

  lemma HoistOneMore(f: Function, ph: nat, inv: seq<Instr>, s: Instr)
    requires ph < |f.blocks| && f.blocks[ph] != []
    ensures Hoisted(Hoisted(f, ph, inv), ph, [s]).blocks == Hoisted(f, ph, inv + [s]).blocks
  {
    var f1 := Hoisted(f, ph, inv);
    forall b: nat | b < |f.blocks|
      ensures HoistedBlock(f1, ph, [s], b) == HoistedBlock(f, ph, inv + [s], b)
    {
      var code := f.blocks[b];
      if b == ph {
        var t := code[|code| - 1];
        var mid := code[..|code| - 1] + inv + [t];
        assert mid[..|mid| - 1] == code[..|code| - 1] + inv && mid[|mid| - 1] == t;
        assert code[..|code| - 1] + inv + [s] == code[..|code| - 1] + (inv + [s]);
      } else {
        WithoutTwice(code, Ids(inv), Ids([s]));
        IdsSnoc(inv, s);
        assert Ids([s]) == {s.id} by {
          IdsSnoc([], s);
          assert [] + [s] == [s];
        }
      }
    }
  }

  /** Take `s` out of its block and put it before the last instruction of `ph`. */
  method MoveBefore(body: Body, s: Instr, ph: nat)
    requires ph < |body.blocks| && body.blocks[ph] != []
    requires forall i :: 0 <= i < |body.blocks[ph]| ==> body.blocks[ph][i].id != s.id
    modifies body
    ensures body.blocks == Hoisted(old(body.Fn()), ph, [s]).blocks
  {
    var all := body.blocks;
    WithoutNothing(all[ph], {s.id});
    body.blocks := seq(|all|, b requires 0 <= b < |all| => Without(all[b], {s.id}));
    var code := body.blocks[ph];
    body.blocks := body.blocks[ph := code[..|code| - 1] + [s] + [code[|code| - 1]]];
    assert Ids([s]) == {s.id} by {
      IdsSnoc([], s);
      assert [] + [s] == [s];
    }
  }

  method MoveAll(body: Body, inv: seq<Instr>, ph: nat, ghost loop: Loop)
    requires CanHoist(body.Fn(), loop, ph, inv)
    modifies body
    ensures body.Fn() == Hoisted(old(body.Fn()), ph, inv)
  {
    ghost var f := body.Fn();
    HoistNothing(f, ph);
    for j := 0 to |inv|
      invariant body.blocks == Hoisted(f, ph, inv[..j]).blocks
    {
      MoveStep(f, loop, ph, inv, j);
      MoveBefore(body, inv[j], ph);
    }
    assert inv[..|inv|] == inv;
  }

  lemma MoveStep(f: Function, loop: Loop, ph: nat, inv: seq<Instr>, j: nat)
    requires CanHoist(f, loop, ph, inv) && j < |inv|
    ensures var f1 := Hoisted(f, ph, inv[..j]);
            && ph < |f1.blocks| && f1.blocks[ph] != []
            && (forall i :: 0 <= i < |f1.blocks[ph]| ==> f1.blocks[ph][i].id != inv[j].id)
            && Hoisted(f1, ph, [inv[j]]).blocks == Hoisted(f, ph, inv[..j + 1]).blocks
  {
    ReachableIsBlock(f.graph, ph);
    assert BlockShape(f, ph);
    HoistOneMore(f, ph, inv[..j], inv[j]);
    assert inv[..j] + [inv[j]] == inv[..j + 1];
    PreheaderKeepsAll(f, loop, ph, inv);
    assert inv[j].id in Ids(inv);
  }

  // ----- Where the instructions are afterwards -----

  /** In `g`, no operand of `s` is computed in the loop. */
  ghost predicate OutsideOperands(g: Function, loop: Loop, s: Instr) {
    forall k :: 0 <= k < |s.ops| && s.ops[k].Ref? ==> !LoopDef(g, loop, s.ops[k].id)
  }

  /** From `f` to `g`: an instruction of the loop that may be executed speculatively and
      whose operands are constants or, in `g`, computed outside the loop, has moved to
      the preheader. */
  ghost predicate MovesInvariants(f: Function, g: Function, loop: Loop, ph: nat) {
    forall b: nat, i: nat :: b in loop.blocks && At(f, b, i) ==>
      var s := f.blocks[b][i];
      (s.kind.Pure? || (s.kind.Binary? && s.kind.safe)) && OutsideOperands(g, loop, s) ==>
        && ph < |g.blocks| && s in g.blocks[ph]
        && b < |g.blocks| && s !in g.blocks[b]
  }

  /** Every other instruction is still in its block: what is not in the loop, phis, what
      may not be executed speculatively, and what has an operand that stays in the loop. */
  ghost predicate KeepsOthers(f: Function, g: Function, loop: Loop) {
    forall b: nat, i: nat :: At(f, b, i) ==>
      var s := f.blocks[b][i];
      && b < |g.blocks|
      && (s in g.blocks[b] ||
          (b in loop.blocks && (s.kind.Pure? || (s.kind.Binary? && s.kind.safe)) && OutsideOperands(g, loop, s)))
  }

  lemma HoistedBlockKeeps(f: Function, ph: nat, inv: seq<Instr>, b: nat, s: Instr)
    requires b < |f.blocks| && s in f.blocks[b] && s.id !in Ids(inv)
    ensures s in HoistedBlock(f, ph, inv, b)
  {
    var code := f.blocks[b];
    if b == ph {
      var i :| 0 <= i < |code| && code[i] == s;
      var r := code[..|code| - 1] + inv + [code[|code| - 1]];
      assert r[if i < |code| - 1 then i else |r| - 1] == s;
    } else {
      WithoutMember(code, Ids(inv), s);
    }
  }

  lemma DefinedBefore(f: Function, ph: nat, inv: seq<Instr>, d: nat, c: nat)
    requires c != ph && DefinedIn(Hoisted(f, ph, inv), d, c)
    ensures DefinedIn(f, d, c) && d !in Ids(inv)
  {
    var g := Hoisted(f, ph, inv);
    var j: nat :| At(g, c, j) && g.blocks[c][j].id == d;
    assert g.blocks[c][j] in Without(f.blocks[c], Ids(inv));
    WithoutMember(f.blocks[c], Ids(inv), g.blocks[c][j]);
    var k :| 0 <= k < |f.blocks[c]| && f.blocks[c][k] == g.blocks[c][j];
    assert At(f, c, k);
  }

  lemma DefinedAfter(f: Function, ph: nat, inv: seq<Instr>, d: nat, c: nat)
    requires DefinedIn(f, d, c) && d !in Ids(inv)
    ensures DefinedIn(Hoisted(f, ph, inv), d, c)
  {
    var g := Hoisted(f, ph, inv);
    var j: nat :| At(f, c, j) && f.blocks[c][j].id == d;
    HoistedBlockKeeps(f, ph, inv, c, f.blocks[c][j]);
    var k :| 0 <= k < |g.blocks[c]| && g.blocks[c][k] == f.blocks[c][j];
    assert At(g, c, k);
  }

  /** A value computed in the loop afterwards was computed there before and is not moved. */
  lemma LoopDefAfter(f: Function, loop: Loop, ph: nat, inv: seq<Instr>, d: nat)
    requires ph !in loop.blocks
    ensures LoopDef(Hoisted(f, ph, inv), loop, d) <==> LoopDef(f, loop, d) && d !in Ids(inv)
  {
    if LoopDef(Hoisted(f, ph, inv), loop, d) {
      var c :| c in loop.blocks && DefinedIn(Hoisted(f, ph, inv), d, c);
      DefinedBefore(f, ph, inv, d, c);
    }
    if LoopDef(f, loop, d) && d !in Ids(inv) {
      var c :| c in loop.blocks && DefinedIn(f, d, c);
      DefinedAfter(f, ph, inv, d, c);
    }
  }

  lemma OutsideIsEligible(f: Function, loop: Loop, ph: nat, inv: seq<Instr>, s: Instr)
    requires CanHoist(f, loop, ph, inv)
    ensures OutsideOperands(Hoisted(f, ph, inv), loop, s) <==>
            forall d: nat :: s.Uses(d) && LoopDef(f, loop, d) ==> d in Ids(inv)
  {
    var g := Hoisted(f, ph, inv);
    forall d: nat | s.Uses(d)
      ensures LoopDef(g, loop, d) <==> LoopDef(f, loop, d) && d !in Ids(inv)
    {
      LoopDefAfter(f, loop, ph, inv, d);
    }
    assert forall k :: 0 <= k < |s.ops| && s.ops[k].Ref? ==> s.Uses(s.ops[k].id);
  }

  lemma InvariantsMove(f: Function, loop: Loop, ph: nat, inv: seq<Instr>)
    requires CanHoist(f, loop, ph, inv) && ClosedUnderInvariance(f, loop, Ids(inv))
    ensures MovesInvariants(f, Hoisted(f, ph, inv), loop, ph)
  {
    var g := Hoisted(f, ph, inv);
    ReachableIsBlock(f.graph, ph);
    forall b: nat, i: nat | b in loop.blocks && At(f, b, i) &&
        (f.blocks[b][i].kind.Pure? || (f.blocks[b][i].kind.Binary? && f.blocks[b][i].kind.safe)) &&
        OutsideOperands(g, loop, f.blocks[b][i])
      ensures f.blocks[b][i] in g.blocks[ph] && f.blocks[b][i] !in g.blocks[b]
    {
      var s := f.blocks[b][i];
      OutsideIsEligible(f, loop, ph, inv, s);
      assert Eligible(f, loop, Ids(inv), s);
      var j := HoistedPlace(f, loop, inv, b, i);
      var code := f.blocks[ph];
      assert BlockShape(f, ph);
      assert g.blocks[ph][|code| - 1 + j] == inv[j];
      WithoutMember(f.blocks[b], Ids(inv), s);
    }
  }

  lemma OthersStay(f: Function, loop: Loop, ph: nat, inv: seq<Instr>)
    requires CanHoist(f, loop, ph, inv)
    ensures KeepsOthers(f, Hoisted(f, ph, inv), loop)
  {
    var g := Hoisted(f, ph, inv);
    forall b: nat, i: nat | At(f, b, i) && f.blocks[b][i] !in g.blocks[b]
      ensures var s := f.blocks[b][i];
              b in loop.blocks && (s.kind.Pure? || (s.kind.Binary? && s.kind.safe)) && OutsideOperands(g, loop, s)
    {
      var s := f.blocks[b][i];
      if s.id !in Ids(inv) {
        HoistedBlockKeeps(f, ph, inv, b, s);
      }
      var j := HoistedPlace(f, loop, inv, b, i);
      OutsideIsEligible(f, loop, ph, inv, s);
      assert forall d :: d in Ids(inv[..j]) ==> d in Ids(inv);
    }
  }

  // ----- The pass -----

  /** How a run of the pass on a loop ends: the assertion on immediate dominators fires, or
      the pass reports whether it moved something. */
  datatype Outcome = Aborted | Ended(modified: bool)

  /** The pass on one loop.  It leaves a loop without a preheader, or with a loop
      inside it, alone; otherwise it moves exactly the loop-invariant instructions to
      the preheader.  Either way the function stays in SSA form and means the same. */
  method RunOnLoop(body: Body, loop: Loop, blocks: seq<nat>, preheader: BlockRef, nested: set<nat>) returns (r: Outcome)
    requires WellFormed(body.Fn()) && StrictSsa(body.Fn())
    requires IsNaturalLoop(body.graph, loop) && ListsLoop(loop, blocks)
    requires preheader.Block? ==> IsPreheader(body.graph, loop, preheader.b)
    modifies body
    ensures r.Aborted? <==> preheader.Block? && IdomClash(body.graph)
    ensures r.Aborted? || preheader.Null? || nested * loop.blocks != {} ==>
              body.blocks == old(body.blocks) && (r.Ended? ==> !r.modified)
    ensures r.Ended? && preheader.Block? && nested * loop.blocks == {} ==>
              exists inv :: IsInvariantList(old(body.Fn()), loop, inv) && (r.modified <==> inv != []) &&
                            body.Fn() == Hoisted(old(body.Fn()), preheader.b, inv)
    ensures r.Ended? && preheader.Block? && nested * loop.blocks == {} ==>
              && MovesInvariants(old(body.Fn()), body.Fn(), loop, preheader.b)
              && KeepsOthers(old(body.Fn()), body.Fn(), loop)
    ensures WellFormed(body.Fn()) && StrictSsa(body.Fn())
    ensures SameBehaviour(old(body.Fn()), body.Fn())
  {
    if preheader.Null? {
      return Ended(false);
    }
    var f := Function(body.graph, body.blocks);
    var ph := preheader.b;
    var doms := ImmediateDominators(f.graph);
    if doms.AlreadyPresent? {
      return Aborted;
    }
    var idom := doms.parent;
    var tree, lookup := GetDominanceTree(idom, blocks);
    var found, visited := Collect(f, loop, tree.root, nested, blocks, idom, lookup);
    if found.Inner? {
      return Ended(false);
    }
    MoveAll(body, found.stmts, ph, loop);
    HoistingPreservesMeaning(f, loop, ph, found.stmts);
    HoistingKeepsSsa(f, loop, ph, found.stmts);
    InvariantsMove(f, loop, ph, found.stmts);
    OthersStay(f, loop, ph, found.stmts);
    r := Ended(found.stmts != []);
  }
}
