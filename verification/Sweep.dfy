/** The deletion sweep of dead code elimination. */
module Sweep {
  import opened Cfg
  import opened DataFlow
  import opened Ir

  function Erased(f: Function, dead: set<nat>): Function {
    f.(blocks := seq(|f.blocks|, b requires 0 <= b < |f.blocks| => Without(f.blocks[b], dead)))
  }

  /** Every user of `d` is in `dead`. */
  ghost predicate UsersGone(f: Function, dead: set<nat>, d: nat) {
    forall b: nat, i: nat :: At(f, b, i) && f.blocks[b][i].Uses(d) ==> f.blocks[b][i].id in dead
  }

  /** No surviving instruction refers to an erased one. */
  ghost predicate Intact(f: Function, dead: set<nat>) {
    forall d :: d in dead ==> UsersGone(f, dead, d)
  }

  // ----- What is queued for deletion, and what of it is erased -----

  function LiveAt(res: map<nat, BlockResult>, b: nat): set<nat> {
    if b in res then res[b].inSet else {}
  }

  predicate Doomed(s: Instr, live: set<nat>) {
    !s.IsRoot() && s.id !in live
  }

  /** The doomed instructions of a block, last one first. */
  function DeleteList(s: seq<Instr>, live: set<nat>): (q: seq<Instr>) {
    if s == [] then []
    else (if Doomed(s[|s| - 1], live) then [s[|s| - 1]] else []) + DeleteList(s[..|s| - 1], live)
  }

  lemma DeleteListLast(s: seq<Instr>, i: nat, live: set<nat>, done: seq<Instr>)
    requires i < |s|
    ensures done + DeleteList(s[..i + 1], live) ==
            (if Doomed(s[i], live) then done + [s[i]] else done) + DeleteList(s[..i], live)
  {
    var t := s[..i + 1];
    assert t[..|t| - 1] == s[..i] && t[|t| - 1] == s[i];
  }

  lemma {:induction false} DeleteListMember(s: seq<Instr>, live: set<nat>, x: Instr)
    ensures x in DeleteList(s, live) <==> x in s && Doomed(x, live)
  {
    if s != [] {
      DeleteListMember(s[..|s| - 1], live, x);
      assert s == s[..|s| - 1] + [s[|s| - 1]];
    }
  }

  /** The instructions in the order in which the sweep tries to erase them. */
  function Queue(f: Function, order: seq<nat>, res: map<nat, BlockResult>): seq<Instr>
    requires forall k :: 0 <= k < |order| ==> order[k] < |f.blocks|
  {
    if order == [] then []
    else
      var b := order[|order| - 1];
      Queue(f, order[..|order| - 1], res) + DeleteList(f.blocks[b], LiveAt(res, b))
  }

  /** The ids erased by trying the queue in order: an instruction goes exactly when no
      surviving instruction uses it at that moment. */
  ghost function ErasedBy(f: Function, q: seq<Instr>): set<nat> {
    if q == [] then {}
    else
      var dead, d := ErasedBy(f, q[..|q| - 1]), q[|q| - 1].id;
      if UsersGone(f, dead, d) then dead + {d} else dead
  }

  lemma {:induction false} ErasedIsQueued(f: Function, q: seq<Instr>)
    ensures ErasedBy(f, q) <= Ids(q)
  {
    if q != [] {
      var front := q[..|q| - 1];
      ErasedIsQueued(f, front);
      assert forall k :: 0 <= k < |front| ==> front[k] == q[k];
      forall d | d in ErasedBy(f, q)
        ensures d in Ids(q)
      {
        if d in ErasedBy(f, front) {
          var k :| 0 <= k < |front| && front[k].id == d;
          assert q[k].id == d;
        }
      }
    }
  }

  /** Integrity at every point of the sweep. */
  lemma {:induction false} SweepIntact(f: Function, q: seq<Instr>)
    ensures Intact(f, ErasedBy(f, q))
  {
    if q != [] {
      SweepIntact(f, q[..|q| - 1]);
      var dead := ErasedBy(f, q[..|q| - 1]);
      forall d | d in ErasedBy(f, q)
        ensures UsersGone(f, ErasedBy(f, q), d)
      {
        assert UsersGone(f, dead, d);
      }
    }
  }

  // ----- The sweep -----

  predicate UseEmpty(blocks: seq<seq<Instr>>, d: nat) {
    forall b, i :: 0 <= b < |blocks| && 0 <= i < |blocks[b]| ==> !blocks[b][i].Uses(d)
  }

  lemma UseEmptyIsUsersGone(f: Function, dead: set<nat>, d: nat)
    ensures UseEmpty(Erased(f, dead).blocks, d) <==> UsersGone(f, dead, d)
  {
    var kept := Erased(f, dead).blocks;
    if UseEmpty(kept, d) {
      forall b: nat, i: nat | At(f, b, i) && f.blocks[b][i].Uses(d)
        ensures f.blocks[b][i].id in dead
      {
        assert f.blocks[b][i] in f.blocks[b];
        assert f.blocks[b][i] !in kept[b];
        WithoutMember(f.blocks[b], dead, f.blocks[b][i]);
      }
    }
    if UsersGone(f, dead, d) {
      forall b, i | 0 <= b < |kept| && 0 <= i < |kept[b]|
        ensures !kept[b][i].Uses(d)
      {
        assert kept[b][i] in Without(f.blocks[b], dead);
        WithoutMember(f.blocks[b], dead, kept[b][i]);
        var k :| 0 <= k < |f.blocks[b]| && f.blocks[b][k] == kept[b][i];
        assert At(f, b, k);
      }
    }
  }

  lemma EraseOneMore(f: Function, dead: set<nat>, d: nat)
    ensures Erased(Erased(f, dead), {d}).blocks == Erased(f, dead + {d}).blocks
  {
    forall b | 0 <= b < |f.blocks|
      ensures Without(Without(f.blocks[b], dead), {d}) == Without(f.blocks[b], dead + {d})
    {
      WithoutTwice(f.blocks[b], dead, {d});
    }
  }

  lemma EraseNothing(f: Function)
    ensures Erased(f, {}).blocks == f.blocks
  {
    forall b | 0 <= b < |f.blocks|
      ensures Without(f.blocks[b], {}) == f.blocks[b]
    {
      WithoutNothing(f.blocks[b], {});
    }
  }

  /** Collect the doomed instructions of a block, walking backwards. */
  method FindDoomed(s: seq<Instr>, live: set<nat>) returns (deleteSet: seq<Instr>)
    ensures deleteSet == DeleteList(s, live)
  {
    deleteSet := [];
    var i := |s|;
    assert s[..i] == s;
    while i > 0
      invariant 0 <= i <= |s|
      invariant deleteSet + DeleteList(s[..i], live) == DeleteList(s, live)
    {
      i := i - 1;
      DeleteListLast(s, i, live, deleteSet);
      if Doomed(s[i], live) {
        deleteSet := deleteSet + [s[i]];
      }
    }
  }

  /** Erase the listed instructions that have become unused. */
  method EraseUnused(body: Body, deleteSet: seq<Instr>, ghost f: Function, ghost done: seq<Instr>)
    requires body.Fn() == Erased(f, ErasedBy(f, done)) && DistinctIds(done + deleteSet)
    modifies body
    ensures body.Fn() == Erased(f, ErasedBy(f, done + deleteSet))
    ensures TriedInTurn(f, done + deleteSet, ErasedBy(f, done + deleteSet))
  {
    assert done + deleteSet[..0] == done;
    for j := 0 to |deleteSet|
      invariant body.Fn() == Erased(f, ErasedBy(f, done + deleteSet[..j]))
    {
      var d := deleteSet[j].id;
      ghost var q := done + deleteSet[..j];
      ghost var dead := ErasedBy(f, q);
      assert done + deleteSet[..j + 1] == q + [deleteSet[j]];
      assert (q + [deleteSet[j]])[..|q|] == q;
      UseEmptyIsUsersGone(f, dead, d);
      if UseEmpty(body.blocks, d) {
        EraseOneMore(f, dead, d);
        var all := body.blocks;
        body.blocks := seq(|all|, b requires 0 <= b < |all| => Without(all[b], {d}));
        assert body.blocks == Erased(Erased(f, dead), {d}).blocks;
      }
    }
    assert deleteSet[..|deleteSet|] == deleteSet;
    ErasedInTurn(f, done + deleteSet);
  }

  /** A block not yet swept is still as it was. */
  lemma NotYetSwept(f: Function, order: seq<nat>, res: map<nat, BlockResult>, k: nat)
    requires UniqueIds(f) && Distinct(order) && k < |order| && forall x :: 0 <= x < |order| ==> order[x] < |f.blocks|
    ensures Without(f.blocks[order[k]], ErasedBy(f, Queue(f, order[..k], res))) == f.blocks[order[k]]
  {
    var b, q := order[k], Queue(f, order[..k], res);
    ErasedIsQueued(f, q);
    forall i, m | 0 <= i < |f.blocks[b]| && 0 <= m < |q|
      ensures q[m].id != f.blocks[b][i].id
    {
      var c, j := QueuedFrom(f, order[..k], res, m);
      assert SameIdSamePlace(f, b, i, order[..k][c], j);
    }
    WithoutNothing(f.blocks[b], ErasedBy(f, q));
  }

  lemma {:induction false} QueuedFrom(f: Function, order: seq<nat>, res: map<nat, BlockResult>, m: nat)
    returns (c: nat, j: nat)
    requires forall x :: 0 <= x < |order| ==> order[x] < |f.blocks|
    requires m < |Queue(f, order, res)|
    ensures c < |order| && At(f, order[c], j) && f.blocks[order[c]][j] == Queue(f, order, res)[m]
    ensures Doomed(f.blocks[order[c]][j], LiveAt(res, order[c]))
  {
    var front, b := order[..|order| - 1], order[|order| - 1];
    var q := Queue(f, front, res);
    if m < |q| {
      c, j := QueuedFrom(f, front, res, m);
    } else {
      var list := DeleteList(f.blocks[b], LiveAt(res, b));
      assert list[m - |q|] in list;
      DeleteListMember(f.blocks[b], LiveAt(res, b), list[m - |q|]);
      c := |order| - 1;
      j :| 0 <= j < |f.blocks[b]| && f.blocks[b][j] == list[m - |q|];
    }
  }

  ghost predicate Listed(f: Function, order: seq<nat>) {
    forall x :: 0 <= x < |order| ==> order[x] < |f.blocks|
  }

  lemma {:induction false} DeleteListDistinct(s: seq<Instr>, live: set<nat>)
    requires DistinctIds(s)
    ensures DistinctIds(DeleteList(s, live))
  {
    if s != [] {
      var front, last := s[..|s| - 1], s[|s| - 1];
      DeleteListDistinct(front, live);
      var rest := DeleteList(front, live);
      forall k | 0 <= k < |rest|
        ensures rest[k].id != last.id
      {
        assert rest[k] in rest;
        DeleteListMember(front, live, rest[k]);
      }
    }
  }

  lemma {:induction false} QueueDistinct(f: Function, order: seq<nat>, res: map<nat, BlockResult>)
    requires UniqueIds(f) && Listed(f, order) && Distinct(order)
    ensures DistinctIds(Queue(f, order, res))
  {
    if order != [] {
      var front, b := order[..|order| - 1], order[|order| - 1];
      QueueDistinct(f, front, res);
      var q, list := Queue(f, front, res), DeleteList(f.blocks[b], LiveAt(res, b));
      BlockDistinct(f, b);
      DeleteListDistinct(f.blocks[b], LiveAt(res, b));
      forall m, k | 0 <= m < |q| && 0 <= k < |list|
        ensures q[m].id != list[k].id
      {
        var c, j := QueuedFrom(f, front, res, m);
        assert list[k] in list;
        DeleteListMember(f.blocks[b], LiveAt(res, b), list[k]);
        var i :| 0 <= i < |f.blocks[b]| && f.blocks[b][i] == list[k];
        assert SameIdSamePlace(f, front[c], j, b, i);
      }
    }
  }

  /** The sweep over the blocks in the given order.  It reports a change as soon as it
      queues an instruction, whether or not that instruction is erased. */
  method SweepBlocks(body: Body, order: seq<nat>, res: map<nat, BlockResult>)
    returns (modified: bool, ghost dead: set<nat>)
    requires UniqueIds(body.Fn()) && Distinct(order) && Listed(body.Fn(), order)
    modifies body
    ensures body.Fn() == Erased(old(body.Fn()), dead)
    ensures TriedInTurn(old(body.Fn()), Queue(old(body.Fn()), order, res), dead)
    ensures dead == ErasedBy(old(body.Fn()), Queue(old(body.Fn()), order, res))
    ensures modified <==> Queue(old(body.Fn()), order, res) != []
  {
    modified := false;
    ghost var f := body.Fn();
    EraseNothing(f);
    for k := 0 to |order|
      invariant body.Fn() == Erased(f, ErasedBy(f, Queue(f, order[..k], res)))
      invariant modified <==> Queue(f, order[..k], res) != []
    {
      var b := order[k];
      NotYetSwept(f, order, res, k);
      var deleteSet := FindDoomed(body.blocks[b], LiveAt(res, b));
      modified := modified || deleteSet != [];
      assert order[..k + 1][..k] == order[..k];
      QueueDistinct(f, order[..k + 1], res);
      EraseUnused(body, deleteSet, f, Queue(f, order[..k], res));
    }
    assert order[..|order|] == order;
    QueueDistinct(f, order, res);
    ErasedInTurn(f, Queue(f, order, res));
    dead := ErasedBy(f, Queue(f, order, res));
  }

  // ----- Exactly what is erased -----

  /** The k-th instruction of `q` is in `dead` exactly when each of its users was tried
      before it and is in `dead` too. */
  ghost predicate RightAtTurn(f: Function, q: seq<Instr>, dead: set<nat>, k: nat)
    requires k < |q|
  {
    q[k].id in dead <==> UsersGone(f, dead * Ids(q[..k]), q[k].id)
  }

  /** `dead` is what goes when the instructions of `q` are tried in turn. */
  ghost predicate TriedInTurn(f: Function, q: seq<Instr>, dead: set<nat>) {
    dead <= Ids(q) && forall k :: 0 <= k < |q| ==> RightAtTurn(f, q, dead, k)
  }

  /** What is erased later does not change what was erased so far. */
  lemma {:induction false} ErasedSoFar(f: Function, q: seq<Instr>, k: nat)
    requires DistinctIds(q) && k <= |q|
    ensures ErasedBy(f, q[..k]) == ErasedBy(f, q) * Ids(q[..k])
    decreases |q|
  {
    if k == |q| {
      assert q[..k] == q;
      ErasedIsQueued(f, q);
    } else {
      var front := q[..|q| - 1];
      assert front[..k] == q[..k];
      ErasedSoFar(f, front, k);
      assert forall i :: 0 <= i < k ==> q[..k][i] == q[i];
      assert q[|q| - 1].id !in Ids(q[..k]);
    }
  }

  lemma ErasedAtTurn(f: Function, q: seq<Instr>, k: nat)
    requires DistinctIds(q) && k < |q|
    ensures q[k].id in ErasedBy(f, q) <==> UsersGone(f, ErasedBy(f, q[..k]), q[k].id)
  {
    var t := q[..k + 1];
    assert t[..|t| - 1] == q[..k] && t[k] == q[k];
    ErasedSoFar(f, q, k + 1);
    assert t[k].id in Ids(t);
    ErasedIsQueued(f, q[..k]);
    assert q[k].id !in Ids(q[..k]);
  }

  lemma ErasedInTurn(f: Function, q: seq<Instr>)
    requires DistinctIds(q)
    ensures TriedInTurn(f, q, ErasedBy(f, q))
  {
    ErasedIsQueued(f, q);
    forall k | 0 <= k < |q|
      ensures RightAtTurn(f, q, ErasedBy(f, q), k)
    {
      ErasedSoFar(f, q, k);
      ErasedAtTurn(f, q, k);
    }
  }

  /** There is only one such set. */
  lemma {:induction false} TurnsDecide(f: Function, q: seq<Instr>, dead: set<nat>, dead': set<nat>, k: nat)
    requires TriedInTurn(f, q, dead) && TriedInTurn(f, q, dead') && k <= |q|
    ensures dead * Ids(q[..k]) == dead' * Ids(q[..k])
  {
    if k > 0 {
      TurnsDecide(f, q, dead, dead', k - 1);
      var before, d := Ids(q[..k - 1]), q[k - 1].id;
      assert q[..k] == q[..k - 1] + [q[k - 1]];
      IdsSnoc(q[..k - 1], q[k - 1]);
      assert RightAtTurn(f, q, dead, k - 1) && RightAtTurn(f, q, dead', k - 1);
      OneMoreDecided(dead, dead', before, d);
    }
  }

  lemma OneMoreDecided(dead: set<nat>, dead': set<nat>, before: set<nat>, d: nat)
    requires dead * before == dead' * before && (d in dead <==> d in dead')
    ensures dead * (before + {d}) == dead' * (before + {d})
  {
    forall x | x in before
      ensures x in dead <==> x in dead'
    {
      assert x in dead * before <==> x in dead' * before;
    }
  }

  // ----- When the sweep is complete -----

  /** Every user of a queued instruction stands earlier in the queue. */
  ghost predicate UsersQueuedFirst(f: Function, q: seq<Instr>) {
    forall k :: 0 <= k < |q| ==> UsersGone(f, Ids(q[..k]), q[k].id)
  }

  lemma {:induction false} ErasedMono(f: Function, q: seq<Instr>, k: nat)
    requires k <= |q|
    ensures ErasedBy(f, q[..k]) <= ErasedBy(f, q)
    decreases |q|
  {
    if k < |q| {
      ErasedMono(f, q[..|q| - 1], k);
      assert q[..|q| - 1][..k] == q[..k];
    } else {
      assert q[..k] == q;
    }
  }

  lemma {:induction false} QueueErased(f: Function, q: seq<Instr>, k: nat)
    requires UsersQueuedFirst(f, q) && k <= |q|
    ensures ErasedBy(f, q[..k]) == Ids(q[..k])
  {
    if k > 0 {
      QueueErased(f, q, k - 1);
      assert q[..k][..k - 1] == q[..k - 1];
      assert q[..k] == q[..k - 1] + [q[k - 1]];
      IdsSnoc(q[..k - 1], q[k - 1]);
      assert UsersGone(f, Ids(q[..k - 1]), q[k - 1].id);
    }
  }

  /** The sweep erases its whole queue if and only if each queued instruction comes
      after all of its users. */
  lemma SweepCompleteIff(f: Function, q: seq<Instr>)
    requires DistinctIds(q)
    ensures ErasedBy(f, q) == Ids(q) <==> UsersQueuedFirst(f, q)
  {
    assert q[..|q|] == q;
    if UsersQueuedFirst(f, q) {
      QueueErased(f, q, |q|);
    }
    if ErasedBy(f, q) == Ids(q) {
      forall k | 0 <= k < |q|
        ensures UsersGone(f, Ids(q[..k]), q[k].id)
      {
        ErasedAtTurn(f, q, k);
        ErasedIsQueued(f, q[..k]);
        assert UsersGone(f, ErasedBy(f, q[..k]), q[k].id);
      }
    }
  }

  /** Instructions that keep each other in use are never erased: a dead cycle through
      phis survives the sweep. */
  lemma {:induction false} CycleSurvives(f: Function, q: seq<Instr>, cycle: set<nat>)
    requires forall d :: d in cycle ==> UsedWithin(f, cycle, d)
    ensures forall d :: d in cycle ==> d !in ErasedBy(f, q)
  {
    if q != [] {
      CycleSurvives(f, q[..|q| - 1], cycle);
      var dead, d := ErasedBy(f, q[..|q| - 1]), q[|q| - 1].id;
      if d in cycle {
        assert !UsersGone(f, dead, d) by {
          assert UsedWithin(f, cycle, d);
          var b: nat, i: nat :| At(f, b, i) && f.blocks[b][i].Uses(d) && f.blocks[b][i].id in cycle;
        }
      }
    }
  }

  ghost predicate UsedWithin(f: Function, cycle: set<nat>, d: nat) {
    exists b: nat, i: nat :: At(f, b, i) && f.blocks[b][i].Uses(d) && f.blocks[b][i].id in cycle
  }
}
