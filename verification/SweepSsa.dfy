/** After erasing unused instructions, the function is again well formed and in strict
    SSA form. */
module SweepSsa {
  import opened Cfg
  import opened Ir
  import opened Sweep

  /** No erased instruction has a side effect or ends a block. */
  ghost predicate Harmless(f: Function, dead: set<nat>) {
    forall b: nat, i: nat :: At(f, b, i) && f.blocks[b][i].id in dead ==> !f.blocks[b][i].IsRoot()
  }

  lemma SurvivorOrigin(f: Function, dead: set<nat>, b: nat, i: nat) returns (j: nat)
    requires At(Erased(f, dead), b, i)
    ensures At(f, b, j) && f.blocks[b][j] == Erased(f, dead).blocks[b][i] && f.blocks[b][j].id !in dead
  {
    var s := Erased(f, dead).blocks[b][i];
    assert s in Without(f.blocks[b], dead);
    WithoutMember(f.blocks[b], dead, s);
    j :| 0 <= j < |f.blocks[b]| && f.blocks[b][j] == s;
  }

  lemma ErasedUnique(f: Function, dead: set<nat>)
    requires UniqueIds(f)
    ensures UniqueIds(Erased(f, dead))
  {
    var f' := Erased(f, dead);
    forall b: nat, i: nat, c: nat, j: nat | At(f', b, i) && At(f', c, j)
      ensures SameIdSamePlace(f', b, i, c, j)
    {
      var i0 := SurvivorOrigin(f, dead, b, i);
      var j0 := SurvivorOrigin(f, dead, c, j);
      assert SameIdSamePlace(f, b, i0, c, j0);
      BlockDistinct(f, b);
      WithoutDistinct(f.blocks[b], dead);
    }
  }

  lemma ErasedShape(f: Function, dead: set<nat>, b: nat)
    requires WellFormed(f) && Harmless(f, dead) && b < |f.blocks|
    ensures BlockShape(Erased(f, dead), b)
  {
    var f' := Erased(f, dead);
    var s, r := f.blocks[b], f'.blocks[b];
    assert BlockShape(f, b) && At(f, b, |s| - 1);
    assert r == Without(s[..|s| - 1], dead) + [s[|s| - 1]];
    forall i, j | 0 <= i < j < |r|
      ensures !r[i].kind.Term? && (r[j].kind.Phi? ==> r[i].kind.Phi?)
    {
      var x, y := WithoutOrder(s, dead, i, j);
    }
    forall i | 0 <= i < |r| && r[i].kind.Phi?
      ensures PhiShape(f', b, r[i])
    {
      var j := SurvivorOrigin(f, dead, b, i);
    }
  }

  lemma ErasedUse(f: Function, dead: set<nat>, b: nat, i: nat, c: nat, j: nat)
    requires WellFormed(f) && StrictSsa(f) && IsUse(Erased(f, dead), b, i, c, j)
    ensures !Erased(f, dead).blocks[c][j].kind.Term?
    ensures Reachable(f.graph, b) ==> DefBeforeUse(Erased(f, dead), b, i, c, j)
  {
    var i0 := SurvivorOrigin(f, dead, b, i);
    var j0 := SurvivorOrigin(f, dead, c, j);
    assert IsUse(f, b, i0, c, j0);
    if Reachable(f.graph, b) {
      assert DefBeforeUse(f, b, i0, c, j0);
      if c == b && j0 < i0 {
        BlockDistinct(f, b);
        WithoutKeepsOrder(f.blocks[b], dead, j0, i0, j, i);
      }
    }
  }

  /** Erasing instructions without side effects keeps the function in strict SSA form. */
  lemma ErasingKeepsSsa(f: Function, dead: set<nat>)
    requires WellFormed(f) && StrictSsa(f) && Harmless(f, dead)
    ensures WellFormed(Erased(f, dead)) && StrictSsa(Erased(f, dead))
  {
    var f' := Erased(f, dead);
    ErasedUnique(f, dead);
    forall b: nat | b < |f'.blocks|
      ensures BlockShape(f', b)
    {
      ErasedShape(f, dead, b);
    }
    forall b: nat, i: nat, c: nat, j: nat | IsUse(f', b, i, c, j)
      ensures !f'.blocks[c][j].kind.Term?
      ensures Reachable(f.graph, b) ==> DefBeforeUse(f', b, i, c, j)
    {
      ErasedUse(f, dead, b, i, c, j);
    }
  }
}
