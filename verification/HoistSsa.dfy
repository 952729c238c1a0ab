/** After hoisting, the function is again well formed and in strict SSA form. */
module HoistSsa {
  import opened Cfg
  import opened Ir
  import opened Loops
  import opened Hoist

  /** Where an instruction of the transformed function stood before. */
  lemma Origin(f: Function, loop: Loop, ph: nat, inv: seq<Instr>, b: nat, i: nat) returns (c: nat, j: nat)
    requires CanHoist(f, loop, ph, inv) && At(Hoisted(f, ph, inv), b, i)
    ensures At(f, c, j) && f.blocks[c][j] == Hoisted(f, ph, inv).blocks[b][i]
    ensures if f.blocks[c][j].id in Ids(inv) then b == ph && c in loop.blocks else c == b
  {
    var s := Hoisted(f, ph, inv).blocks[b][i];
    assert BlockShape(f, b);
    if b == ph {
      var n := |f.blocks[ph]|;
      PreheaderKeepsAll(f, loop, ph, inv);
      if i < n - 1 || i >= n - 1 + |inv| {
        c, j := ph, if i < n - 1 then i else n - 1;
      } else {
        assert s == inv[i - (n - 1)];
        assert InLoop(f, loop, s);
        c, j :| c in loop.blocks && At(f, c, j) && f.blocks[c][j] == s;
      }
    } else {
      assert s in Without(f.blocks[b], Ids(inv));
      WithoutMember(f.blocks[b], Ids(inv), s);
      c := b;
      j :| 0 <= j < |f.blocks[b]| && f.blocks[b][j] == s;
    }
  }

  lemma InsertDistinct(s: seq<Instr>, inv: seq<Instr>)
    requires s != [] && DistinctIds(s) && DistinctIds(inv)
    requires forall i, j :: 0 <= i < |s| && 0 <= j < |inv| ==> s[i].id != inv[j].id
    ensures DistinctIds(s[..|s| - 1] + inv + [s[|s| - 1]])
  {
    var n, r := |s| - 1, s[..|s| - 1] + inv + [s[|s| - 1]];
    forall x, y | 0 <= x < y < |r|
      ensures r[x].id != r[y].id
    {
      assert r[x] == if x < n then s[x] else inv[x - n];
      assert r[y] == if y < n then s[y] else if y < n + |inv| then inv[y - n] else s[n];
    }
  }

  lemma HoistedBlockDistinct(f: Function, loop: Loop, ph: nat, inv: seq<Instr>, b: nat)
    requires CanHoist(f, loop, ph, inv) && b < |f.blocks|
    ensures DistinctIds(HoistedBlock(f, ph, inv, b))
  {
    BlockDistinct(f, b);
    if b == ph {
      assert BlockShape(f, b);
      PreheaderKeepsAll(f, loop, ph, inv);
      assert forall j :: 0 <= j < |inv| ==> inv[j].id in Ids(inv);
      InsertDistinct(f.blocks[b], inv);
    } else {
      WithoutDistinct(f.blocks[b], Ids(inv));
    }
  }

  lemma HoistedUnique(f: Function, loop: Loop, ph: nat, inv: seq<Instr>)
    requires CanHoist(f, loop, ph, inv)
    ensures UniqueIds(Hoisted(f, ph, inv))
  {
    var f' := Hoisted(f, ph, inv);
    forall b: nat, i: nat, c: nat, j: nat | At(f', b, i) && At(f', c, j)
      ensures SameIdSamePlace(f', b, i, c, j)
    {
      var b0, i0 := Origin(f, loop, ph, inv, b, i);
      var c0, j0 := Origin(f, loop, ph, inv, c, j);
      assert SameIdSamePlace(f, b0, i0, c0, j0);
      HoistedBlockDistinct(f, loop, ph, inv, b);
    }
  }

  lemma HoistedShape(f: Function, loop: Loop, ph: nat, inv: seq<Instr>, b: nat)
    requires CanHoist(f, loop, ph, inv) && b < |f.blocks|
    ensures BlockShape(Hoisted(f, ph, inv), b)
  {
    var f' := Hoisted(f, ph, inv);
    var s, r := f.blocks[b], f'.blocks[b];
    assert BlockShape(f, b);
    LastStays(f, loop, ph, inv, b);
    if b == ph {
      assert forall j :: 0 <= j < |inv| ==> inv[j].IsSafe() && !inv[j].kind.Phi? && !inv[j].kind.Term?;
    } else {
      forall i, j | 0 <= i < j < |r|
        ensures !r[i].kind.Term? && (r[j].kind.Phi? ==> r[i].kind.Phi?)
      {
        var x, y := WithoutOrder(s, Ids(inv), i, j);
      }
    }
    forall i | 0 <= i < |r| && r[i].kind.Phi?
      ensures PhiShape(f', b, r[i])
    {
      PhiStays(f, loop, ph, inv, b, i);
    }
  }

  lemma PhiStays(f: Function, loop: Loop, ph: nat, inv: seq<Instr>, b: nat, i: nat)
    requires CanHoist(f, loop, ph, inv) && At(Hoisted(f, ph, inv), b, i) && Hoisted(f, ph, inv).blocks[b][i].kind.Phi?
    ensures PhiShape(f, b, Hoisted(f, ph, inv).blocks[b][i])
  {
    var c, j := Origin(f, loop, ph, inv, b, i);
    assert BlockShape(f, c);
    if f.blocks[c][j].id in Ids(inv) {
      var k := HoistedPlace(f, loop, inv, c, j);
    }
  }

  // ----- Definitions still come before uses -----

  /** A moved instruction whose operand is moved too: the operand comes first. */
  lemma MovedUseOfMoved(f: Function, loop: Loop, ph: nat, inv: seq<Instr>, i: nat, j: nat)
    requires CanHoist(f, loop, ph, inv) && IsUse(Hoisted(f, ph, inv), ph, i, ph, j)
    requires Hoisted(f, ph, inv).blocks[ph][i].id in Ids(inv) && Hoisted(f, ph, inv).blocks[ph][j].id in Ids(inv)
    ensures j < i
  {
    PreheaderIndex(f, loop, ph, inv, i);
    PreheaderIndex(f, loop, ph, inv, j);
    var n := |f.blocks[ph]|;
    if i <= j {
      MovedOperandsEarlier(f, loop, inv, i - (n - 1), j - (n - 1));
    }
  }

  /** A moved instruction whose operand stays: the operand dominates the preheader. */
  lemma MovedUseOfKept(f: Function, loop: Loop, ph: nat, inv: seq<Instr>, i: nat, c: nat, j: nat, b0: nat, i0: nat,
                       j0: nat)
    requires CanHoist(f, loop, ph, inv) && IsUse(Hoisted(f, ph, inv), ph, i, c, j)
    requires At(f, b0, i0) && f.blocks[b0][i0] == Hoisted(f, ph, inv).blocks[ph][i] &&
             f.blocks[b0][i0].id in Ids(inv) && b0 in loop.blocks
    requires At(f, c, j0) && f.blocks[c][j0] == Hoisted(f, ph, inv).blocks[c][j] && f.blocks[c][j0].id !in Ids(inv)
    ensures SDom(f.graph, c, ph) || (c == ph && j < i)
  {
    var k := HoistedPlace(f, loop, inv, b0, i0);
    assert IsUse(f, b0, i0, c, j0);
    assert DefBeforeUse(f, b0, i0, c, j0);
    assert c !in loop.blocks by {
      if c in loop.blocks {
        LoopOperandMoved(f, loop, inv, k, c, f.blocks[c][j0], f.blocks[c][j0].id);
      }
    }
    OutsideDominatesPreheader(f.graph, loop, ph, c, b0);
    if c == ph {
      PreheaderDef(f, loop, ph, inv, j);
      PreheaderIndex(f, loop, ph, inv, i);
    }
  }

  /** Moved instructions occupy the places just before the terminator. */
  lemma PreheaderIndex(f: Function, loop: Loop, ph: nat, inv: seq<Instr>, i: nat)
    requires CanHoist(f, loop, ph, inv) && At(Hoisted(f, ph, inv), ph, i) &&
             Hoisted(f, ph, inv).blocks[ph][i].id in Ids(inv)
    ensures var n := |f.blocks[ph]|; n - 1 <= i < n - 1 + |inv| && inv[i - (n - 1)] == Hoisted(f, ph, inv).blocks[ph][i]
  {
    assert BlockShape(f, ph);
    PreheaderKeepsAll(f, loop, ph, inv);
    var s := f.blocks[ph];
  }

  /** A value defined in the preheader itself stands before the moved instructions. */
  lemma PreheaderDef(f: Function, loop: Loop, ph: nat, inv: seq<Instr>, j: nat)
    requires CanHoist(f, loop, ph, inv) && At(Hoisted(f, ph, inv), ph, j)
    requires Hoisted(f, ph, inv).blocks[ph][j].id !in Ids(inv) && !Hoisted(f, ph, inv).blocks[ph][j].kind.Term?
    ensures j < |f.blocks[ph]| - 1
  {
    assert BlockShape(f, ph);
    var n := |f.blocks[ph]|;
    assert forall k :: 0 <= k < |inv| ==> inv[k].id in Ids(inv);
  }

  /** An instruction that stays, in the order of its own block. */
  lemma KeptInOrder(f: Function, loop: Loop, ph: nat, inv: seq<Instr>, b: nat, x: nat, y: nat, i: nat, j: nat)
    requires CanHoist(f, loop, ph, inv) && At(Hoisted(f, ph, inv), b, i) && At(Hoisted(f, ph, inv), b, j)
    requires x < y < |f.blocks[b]| && Hoisted(f, ph, inv).blocks[b][i] == f.blocks[b][x] &&
             Hoisted(f, ph, inv).blocks[b][j] == f.blocks[b][y]
    ensures i < j
  {
    BlockDistinct(f, b);
    if b == ph {
      assert BlockShape(f, ph);
      HoistedBlockDistinct(f, loop, ph, inv, ph);
      var n, r := |f.blocks[ph]|, Hoisted(f, ph, inv).blocks[ph];
      assert r[x] == f.blocks[ph][x];
      assert y < n - 1 ==> r[y] == f.blocks[ph][y];
      assert y == n - 1 ==> r[|r| - 1] == f.blocks[ph][y];
    } else {
      WithoutKeepsOrder(f.blocks[b], Ids(inv), x, y, i, j);
    }
  }

  lemma KeptUse(f: Function, loop: Loop, ph: nat, inv: seq<Instr>, b: nat, i: nat, c: nat, j: nat, i0: nat, c0: nat,
                j0: nat)
    requires CanHoist(f, loop, ph, inv) && IsUse(Hoisted(f, ph, inv), b, i, c, j) && Reachable(f.graph, b)
    requires At(f, b, i0) && f.blocks[b][i0] == Hoisted(f, ph, inv).blocks[b][i] && f.blocks[b][i0].id !in Ids(inv)
    requires At(f, c0, j0) && f.blocks[c0][j0] == Hoisted(f, ph, inv).blocks[c][j]
    requires if f.blocks[c0][j0].id in Ids(inv) then c == ph && c0 in loop.blocks else c0 == c
    ensures DefBeforeUse(Hoisted(f, ph, inv), b, i, c, j)
  {
    var use := f.blocks[b][i0];
    assert IsUse(f, b, i0, c0, j0);
    assert DefBeforeUse(f, b, i0, c0, j0);
    if f.blocks[c0][j0].id in Ids(inv) {
      PreheaderDominates(f.graph, loop, ph, c0);
      if use.kind.Phi? {
        forall k | 0 <= k < |use.ops| && k < |use.kind.from| && use.ops[k] == Ref(f.blocks[c0][j0].id)
          ensures Dom(f.graph, ph, use.kind.from[k])
        {
          DomTrans(f.graph, ph, c0, use.kind.from[k]);
        }
      } else {
        LoopBlockNotBeforePreheader(f.graph, loop, ph, c0);
        DomRefl(f.graph, b);
        DomTrans(f.graph, ph, c0, b);
      }
    } else if !use.kind.Phi? && c == b {
      KeptInOrder(f, loop, ph, inv, b, j0, i0, j, i);
    }
  }

  /** Hoisting keeps the function well formed and in strict SSA form. */
  lemma HoistingKeepsSsa(f: Function, loop: Loop, ph: nat, inv: seq<Instr>)
    requires CanHoist(f, loop, ph, inv)
    ensures WellFormed(Hoisted(f, ph, inv)) && StrictSsa(Hoisted(f, ph, inv))
  {
    var f' := Hoisted(f, ph, inv);
    HoistedUnique(f, loop, ph, inv);
    forall b: nat | b < |f'.blocks|
      ensures BlockShape(f', b)
    {
      HoistedShape(f, loop, ph, inv, b);
    }
    forall b: nat, i: nat, c: nat, j: nat | IsUse(f', b, i, c, j)
      ensures !f'.blocks[c][j].kind.Term?
      ensures Reachable(f.graph, b) ==> DefBeforeUse(f', b, i, c, j)
    {
      UseStays(f, loop, ph, inv, b, i, c, j);
    }
  }

  lemma UseStays(f: Function, loop: Loop, ph: nat, inv: seq<Instr>, b: nat, i: nat, c: nat, j: nat)
    requires CanHoist(f, loop, ph, inv) && IsUse(Hoisted(f, ph, inv), b, i, c, j)
    ensures !Hoisted(f, ph, inv).blocks[c][j].kind.Term?
    ensures Reachable(f.graph, b) ==> DefBeforeUse(Hoisted(f, ph, inv), b, i, c, j)
  {
    var b0, i0 := Origin(f, loop, ph, inv, b, i);
    var c0, j0 := Origin(f, loop, ph, inv, c, j);
    assert IsUse(f, b0, i0, c0, j0);
    if f.blocks[b0][i0].id in Ids(inv) {
      var k := HoistedPlace(f, loop, inv, b0, i0);
      if f.blocks[c0][j0].id in Ids(inv) {
        MovedUseOfMoved(f, loop, ph, inv, i, j);
      } else {
        MovedUseOfKept(f, loop, ph, inv, i, c, j, b0, i0, j0);
      }
    } else if Reachable(f.graph, b) {
      KeptUse(f, loop, ph, inv, b, i, c, j, i0, c0, j0);
    }
  }
}
