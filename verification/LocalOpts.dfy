/** Local optimizations of one basic block and the loop that drives them. */
module LocalOpts {
  import opened StrengthReduction

  datatype Opcode = Add | Sub | Mul | UDiv | SDiv | And | Or | Xor | ShiftL | ShiftR | OtherOp(code: nat)

  /** An integer constant, by its bits, or another value. */
  datatype Value = Lit(bits: nat) | Var(id: nat)

  /** Integer binary operators, and everything else. */
  datatype Inst = Bin(id: nat, op: Opcode, width: nat, a: Value, b: Value) | Other(id: nat, uses: seq<Value>)

  /** What a pattern says about an instruction: leave it, or use a value instead. */
  datatype Verdict = Keep | Replace(v: Value)

  // ----- Algebraic identities -----

  function Algebraic(i: Inst): Verdict {
    if i.Other? then Keep
    else
      var a, b := i.a, i.b;
      match i.op
      case Add =>
        if a.Lit? then (if a.bits == 0 then Replace(b) else Keep)
        else if b == Lit(0) then Replace(a) else Keep
      case Sub =>
        if b.Lit? then (if b.bits == 0 then Replace(a) else Keep)
        else if a == b then Replace(Lit(0)) else Keep
      case Mul =>
        if b.Lit? then (if b.bits == 1 then Replace(a) else if b.bits == 0 then Replace(Lit(0)) else Keep)
        else if a == Lit(1) then Replace(b) else if a == Lit(0) then Replace(Lit(0)) else Keep
      case UDiv => Quotient(a, b)
      case SDiv => Quotient(a, b)
      case And =>
        if b.Lit? then (if b.bits == 0 then Replace(Lit(0)) else Keep)
        else if a == Lit(0) then Replace(Lit(0)) else Keep
      case Or => ZeroIsNeutral(a, b)
      case Xor => ZeroIsNeutral(a, b)
      case _ => Keep
  }

  function Quotient(a: Value, b: Value): Verdict {
    if b.Lit? then (if b.bits == 1 then Replace(a) else Keep)
    else if a.Lit? then (if a.bits == 0 then Replace(Lit(0)) else Keep)
    else if a == b then Replace(Lit(1)) else Keep
  }

  function ZeroIsNeutral(a: Value, b: Value): Verdict {
    if b.Lit? then (if b.bits == 0 then Replace(a) else Keep)
    else if a == Lit(0) then Replace(b) else Keep
  }

  // ----- Constant folding -----

  /** The folded constant, computed on sign-extended operands.  A host shift by an amount
      outside 0..63 has no defined result; `wild` stands for whatever it gives. */
  function FoldedBits(wild: (int, int) -> int, op: Opcode, w: nat, x: nat, y: nat): nat
    requires w > 0 && (op.UDiv? || op.SDiv? ==> Signed(w, y) != 0)
  {
    var sx, sy := Signed(w, x), Signed(w, y);
    Wrap(w, match op
            case Add => sx + sy
            case Sub => sx - sy
            case Mul => sx * sy
            case UDiv => TruncDiv(sx, sy)
            case SDiv => TruncDiv(sx, sy)
            case ShiftL => if 0 <= sy < 64 then sx * Pow2(sy) else wild(sx, sy)
            case ShiftR => if 0 <= sy < 64 then sx / Pow2(sy) else wild(sx, sy)
            case _ => 0)
  }

  predicate Foldable(i: Inst) {
    && i.Bin? && i.width > 0 && i.a.Lit? && i.b.Lit?
    && (i.op in {Add, Sub, Mul, ShiftL, ShiftR} || (i.op in {UDiv, SDiv} && Signed(i.width, i.b.bits) != 0))
  }

  function Folding(wild: (int, int) -> int, i: Inst): Verdict {
    if Foldable(i) then Replace(Lit(FoldedBits(wild, i.op, i.width, i.a.bits, i.b.bits))) else Keep
  }

  // ----- Replacing an instruction by a value -----

  function SubstValue(v: Value, id: nat, to: Value): Value {
    if v == Var(id) then to else v
  }

  function SubstInst(i: Inst, id: nat, to: Value): Inst {
    match i
    case Bin(d, op, w, a, b) => Bin(d, op, w, SubstValue(a, id, to), SubstValue(b, id, to))
    case Other(d, uses) => Other(d, seq(|uses|, k requires 0 <= k < |uses| => SubstValue(uses[k], id, to)))
  }

  function SubstAll(s: seq<Inst>, id: nat, to: Value): (r: seq<Inst>)
    ensures |r| == |s|
  {
    seq(|s|, k requires 0 <= k < |s| => SubstInst(s[k], id, to))
  }

  /** Remove the k-th instruction and use `to` wherever its result was used. */
  function Dropped(s: seq<Inst>, k: nat, to: Value): (r: seq<Inst>)
    requires k < |s|
    ensures |r| == |s| - 1
  {
    SubstAll(s[..k] + s[k + 1..], s[k].id, to)
  }

  /** One pass from position `k`: drop what the pattern replaces, look again at the same
      position, and step over what it keeps. */
  function Pass(pattern: Inst -> Verdict, s: seq<Inst>, k: nat): (r: seq<Inst>)
    requires k <= |s|
    ensures |r| <= |s|
    decreases |s| - k
  {
    if k == |s| then s
    else
      match pattern(s[k])
      case Keep => Pass(pattern, s, k + 1)
      case Replace(v) => Pass(pattern, Dropped(s, k, v), k)
  }

  ghost predicate NoMatch(pattern: Inst -> Verdict, s: seq<Inst>, k: nat) {
    forall i :: k <= i < |s| ==> pattern(s[i]).Keep?
  }

  /** A pass that removes nothing found nothing. */
  lemma {:induction false} PassIdle(pattern: Inst -> Verdict, s: seq<Inst>, k: nat)
    requires k <= |s|
    ensures |Pass(pattern, s, k)| == |s| <==> NoMatch(pattern, s, k)
    ensures NoMatch(pattern, s, k) ==> Pass(pattern, s, k) == s
    decreases |s| - k
  {
    if k < |s| && pattern(s[k]).Keep? {
      PassIdle(pattern, s, k + 1);
    }
  }

  // ----- Strength reduction -----

  ghost function Log(n: int): int {
    if exists k: nat :: n == Pow2(k) then (var k: nat :| n == Pow2(k); k) else -1
  }

  /** The answer of the improved logarithm for a constant: how far from a power of two,
      and its exponent. */
  ghost function NearLog(n: int): (int, int) {
    if n <= 0 then (-1, 0)
    else if Log(n) >= 0 then (0, Log(n))
    else if Log(n - 1) >= 0 then (1, Log(n - 1))
    else if Log(Increment64(n)) >= 0 then (-1, Log(Increment64(n)))
    else (-2, -1)
  }

  /** The variable and the constant of a product, the constant second if there is one. */
  function Factors(i: Inst): (Value, Value)
    requires i.Bin?
  {
    if i.a.Lit? then (i.b, i.a) else (i.a, i.b)
  }

  ghost predicate Reducible(i: Inst) {
    && i.Bin? && i.width > 0
    && match i.op
       case Mul => Factors(i).1.Lit? && NearLog(Signed(i.width, Factors(i).1.bits)).0 != -2
       case UDiv => i.b.Lit? && Log(Signed(i.width, i.b.bits)) >= 0
       case SDiv => i.b.Lit? && Log(Signed(i.width, i.b.bits)) >= 0
       case _ => false
  }

  /** The instructions that take the place of `i`; the last one keeps its id, `next` is
      used for an intermediate result. */
  ghost function ReducedInst(i: Inst, next: nat): seq<Inst> {
    if !Reducible(i) then [i]
    else if i.op.Mul? then
      var (x, c) := Factors(i);
      var (check, e) := NearLog(Signed(i.width, c.bits));
      if check == 0 then [Bin(i.id, ShiftL, i.width, x, Lit(Nat(e)))]
      else [Bin(next, ShiftL, i.width, x, Lit(Nat(e))),
          Bin(i.id, if check == 1 then Add else Sub, i.width, Var(next), x)]
    else [Bin(i.id, ShiftR, i.width, i.a, Lit(Nat(Log(Signed(i.width, i.b.bits)))))]
  }

  function Nat(e: int): nat {
    if e < 0 then 0 else e
  }

  ghost function ReducedAll(s: seq<Inst>, next: nat): (seq<Inst>, nat) {
    if s == [] then ([], next)
    else
      var (front, mid) := ReducedAll(s[..|s| - 1], next);
      var piece := ReducedInst(s[|s| - 1], mid);
      (front + piece, mid + |piece| - 1)
  }

  /** Ids and operands below `next`. */
  predicate ValueBelow(v: Value, next: nat) {
    v.Var? ==> v.id < next
  }

  ghost predicate InstBelow(i: Inst, next: nat) {
    && i.id < next
    && match i
       case Bin(_, _, w, a, b) => ValueBelow(a, next) && ValueBelow(b, next)
       case Other(_, uses) => forall k :: 0 <= k < |uses| ==> ValueBelow(uses[k], next)
  }

  ghost predicate AllBelow(s: seq<Inst>, next: nat) {
    forall k :: 0 <= k < |s| ==> InstBelow(s[k], next)
  }

  lemma LogIsLog(n: int)
    ensures Log(n) >= 0 ==> n == Pow2(Log(n))
  {
  }

  lemma {:induction false} ReducedAllGrows(s: seq<Inst>, next: nat)
    ensures next <= ReducedAll(s, next).1 && |ReducedAll(s, next).0| >= |s|
  {
    if s != [] {
      ReducedAllGrows(s[..|s| - 1], next);
    }
  }

  // ----- What is left after the last round -----

  // Stated by opcode and operands only, so that they say which instructions must go.

  /** An operator that one of the identities covers. */
  predicate IsIdentity(op: Opcode, a: Value, b: Value) {
    match op
    case Add => a == Lit(0) || (a.Var? && b == Lit(0))
    case Sub => b == Lit(0) || (b.Var? && a == b)
    case Mul => b == Lit(0) || b == Lit(1) || (b.Var? && (a == Lit(0) || a == Lit(1)))
    case UDiv => b == Lit(1) || (b.Var? && (a == Lit(0) || a == b))
    case SDiv => b == Lit(1) || (b.Var? && (a == Lit(0) || a == b))
    case And => b == Lit(0) || (b.Var? && a == Lit(0))
    case Or => b == Lit(0) || (b.Var? && a == Lit(0))
    case Xor => b == Lit(0) || (b.Var? && a == Lit(0))
    case _ => false
  }

  /** An operator on two constants whose value is computed at compile time. */
  predicate IsConstant(op: Opcode, w: nat, a: Value, b: Value)
    requires w > 0
  {
    && a.Lit? && b.Lit?
    && match op
       case UDiv => Signed(w, b.bits) != 0
       case SDiv => Signed(w, b.bits) != 0
       case And => false
       case Or => false
       case Xor => false
       case OtherOp(_) => false
       case _ => true
  }

  ghost predicate IsPowerOfTwo(n: int) {
    exists k: nat :: n == Pow2(k)
  }

  /** Not positive, or at most one away from a power of two; INT64_MAX is not recognised
      because adding 1 to it wraps around. */
  ghost predicate NearPowerOfTwo(n: int) {
    n <= 0 || IsPowerOfTwo(n) || IsPowerOfTwo(n - 1) || (IsPowerOfTwo(n + 1) && n != INT64_LIMIT - 1)
  }

  /** A product or quotient by a constant that shifts can replace. */
  ghost predicate IsShiftable(op: Opcode, w: nat, a: Value, b: Value)
    requires w > 0
  {
    match op
    case Mul => (a.Lit? && NearPowerOfTwo(Signed(w, a.bits))) || (b.Lit? && NearPowerOfTwo(Signed(w, b.bits)))
    case UDiv => b.Lit? && IsPowerOfTwo(Signed(w, b.bits))
    case SDiv => b.Lit? && IsPowerOfTwo(Signed(w, b.bits))
    case _ => false
  }

  /** None of the three kinds. */
  ghost predicate Settled(i: Inst) {
    i.Bin? && i.width > 0 ==>
      && !IsIdentity(i.op, i.a, i.b)
      && !IsConstant(i.op, i.width, i.a, i.b)
      && !IsShiftable(i.op, i.width, i.a, i.b)
  }

  /** The identities match exactly the operators listed. */
  lemma AlgebraicMatches(i: Inst)
    ensures Algebraic(i).Replace? <==> i.Bin? && IsIdentity(i.op, i.a, i.b)
  {
  }

  lemma FoldingMatches(wild: (int, int) -> int, i: Inst)
    ensures Folding(wild, i).Replace? <==> i.Bin? && i.width > 0 && IsConstant(i.op, i.width, i.a, i.b)
  {
  }

  lemma LogIsSome(n: int)
    ensures Log(n) >= 0 <==> IsPowerOfTwo(n)
  {
    if IsPowerOfTwo(n) {
      var k: nat :| n == Pow2(k);
      LogUnique(n, k);
    }
  }

  lemma NearLogIsSome(n: int)
    ensures NearLog(n).0 != -2 <==> NearPowerOfTwo(n)
  {
    LogIsSome(n);
    LogIsSome(n - 1);
    LogIsSome(Increment64(n));
    assert -INT64_LIMIT < 0;
  }

  /** An instruction is left alone exactly if no side of a product, or no divisor, is a
      constant that shifts can replace. */
  lemma ReducibleMatches(i: Inst)
    requires i.Bin? && i.width > 0 && !(i.op.Mul? && i.a.Lit? && i.b.Lit?)
    ensures Reducible(i) <==> IsShiftable(i.op, i.width, i.a, i.b)
  {
    if i.op.Mul? && i.a.Lit? {
      NearLogIsSome(Signed(i.width, i.a.bits));
    } else if i.op.Mul? && i.b.Lit? {
      NearLogIsSome(Signed(i.width, i.b.bits));
    } else if i.b.Lit? {
      LogIsSome(Signed(i.width, i.b.bits));
    }
  }

  /** No pattern matches a settled instruction, and the other way round. */
  lemma SettledMatches(wild: (int, int) -> int, i: Inst)
    requires HasWidth(i)
    ensures Settled(i) <==> Algebraic(i).Keep? && Folding(wild, i).Keep? && !Reducible(i)
  {
    AlgebraicMatches(i);
    FoldingMatches(wild, i);
    if i.Bin? && !(i.op.Mul? && i.a.Lit? && i.b.Lit?) {
      ReducibleMatches(i);
    }
  }

  ghost predicate AllSettled(s: seq<Inst>) {
    forall k :: 0 <= k < |s| ==> Settled(s[k])
  }

  /** Integer operators have a width. */
  ghost predicate HasWidth(i: Inst) {
    i.Bin? ==> i.width > 0
  }

  ghost predicate AllHaveWidth(s: seq<Inst>) {
    forall k :: 0 <= k < |s| ==> HasWidth(s[k])
  }

  /** Reducing an instruction that matches no other pattern leaves no pattern at all. */
  lemma PieceSettled(wild: (int, int) -> int, i: Inst, next: nat, mid: nat)
    requires HasWidth(i) && InstBelow(i, next) && next <= mid && Algebraic(i).Keep? && Folding(wild, i).Keep?
    ensures AllSettled(ReducedInst(i, mid)) && AllHaveWidth(ReducedInst(i, mid))
  {
    if Reducible(i) {
      if i.op.Mul? {
        var (x, c) := Factors(i);
        assert x.Var? && x.id != mid;
      } else {
        LogIsLog(Signed(i.width, i.b.bits));
        assert i.a.Var?;
      }
    } else {
      SettledMatches(wild, i);
    }
  }

  lemma {:induction false} ReductionSettles(wild: (int, int) -> int, s: seq<Inst>, next: nat)
    requires AllBelow(s, next) && NoMatch(Algebraic, s, 0) && NoMatch(i => Folding(wild, i), s, 0)
    requires AllHaveWidth(s)
    ensures AllSettled(ReducedAll(s, next).0) && AllHaveWidth(ReducedAll(s, next).0)
  {
    if s != [] {
      var front, last := s[..|s| - 1], s[|s| - 1];
      assert forall k :: 0 <= k < |front| ==> front[k] == s[k];
      assert last == s[|s| - 1] && InstBelow(last, next) && HasWidth(last);
      var fold := (i: Inst) => Folding(wild, i);
      assert Algebraic(last).Keep? && fold(last).Keep?;
      ReductionSettles(wild, front, next);
      ReducedAllGrows(front, next);
      var (done, mid) := ReducedAll(front, next);
      PieceSettled(wild, last, next, mid);
    }
  }

  ghost predicate Stays(i: Inst, next: nat) {
    ReducedInst(i, next) == [i]
  }

  lemma StaysOneMore(s: seq<Inst>, k: nat, next: nat)
    requires k < |s| && ReducedAll(s[..k], next) == (s[..k], next) && Stays(s[k], next)
    ensures ReducedAll(s[..k + 1], next) == (s[..k] + [s[k]], next)
  {
    ReducedOneMore(s, k, next);
  }

  lemma {:induction false} ReductionIdle(s: seq<Inst>, k: nat, next: nat)
    requires k <= |s| && forall i :: 0 <= i < |s| ==> Stays(s[i], next)
    ensures ReducedAll(s[..k], next) == (s[..k], next)
  {
    if k > 0 {
      ReductionIdle(s, k - 1, next);
      StaysOneMore(s, k - 1, next);
      assert s[..k] == s[..k - 1] + [s[k - 1]];
    }
  }

  // ----- The driver -----

  class Block {
    var insts: seq<Inst>
    var next: nat

    constructor (insts: seq<Inst>, next: nat)
      ensures this.insts == insts && this.next == next
    {
      this.insts := insts;
      this.next := next;
    }

    /** Replace what the algebraic identities match. */
    method AlgebraicOptimizations() returns (modified: bool)
      modifies this`insts
      ensures insts == Pass(Algebraic, old(insts), 0)
      ensures modified <==> |insts| < |old(insts)|
    {
      modified := false;
      var k := 0;
      while k < |insts|
        invariant k <= |insts| <= |old(insts)|
        invariant Pass(Algebraic, insts, k) == Pass(Algebraic, old(insts), 0)
        invariant modified <==> |insts| < |old(insts)|
        decreases |insts| - k
      {
        match Algebraic(insts[k])
        case Keep =>
          k := k + 1;
        case Replace(v) =>
          insts := Dropped(insts, k, v);
          modified := true;
      }
    }

    /** Fold operators whose operands are both constants. */
    method ConstantFolding(wild: (int, int) -> int) returns (modified: bool)
      modifies this`insts
      ensures insts == Pass(i => Folding(wild, i), old(insts), 0)
      ensures modified <==> |insts| < |old(insts)|
    {
      var fold := (i: Inst) => Folding(wild, i);
      modified := false;
      var k := 0;
      while k < |insts|
        invariant k <= |insts| <= |old(insts)|
        invariant Pass(fold, insts, k) == Pass(fold, old(insts), 0)
        invariant modified <==> |insts| < |old(insts)|
        decreases |insts| - k
      {
        match Folding(wild, insts[k])
        case Keep =>
          k := k + 1;
        case Replace(v) =>
          insts := Dropped(insts, k, v);
          modified := true;
      }
    }

    /** Replace multiplications and divisions by shifts.  The source never records that it
        replaced something, so the answer is always false. */
    method StrengthReduction() returns (modified: bool)
      modifies this
      ensures insts == ReducedAll(old(insts), old(next)).0 && next == ReducedAll(old(insts), old(next)).1
      ensures !modified
    {
      modified := false;
      ghost var before, first := insts, next;
      ghost var k := 0;
      var i := 0;
      assert before[..0] == [] && before[0..] == before;
      while i < |insts|
        invariant 0 <= k <= |before| && i == |ReducedAll(before[..k], first).0| && i <= |insts|
        invariant insts == ReducedAll(before[..k], first).0 + before[k..] && next == ReducedAll(before[..k], first).1
        decreases |before| - k
      {
        var piece := ReduceOne(insts[i], next);
        ghost var done := ReducedAll(before[..k], first).0;
        SplitAt(insts, done, before[k..]);
        ReducedOneMore(before, k, first);
        insts := insts[..i] + piece + insts[i + 1..];
        next := next + |piece| - 1;
        i := i + |piece|;
        k := k + 1;
      }
      assert before[..k] == before;
    }
  }

  lemma SplitAt(s: seq<Inst>, done: seq<Inst>, rest: seq<Inst>)
    requires s == done + rest && rest != []
    ensures s[|done|] == rest[0] && s[..|done|] == done && s[|done| + 1..] == rest[1..]
  {
  }

  lemma ReducedOneMore(s: seq<Inst>, k: nat, next: nat)
    requires k < |s|
    ensures var (front, mid) := ReducedAll(s[..k], next);
            var piece := ReducedInst(s[k], mid);
            ReducedAll(s[..k + 1], next) == (front + piece, mid + |piece| - 1)
    ensures s[k..][0] == s[k] && s[k..][1..] == s[k + 1..]
  {
    var t := s[..k + 1];
    assert t[..|t| - 1] == s[..k] && t[|t| - 1] == s[k];
  }

  lemma LogUnique(n: int, k: nat)
    requires n == Pow2(k)
    ensures Log(n) == k
  {
    var log := Log(n);
    LogIsLog(n);
    Pow2Injective(log, k);
  }

  method ExactLog(n: int) returns (log: int)
    ensures log == Log(n)
  {
    log := FindLog(n);
    if log >= 0 {
      LogUnique(n, log);
    } else {
      LogNone(n);
    }
  }

  lemma LogNone(n: int)
    requires forall k: nat :: n != Pow2(k)
    ensures Log(n) == -1
  {
  }

  /** The replacement of one instruction. */
  method ReduceOne(i: Inst, next: nat) returns (piece: seq<Inst>)
    ensures piece == ReducedInst(i, next)
  {
    piece := [i];
    if i.Bin? && i.width > 0 {
      match i.op
      case Mul =>
        var (x, c) := Factors(i);
        if c.Lit? {
          var check, e := FindLogImproved(Signed(i.width, c.bits), 0);
          NearLogUnique(Signed(i.width, c.bits), check, e);
          if check != -2 {
            if check == 0 {
              piece := [Bin(i.id, ShiftL, i.width, x, Lit(Nat(e)))];
            } else if check == 1 {
              piece := [Bin(next, ShiftL, i.width, x, Lit(Nat(e))), Bin(i.id, Add, i.width, Var(next), x)];
            } else {
              piece := [Bin(next, ShiftL, i.width, x, Lit(Nat(e))), Bin(i.id, Sub, i.width, Var(next), x)];
            }
          }
        }
      case UDiv =>
        piece := ReduceDiv(i);
      case SDiv =>
        piece := ReduceDiv(i);
      case _ =>
    }
  }

  method ReduceDiv(i: Inst) returns (piece: seq<Inst>)
    requires i.Bin? && i.width > 0 && (i.op.UDiv? || i.op.SDiv?)
    ensures forall next: nat :: piece == ReducedInst(i, next)
  {
    piece := [i];
    if i.b.Lit? {
      var log := ExactLog(Signed(i.width, i.b.bits));
      if log >= 0 {
        piece := [Bin(i.id, ShiftR, i.width, i.a, Lit(log))];
      }
    }
  }

  /** The answer of the improved logarithm is determined by what it promises. */
  lemma NearLogUnique(n: int, check: int, exponent: int)
    requires n <= 0 ==> check == -1 && exponent == 0
    requires n > 0 ==> check in {0, 1, -1, -2} && (check != -2 ==> NearPow2(n, check, exponent))
    requires n > 0 && check != 0 ==> forall k: nat :: n != Pow2(k)
    requires n > 0 && check != 0 && check != 1 ==> forall k: nat :: n - 1 != Pow2(k)
    requires n > 0 && check == -1 ==> n != INT64_LIMIT - 1
    requires n > 0 && check == -2 ==> forall k: nat :: Increment64(n) != Pow2(k)
    ensures NearLog(n).0 == check && (check != -2 ==> NearLog(n).1 == exponent)
  {
    if n > 0 && check != -2 {
      LogUnique(Pow2(exponent), exponent);
    }
  }

  ghost predicate IsBlock(s: seq<Inst>, next: nat) {
    AllBelow(s, next) && AllHaveWidth(s)
  }

  /** Both patterns put in place of an instruction one of its operands or a constant. */
  ghost predicate UsesOperands(pattern: Inst -> Verdict) {
    forall i, next: nat :: InstBelow(i, next) && pattern(i).Replace? ==> ValueBelow(pattern(i).v, next)
  }

  lemma DroppedIsBlock(s: seq<Inst>, next: nat, k: nat, v: Value)
    requires IsBlock(s, next) && k < |s| && ValueBelow(v, next)
    ensures IsBlock(Dropped(s, k, v), next)
  {
    var rest, r := s[..k] + s[k + 1..], Dropped(s, k, v);
    forall x | 0 <= x < |r|
      ensures InstBelow(r[x], next) && HasWidth(r[x])
    {
      assert rest[x] == if x < k then s[x] else s[x + 1];
      assert InstBelow(rest[x], next) && HasWidth(rest[x]);
    }
  }

  lemma {:induction false} PassIsBlock(pattern: Inst -> Verdict, s: seq<Inst>, next: nat, k: nat)
    requires IsBlock(s, next) && UsesOperands(pattern) && k <= |s|
    ensures IsBlock(Pass(pattern, s, k), next)
    decreases |s| - k
  {
    if k < |s| {
      assert InstBelow(s[k], next);
      match pattern(s[k])
      case Keep =>
        PassIsBlock(pattern, s, next, k + 1);
      case Replace(v) =>
        DroppedIsBlock(s, next, k, v);
        PassIsBlock(pattern, Dropped(s, k, v), next, k);
    }
  }

  /** The effect of the whole loop on a block. */
  ghost function Optimized(wild: (int, int) -> int, s: seq<Inst>, next: nat): seq<Inst>
    decreases |s|
  {
    var a := Pass(Algebraic, s, 0);
    if |a| < |s| then Optimized(wild, a, next)
    else
      var c := Pass(i => Folding(wild, i), a, 0);
      if |c| < |a| then Optimized(wild, c, next) else ReducedAll(c, next).0
  }

  /** No pattern is left in an optimized block. */
  lemma {:induction false} OptimizedIsSettled(wild: (int, int) -> int, s: seq<Inst>, next: nat)
    requires IsBlock(s, next)
    ensures AllSettled(Optimized(wild, s, next)) && AllHaveWidth(Optimized(wild, s, next))
    decreases |s|
  {
    var fold := (i: Inst) => Folding(wild, i);
    var a := Pass(Algebraic, s, 0);
    PassIsBlock(Algebraic, s, next, 0);
    if |a| < |s| {
      OptimizedIsSettled(wild, a, next);
    } else {
      PassIdle(Algebraic, s, 0);
      var c := Pass(fold, a, 0);
      PassIsBlock(fold, a, next, 0);
      if |c| < |a| {
        OptimizedIsSettled(wild, c, next);
      } else {
        PassIdle(fold, a, 0);
        ReductionSettles(wild, c, next);
      }
    }
  }

  /** A settled block stays as it is, so the optimization is idempotent. */
  lemma SettledStays(wild: (int, int) -> int, s: seq<Inst>, next: nat)
    requires AllSettled(s) && AllHaveWidth(s)
    ensures Optimized(wild, s, next) == s
  {
    var fold := (i: Inst) => Folding(wild, i);
    forall i | 0 <= i < |s|
      ensures Algebraic(s[i]).Keep? && fold(s[i]).Keep? && Stays(s[i], next)
    {
      assert Settled(s[i]) && HasWidth(s[i]);
      SettledMatches(wild, s[i]);
    }
    PassIdle(Algebraic, s, 0);
    PassIdle(fold, s, 0);
    ReductionIdle(s, |s|, next);
    assert s[..|s|] == s;
  }

  lemma OptimizedIsIdempotent(wild: (int, int) -> int, s: seq<Inst>, next: nat, next': nat)
    requires IsBlock(s, next)
    ensures Optimized(wild, Optimized(wild, s, next), next') == Optimized(wild, s, next)
  {
    OptimizedIsSettled(wild, s, next);
    SettledStays(wild, Optimized(wild, s, next), next');
  }

  /** The loop of the pass on one block.  It stops after at most one round per
      instruction and one more, runs strength reduction once, and leaves no pattern. */
  method RunOnBlock(block: Block, wild: (int, int) -> int) returns (rounds: nat, reductions: nat)
    requires IsBlock(block.insts, block.next)
    modifies block
    ensures rounds <= |old(block.insts)| + 1
    ensures reductions == 1
    ensures block.insts == Optimized(wild, old(block.insts), old(block.next))
    ensures AllSettled(block.insts)
  {
    ghost var s0, n0 := block.insts, block.next;
    rounds, reductions := 0, 0;
    OptimizedIsSettled(wild, s0, n0);
    var modified := true;
    while modified
      invariant modified ==> IsBlock(block.insts, block.next) && block.next == n0 && reductions == 0
      invariant modified ==> rounds + |block.insts| <= |s0|
      invariant modified ==> Optimized(wild, block.insts, n0) == Optimized(wild, s0, n0)
      invariant !modified ==> reductions == 1 && rounds <= |s0| + 1 && block.insts == Optimized(wild, s0, n0)
      decreases modified, |block.insts|
    {
      rounds := rounds + 1;
      PassIsBlock(Algebraic, block.insts, n0, 0);
      modified := block.AlgebraicOptimizations();
      if !modified {
        PassIsBlock(i => Folding(wild, i), block.insts, n0, 0);
        modified := block.ConstantFolding(wild);
      }
      if !modified {
        modified := block.StrengthReduction();
        reductions := reductions + 1;
      }
    }
  }
}
