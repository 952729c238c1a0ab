/** The Internet checksum: summation with Duff's device and carry folding. */
module Checksum {

  type Byte = b: nat | b < 256

  /** A 16-bit word of the buffer as the host reads it. */
  function Word(hi: nat, lo: nat, little: bool): nat {
    if little then hi + 256 * lo else 256 * hi + lo
  }

  /** The words of a buffer; an odd last byte is followed by a zero byte. */
  function Words(buf: seq<Byte>, little: bool): seq<nat> {
    if |buf| == 0 then []
    else if |buf| == 1 then [Word(buf[0], 0, little)]
    else [Word(buf[0], buf[1], little)] + Words(buf[2..], little)
  }

  function Sum(ws: seq<nat>): nat {
    if ws == [] then 0 else ws[0] + Sum(ws[1..])
  }

  lemma {:induction false} SumSnoc(ws: seq<nat>, w: nat)
    ensures Sum(ws + [w]) == Sum(ws) + w
  {
    if ws == [] {
      assert ws + [w] == [w];
    } else {
      assert (ws + [w])[1..] == ws[1..] + [w];
      SumSnoc(ws[1..], w);
    }
  }

  // ----- Duff's device -----

  /** The sum of the first `n` words of memory. */
  function MemSum(mem: nat -> nat, n: nat): nat {
    if n == 0 then 0 else MemSum(mem, n - 1) + mem(n - 1)
  }

  /** The unrolled loop: the switch jumps into the body at `sn % 16`, and each further
      round adds sixteen words.  It adds each of the `sn` words exactly once, except that
      an empty buffer enters at case 0 and reads sixteen words that are not there. */
  method DuffLoop(mem: nat -> nat, sn: nat, cksum: int) returns (total: int, count: nat)
    ensures count == if sn == 0 then 16 else sn
    ensures total == cksum + MemSum(mem, count)
  {
    total, count := cksum, 0;
    var n: int := (sn + 15) / 16;
    var todo: nat := if sn % 16 == 0 then 16 else sn % 16;
    var running := true;
    while running
      invariant running ==>
                  if sn > 0 then count + todo + 16 * (n - 1) == sn && n >= 1
                  else n == 0 && count == 0 && todo == 16
      invariant !running ==> count == if sn == 0 then 16 else sn
      invariant total == cksum + MemSum(mem, count)
      decreases running, n
    {
      while todo > 0
        invariant sn > 0 ==> count + todo + 16 * (n - 1) == sn
        invariant sn == 0 ==> count + todo == 16
        invariant total == cksum + MemSum(mem, count)
      {
        total := total + mem(count);
        count := count + 1;
        todo := todo - 1;
      }
      n := n - 1;
      if n > 0 {
        todo := 16;
      } else {
        running := false;
      }
    }
  }

  function WordAt(buf: seq<Byte>, little: bool): nat -> nat {
    (k: nat) => if 2 * k + 1 < |buf| then Word(buf[2 * k], buf[2 * k + 1], little) else 0
  }

  lemma {:induction false} WordsSplit(buf: seq<Byte>, little: bool, n: nat)
    requires 2 * n <= |buf|
    ensures Sum(Words(buf, little)) == MemSum(WordAt(buf, little), n) + Sum(Words(buf[2 * n..], little))
  {
    if n == 0 {
      assert buf[0..] == buf;
    } else {
      WordsSplit(buf, little, n - 1);
      var rest := buf[2 * (n - 1)..];
      assert rest[2..] == buf[2 * n..];
      assert rest[0] == buf[2 * (n - 1)] && rest[1] == buf[2 * (n - 1) + 1];
      assert Words(rest, little) == [Word(rest[0], rest[1], little)] + Words(rest[2..], little);
    }
  }

  /** `ip_cksum_add`: for a buffer of at least two bytes, whose sum fits in a signed 32-bit
      integer, the words of the buffer are added to the running sum. */
  method CksumAdd(buf: seq<Byte>, cksum: int, little: bool) returns (r: int)
    requires |buf| >= 2 && 0 <= cksum && cksum + Sum(Words(buf, little)) < 0x8000_0000
    ensures r == cksum + Sum(Words(buf, little))
  {
    var sn := |buf| / 2;
    WordsSplit(buf, little, sn);
    var count;
    r, count := DuffLoop(WordAt(buf, little), sn, cksum);
    if |buf| % 2 == 1 {
      // htons of the byte shifted up: the byte swap undoes the shift on a little-endian host.
      var last: nat := buf[|buf| - 1];
      r := r + if little then last else 256 * last;
      assert buf[2 * sn..] == [buf[|buf| - 1]];
      assert Sum(Words(buf[2 * sn..], little)) == Word(buf[|buf| - 1], 0, little);
    } else {
      assert buf[2 * sn..] == [];
    }
  }

  // ----- Reading what the host stored -----

  /** A word stored by the host is read back, low byte first on a little-endian host; a
      trailing byte is the word that it and a zero byte after it make up. */
  lemma ReadsBack(v: nat, b: Byte)
    requires v < 0x10000
    ensures Words([v % 256, v / 256], true) == [v] && Words([v / 256, v % 256], false) == [v]
    ensures Words([b], true) == [b] && Words([b], false) == [256 * b]
  {
    var lo: Byte, hi: Byte := v % 256, v / 256;
    assert [lo, hi][2..] == [] && [hi, lo][2..] == [];
  }

  /** The bytes of a sequence of words as the host stores them. */
  function Stored(ws: seq<nat>, little: bool): seq<Byte>
    requires forall k :: 0 <= k < |ws| ==> ws[k] < 0x10000
  {
    if ws == [] then []
    else
      var lo: Byte, hi: Byte := ws[0] % 256, ws[0] / 256;
      (if little then [lo, hi] else [hi, lo]) + Stored(ws[1..], little)
  }

  /** The words of a buffer are the words that were stored in it. */
  lemma {:induction false} WordsOfStored(ws: seq<nat>, little: bool)
    requires forall k :: 0 <= k < |ws| ==> ws[k] < 0x10000
    ensures Words(Stored(ws, little), little) == ws
  {
    if ws != [] {
      var buf := Stored(ws, little);
      assert buf[2..] == Stored(ws[1..], little);
      WordsOfStored(ws[1..], little);
    }
  }

  /** And storing them gives the buffer back, a trailing byte with its zero byte. */
  lemma {:induction false} StoredWords(buf: seq<Byte>, little: bool)
    ensures forall k :: 0 <= k < |Words(buf, little)| ==> Words(buf, little)[k] < 0x10000
    ensures Stored(Words(buf, little), little) == buf + if |buf| % 2 == 1 then [0] else []
  {
    WordsFit(buf, little);
    if |buf| >= 2 {
      StoredWords(buf[2..], little);
      assert Words(buf, little)[1..] == Words(buf[2..], little);
    } else if |buf| == 1 {
      assert Words(buf, little)[1..] == [];
    }
  }

  // ----- One's complement -----

  /** Addition with end-around carry. */
  function OnesAdd(a: nat, b: nat): nat {
    if a + b > 0xffff then a + b - 0xffff else a + b
  }

  function OnesSum(ws: seq<nat>): nat {
    if ws == [] then 0 else OnesAdd(OnesSum(ws[..|ws| - 1]), ws[|ws| - 1])
  }

  /** The residue modulo 65535 in 1..65535, with 0 for 0 only. */
  function Residue(x: nat): (r: nat)
    ensures r <= 0xffff && (r == 0 <==> x == 0)
  {
    if x == 0 then 0 else (x - 1) % 0xffff + 1
  }

  lemma ResidueUnique(x: nat, q: nat, r: nat)
    requires x == 0xffff * q + r && 0 < r <= 0xffff
    ensures Residue(x) == r
  {
  }

  /** `ip_cksum_carry` on a sum that is not negative: two folds and a complement. */
  function CksumCarry(x: nat): nat {
    var y := x / 0x10000 + x % 0x10000;
    0xffff - (y + y / 0x10000) % 0x10000
  }

  lemma CarryIsComplement(x: nat)
    requires x < 0x8000_0000
    ensures CksumCarry(x) == 0xffff - Residue(x)
  {
    var y := x / 0x10000 + x % 0x10000;
    assert x == 0xffff * (x / 0x10000) + y;
    assert y <= 0x7fff + 0xffff;
    if y >= 0x10000 {
      ResidueUnique(x, x / 0x10000 + 1, y - 0xffff);
    } else if y > 0 {
      ResidueUnique(x, x / 0x10000, y);
    }
  }

  lemma ResidueStep(x: nat, w: nat)
    requires w <= 0xffff
    ensures Residue(x + w) == OnesAdd(Residue(x), w)
  {
    var r := Residue(x);
    var q := if x == 0 then 0 else (x - 1) / 0xffff;
    assert x == 0xffff * q + r;
    if r + w > 0xffff {
      ResidueUnique(x + w, q + 1, r + w - 0xffff);
    } else if r + w > 0 {
      ResidueUnique(x + w, q, r + w);
    }
  }

  lemma {:induction false} OnesSumIsResidue(ws: seq<nat>)
    requires forall k :: 0 <= k < |ws| ==> ws[k] <= 0xffff
    ensures OnesSum(ws) == Residue(Sum(ws))
  {
    if ws != [] {
      var front, last := ws[..|ws| - 1], ws[|ws| - 1];
      OnesSumIsResidue(front);
      SumSnoc(front, last);
      assert front + [last] == ws;
      ResidueStep(Sum(front), last);
    }
  }

  lemma {:induction false} WordsFit(buf: seq<Byte>, little: bool)
    ensures forall k :: 0 <= k < |Words(buf, little)| ==> Words(buf, little)[k] <= 0xffff
  {
    if |buf| >= 2 {
      WordsFit(buf[2..], little);
    }
  }

  /** The checksum of a buffer is the complement of its one's complement sum, and adding
      the checksum to the sum folds to zero. */
  lemma ChecksumVerifies(buf: seq<Byte>, little: bool)
    requires Sum(Words(buf, little)) + 0xffff < 0x8000_0000
    ensures var total := Sum(Words(buf, little));
            && CksumCarry(total) == 0xffff - OnesSum(Words(buf, little))
            && CksumCarry(total + CksumCarry(total)) == 0
  {
    var total := Sum(Words(buf, little));
    WordsFit(buf, little);
    OnesSumIsResidue(Words(buf, little));
    CarryIsComplement(total);
    var c := CksumCarry(total);
    CarryIsComplement(total + c);
    var q := if total == 0 then 0 else (total - 1) / 0xffff;
    assert total == 0xffff * q + Residue(total);
    ResidueUnique(total + c, q, 0xffff);
  }

  // ----- Byte order -----

  function Swap(w: nat): nat {
    w % 256 * 256 + w / 256
  }

  lemma {:induction false} SumsInBothOrders(buf: seq<Byte>) returns (q: nat)
    ensures 256 * Sum(Words(buf, true)) == Sum(Words(buf, false)) + 0xffff * q
    ensures Sum(Words(buf, true)) == 0 <==> Sum(Words(buf, false)) == 0
  {
    if |buf| == 0 {
      q := 0;
    } else if |buf| == 1 {
      q := 0;
      assert Words(buf, true)[1..] == [] && Words(buf, false)[1..] == [];
    } else {
      var p := SumsInBothOrders(buf[2..]);
      q := p + buf[1];
      var le, be := Words(buf, true), Words(buf, false);
      assert le[1..] == Words(buf[2..], true) && be[1..] == Words(buf[2..], false);
    }
  }

  lemma SwapIsTimes256(w: nat)
    requires w <= 0xffff
    ensures 256 * w == Swap(w) + 0xffff * (w / 256)
  {
  }

  /** The sum may be computed in either byte order: the result is only byte-swapped. */
  lemma ByteOrderIndependent(buf: seq<Byte>)
    ensures OnesSum(Words(buf, false)) == Swap(OnesSum(Words(buf, true)))
  {
    WordsFit(buf, true);
    WordsFit(buf, false);
    OnesSumIsResidue(Words(buf, true));
    OnesSumIsResidue(Words(buf, false));
    var q := SumsInBothOrders(buf);
    SwappedResidue(Sum(Words(buf, true)), Sum(Words(buf, false)), q);
  }

  lemma SwappedResidue(le: nat, be: nat, q: nat)
    requires 256 * le == be + 0xffff * q && (le == 0 <==> be == 0)
    ensures Residue(be) == Swap(Residue(le))
  {
    if le > 0 {
      var r, s := Residue(le), Residue(be);
      var i, j := (le - 1) / 0xffff, (be - 1) / 0xffff;
      assert le == 0xffff * i + r && be == 0xffff * j + s;
      SwapIsTimes256(r);
      assert 0xffff * (256 * i + r / 256 - q - j) == s - Swap(r);
    }
  }
}
