// Unsigned machine words as natural numbers, with the bitwise operators of C
// spelled out digit by digit.
module Bits {

  const WORD: nat := 0x1_0000_0000
  const ALL_ONES: nat := 0xffff_ffff

  type byte = x: nat | x < 256
  type uint32 = x: nat | x < WORD

  /** Bit `i` of `m`. */
  predicate Bit(m: nat, i: nat) {
    if i == 0 then m % 2 == 1 else Bit(m / 2, i - 1)
  }

  /** `1 << i`, unbounded. */
  function Pow2(i: nat): (p: nat)
    ensures p > 0
  {
    if i == 0 then 1 else 2 * Pow2(i - 1)
  }

  /** `a | b` */
  function Or(a: nat, b: nat): nat {
    if a == 0 && b == 0 then 0
    else 2 * Or(a / 2, b / 2) + (if a % 2 == 1 || b % 2 == 1 then 1 else 0)
  }

  /** `a & b` */
  function And(a: nat, b: nat): nat {
    if a == 0 || b == 0 then 0
    else 2 * And(a / 2, b / 2) + (if a % 2 == 1 && b % 2 == 1 then 1 else 0)
  }

  /** `~a` on 32 bits */
  function Not32(a: uint32): uint32 {
    ALL_ONES - a
  }

  /** Index of the lowest set bit: `tzcnt_nonzero`. */
  function LowestBit(m: nat): (r: nat)
    requires m > 0
    ensures Bit(m, r)
    ensures forall i :: 0 <= i < r ==> !Bit(m, i)
    decreases m
  {
    if m % 2 == 1 then 0 else 1 + LowestBit(m / 2)
  }

  /** Index of the highest set bit: `31 - lzcnt_nonzero`. */
  function HighestBit(m: nat): (r: nat)
    requires m > 0
    ensures Bit(m, r)
    ensures Pow2(r) <= m < 2 * Pow2(r)
    ensures forall i :: i > r ==> !Bit(m, i)
  {
    if m == 1 then
      BitZero();
      0
    else
      1 + HighestBit(m / 2)
  }

  lemma {:induction false} BitZeroAt(i: nat)
    ensures !Bit(0, i)
  {
    if i == 0 {
    } else {
      BitZeroAt(i - 1);
    }
  }

  lemma BitZero()
    ensures forall i: nat :: !Bit(0, i)
  {
    forall i: nat ensures !Bit(0, i) { BitZeroAt(i); }
  }

  lemma ZeroHasNoBit(m: nat)
    requires m == 0
    ensures forall i: nat :: !Bit(m, i)
  {
    forall i: nat ensures !Bit(m, i) { BitZeroAt(i); }
  }

  lemma {:induction false} BitOr(a: nat, b: nat, i: nat)
    ensures Bit(Or(a, b), i) <==> Bit(a, i) || Bit(b, i)
  {
    if a == 0 && b == 0 {
      BitZeroAt(i);
    } else if i > 0 {
      BitOr(a / 2, b / 2, i - 1);
    }
  }

  lemma {:induction false} BitAnd(a: nat, b: nat, i: nat)
    ensures Bit(And(a, b), i) <==> Bit(a, i) && Bit(b, i)
  {
    if a == 0 || b == 0 {
      BitZeroAt(i);
    } else if i > 0 {
      BitAnd(a / 2, b / 2, i - 1);
    }
  }

  lemma {:induction false} BitPow2(i: nat, j: nat)
    ensures Bit(Pow2(i), j) <==> i == j
  {
    if i == 0 {
      if j > 0 { BitZeroAt(j - 1); }
    } else if j > 0 {
      BitPow2(i - 1, j - 1);
    }
  }

  lemma {:induction false} BitComplement(k: nat, a: nat, i: nat)
    requires a < Pow2(k) && i < k
    ensures Bit(Pow2(k) - 1 - a, i) <==> !Bit(a, i)
  {
    var h := Pow2(k - 1);
    assert (2 * h - 1 - a) / 2 == h - 1 - a / 2;
    if i == 0 {
    } else {
      BitComplement(k - 1, a / 2, i - 1);
    }
  }

  lemma {:induction false} BitBound(k: nat, a: nat, i: nat)
    requires a < Pow2(k) && k <= i
    ensures !Bit(a, i)
  {
    if k == 0 { BitZeroAt(i); } else { BitBound(k - 1, a / 2, i - 1); }
  }

  lemma {:induction false} AndBound(a: nat, b: nat)
    ensures And(a, b) <= a && And(a, b) <= b
  {
    if a == 0 || b == 0 {
    } else {
      AndBound(a / 2, b / 2);
    }
  }

  lemma {:induction false} OrBound(k: nat, a: nat, b: nat)
    requires a < Pow2(k) && b < Pow2(k)
    ensures Or(a, b) < Pow2(k)
  {
    if k == 0 {
    } else {
      OrBound(k - 1, a / 2, b / 2);
    }
  }

  lemma Pow2Small()
    ensures Pow2(3) == 8 && Pow2(5) == 32 && Pow2(8) == 256 && Pow2(16) == 65536 && Pow2(32) == WORD
  {
    assert Pow2(4) == 16;
    assert Pow2(8) == 256;
    assert Pow2(12) == 4096;
    assert Pow2(16) == 65536;
    assert Pow2(20) == 65536 * 16;
    assert Pow2(24) == 65536 * 256;
    assert Pow2(28) == 65536 * 4096;
  }

  lemma {:induction false} Pow2Monotone(i: nat, j: nat)
    requires i <= j
    ensures Pow2(i) <= Pow2(j)
    decreases j
  {
    if i >= j {
    } else {
      Pow2Monotone(i, j - 1);
    }
  }

  /** Below 8 `|` into the three cleared low bits is addition. */
  lemma OrLow(a: nat, b: nat)
    requires b < 8
    ensures Or(8 * a, b) == 8 * a + b
  {
    OrZero(a);
    assert Or(2 * a, b / 4) == 2 * a + b / 4;
    assert Or(4 * a, b / 2) == 4 * a + b / 2;
  }

  lemma {:induction false} OrZero(a: nat)
    ensures Or(a, 0) == a
  {
    if a == 0 {
    } else {
      OrZero(a / 2);
    }
  }

  /** `m | (1 << i)` sets bit `i` and no other. */
  lemma SetBit(m: nat, i: nat, k: nat)
    requires m < Pow2(k) && i < k
    ensures forall j: nat :: Bit(Or(m, Pow2(i)), j) <==> Bit(m, j) || j == i
    ensures Or(m, Pow2(i)) < Pow2(k)
  {
    forall j: nat ensures Bit(Or(m, Pow2(i)), j) <==> Bit(m, j) || j == i {
      BitOr(m, Pow2(i), j);
      BitPow2(i, j);
    }
    Pow2Monotone(i, k - 1);
    OrBound(k, m, Pow2(i));
  }

  /** `m & ~(1 << i)` clears bit `i` and no other. */
  lemma ClearBit(m: uint32, i: nat)
    requires i < 32
    ensures Pow2(i) < WORD
    ensures forall j: nat :: Bit(And(m, Not32(Pow2(i))), j) <==> Bit(m, j) && j != i
    ensures And(m, Not32(Pow2(i))) <= m
  {
    Pow2Small();
    Pow2Monotone(i, 31);
    forall j: nat ensures Bit(And(m, Not32(Pow2(i))), j) <==> Bit(m, j) && j != i {
      BitAnd(m, Not32(Pow2(i)), j);
      if j < 32 {
        BitComplement(32, Pow2(i), j);
        BitPow2(i, j);
      } else {
        BitBound(32, m, j);
      }
    }
    AndBound(m, Not32(Pow2(i)));
  }

  /** The bits of `mask` from `start` up. */
  function From(mask: uint32, start: nat): uint32
    requires start < 32
  {
    LowMask(start);
    AndBound(mask, Not32(Pow2(start) - 1));
    And(mask, Not32(Pow2(start) - 1))
  }

  /** `findLowestSetBitAfter`: the lowest set bit at or above `start`, or all ones. */
  function FindLowestSetBitAfter(mask: uint32, start: nat): (r: nat)
    requires start < 32
    ensures r == ALL_ONES || (start <= r < 32 && Bit(mask, r))
    ensures forall i :: start <= i < (if r == ALL_ONES then 32 else r) ==> !Bit(mask, i)
  {
    var after := From(mask, start);
    if after == 0 then
      NoneAfter(mask, start);
      ALL_ONES
    else
      FirstAfter(mask, start);
      LowestBit(after)
  }

  lemma LowMask(start: nat)
    requires start < 32
    ensures Pow2(start) - 1 < WORD
  {
    Pow2Small();
    Pow2Monotone(start, 32);
  }

  lemma InWord(mask: uint32, r: nat)
    ensures Bit(mask, r) ==> r < 32
  {
    Pow2Small();
    if r >= 32 { BitBound(32, mask, r); }
  }

  lemma {:induction false} BitLowMask(s: nat, i: nat)
    ensures Bit(Pow2(s) - 1, i) <==> i < s
  {
    if s == 0 {
      BitZeroAt(i);
    } else {
      var h := Pow2(s - 1);
      assert (2 * h - 1) / 2 == h - 1;
      if i > 0 { BitLowMask(s - 1, i - 1); }
    }
  }

  lemma BitAfter(mask: uint32, start: nat, i: nat)
    requires start < 32
    ensures Bit(From(mask, start), i) <==> Bit(mask, i) && start <= i
  {
    LowMask(start);
    var low := Pow2(start) - 1;
    BitAnd(mask, Not32(low), i);
    InWord(mask, i);
    if i < 32 {
      Pow2Small();
      BitComplement(32, low, i);
      BitLowMask(start, i);
    }
  }

  lemma NoneAfter(mask: uint32, start: nat)
    requires start < 32 && From(mask, start) == 0
    ensures forall i :: start <= i < 32 ==> !Bit(mask, i)
  {
    forall i: nat | start <= i < 32 ensures !Bit(mask, i) {
      BitAfter(mask, start, i);
      BitZeroAt(i);
    }
  }

  lemma FirstAfter(mask: uint32, start: nat)
    requires start < 32 && From(mask, start) > 0
    ensures var r := LowestBit(From(mask, start));
      && start <= r < 32 && Bit(mask, r)
      && forall i :: start <= i < r ==> !Bit(mask, i)
  {
    var after := From(mask, start);
    var r := LowestBit(after);
    BitAfter(mask, start, r);
    InWord(mask, r);
    forall i: nat | start <= i < r ensures !Bit(mask, i) {
      BitAfter(mask, start, i);
      assert !Bit(after, i);
    }
  }

  /** Quotient and remainder are unique. */
  lemma ModUnique(y: nat, m: nat, k: nat, r: nat)
    requires m > 0 && y == m * k + r && r < m
    ensures y % m == r && y / m == k
  {
    var d := y / m - k;
    assert y == m * (y / m) + y % m;
    assert m * d == m * (y / m) - m * k;
    Multiple(m, d);
  }

  lemma Multiple(m: nat, d: int)
    requires m > 0
    ensures d >= 1 ==> m * d >= m
    ensures d <= -1 ==> m * d + m <= 0
  {
    if d >= 1 { assert m * (d - 1) >= 0; }
    if d <= -1 { assert m * (d + 1) <= 0; }
  }
}
