// The 5.3-bit floating point numbers that name the size classes of the
// offset allocator.  Shifts and masks by powers of two are written as
// division, multiplication and remainder.
module SmallFloat {
  import opened Bits

  const MANTISSA_VALUE: nat := 8
  const NUM_LEAF_BINS: nat := 256

  /** Position of the lowest mantissa bit: `highestSetBit - MANTISSA_BITS`. */
  function MantissaStartBit(size: nat): (k: nat)
    requires size >= MANTISSA_VALUE
    ensures 8 * Pow2(k) <= size < 16 * Pow2(k)
    ensures size < WORD ==> k <= 28
  {
    var h := HighestBit(size);
    HighestBitRange(size, h);
    h - 3
  }

  lemma HighestBitRange(size: nat, h: nat)
    requires MANTISSA_VALUE <= size < 2 * Pow2(h) && Pow2(h) <= size
    ensures 3 <= h
    ensures size < WORD ==> h <= 31
    ensures Pow2(h) == 8 * Pow2(h - 3)
  {
    Pow2Small();
    if h < 3 { Pow2Monotone(h, 2); }
    if h > 31 { Pow2Monotone(32, h); }
    assert Pow2(h) == 2 * Pow2(h - 1) == 4 * Pow2(h - 2);
  }

  /** The bin a request of `size` bytes is searched from. */
  function UintToFloatRoundUp(size: nat): nat {
    if size < MANTISSA_VALUE then size
    else
      var start := MantissaStartBit(size);
      var mantissa := (size / Pow2(start)) % MANTISSA_VALUE;
      var carry := if size % Pow2(start) != 0 then 1 else 0;
      (start + 1) * MANTISSA_VALUE + (mantissa + carry)
  }

  /** The bin a free region of `size` bytes is filed under. */
  function UintToFloatRoundDown(size: nat): nat {
    if size < MANTISSA_VALUE then size
    else
      var start := MantissaStartBit(size);
      var mantissa := (size / Pow2(start)) % MANTISSA_VALUE;
      Or((start + 1) * MANTISSA_VALUE, mantissa)
  }

  /** The size a bin stands for, before truncation to 32 bits. */
  function BinSize(bin: nat): nat {
    Scaled(bin / MANTISSA_VALUE, bin % MANTISSA_VALUE)
  }

  function Scaled(exponent: nat, mantissa: nat): nat {
    if exponent == 0 then mantissa
    else (MANTISSA_VALUE + mantissa) * Pow2(exponent - 1)
  }

  /** `floatToUint`: the shift drops everything above bit 31. */
  function FloatToUint(bin: nat): uint32 {
    BinSize(bin) % WORD
  }

  /** The size classes: every size below 16, and from there on eight steps for each doubling. */
  lemma BinSizeTable(bin: nat)
    ensures bin < 16 ==> BinSize(bin) == bin
    ensures bin >= 8 ==> BinSize(bin + 8) == 2 * BinSize(bin)
  {
    if bin >= 8 {
      assert (bin + 8) / 8 == bin / 8 + 1 && (bin + 8) % 8 == bin % 8;
      var p := Pow2(bin / 8 - 1);
      assert (8 + bin % 8) * (2 * p) == 2 * ((8 + bin % 8) * p);
    }
  }

  lemma {:induction false} BinSizeStep(bin: nat)
    ensures BinSize(bin) < BinSize(bin + 1)
    ensures BinSize(bin + 1) - BinSize(bin) == if bin < 16 then 1 else Pow2(bin / 8 - 1)
  {
    if bin % 8 == 7 {
      assert (bin + 1) / 8 == bin / 8 + 1 && (bin + 1) % 8 == 0;
    } else {
      assert (bin + 1) / 8 == bin / 8 && (bin + 1) % 8 == bin % 8 + 1;
    }
    if bin >= 8 {
      var p := Pow2(bin / 8 - 1);
      assert BinSize(bin) == (8 + bin % 8) * p;
      assert (9 + bin % 8) * p == (8 + bin % 8) * p + p;
    }
  }

  /** Size classes are strictly ordered. */
  lemma {:induction false} BinSizeMonotone(a: nat, b: nat)
    requires a < b
    ensures BinSize(a) < BinSize(b)
    decreases b
  {
    BinSizeStep(b - 1);
    if a >= b - 1 {
    } else {
      BinSizeMonotone(a, b - 1);
    }
  }

  lemma DivMod8(k: nat, m: nat)
    requires m <= 8
    ensures var bin := (k + 1) * 8 + m;
      if m == 8 then bin / 8 == k + 2 && bin % 8 == 0 else bin / 8 == k + 1 && bin % 8 == m
  {
  }

  /** A bin number written as exponent and mantissa; mantissa 8 carries into the exponent. */
  lemma BinSizeParts(k: nat, m: nat)
    requires m <= 8
    ensures BinSize((k + 1) * 8 + m) == (8 + m) * Pow2(k)
  {
    DivMod8(k, m);
    if m == 8 {
      assert Pow2(k + 1) == 2 * Pow2(k);
      assert Scaled(k + 2, 0) == 8 * Pow2(k + 1);
    }
  }

  lemma QuotientRange(size: nat, p: nat)
    requires p > 0 && 8 * p <= size < 16 * p
    ensures 8 <= size / p < 16
  {
  }

  lemma MantissaParts(size: nat, p: nat)
    requires p > 0 && 8 * p <= size < 16 * p
    ensures var d := size / p;
      8 <= d < 16 && d % 8 == d - 8 && size - size % p == d * p && (d + 1) * p == d * p + p
  {
    QuotientRange(size, p);
  }

  /** Both roundings of a normalised size, and the two bins around it: the lower
      one drops the bits below the mantissa, the upper one is one step above. */
  lemma Normalised(size: uint32)
    requires size >= MANTISSA_VALUE
    ensures var k, b := MantissaStartBit(size), UintToFloatRoundDown(size);
      && b < 240
      && UintToFloatRoundUp(size) == b + (if size % Pow2(k) != 0 then 1 else 0)
      && BinSize(b) == size - size % Pow2(k)
      && BinSize(b + 1) == BinSize(b) + Pow2(k)
  {
    var k := MantissaStartBit(size);
    MantissaParts(size, Pow2(k));
    var m := size / Pow2(k) - 8;
    OrLow(k + 1, m);
    BinSizeParts(k, m);
    BinSizeParts(k, m + 1);
  }

  /** Rounding down finds the greatest bin that is no larger than the size. */
  lemma RoundDownGreatest(size: uint32)
    ensures var b := UintToFloatRoundDown(size);
      b < 240 && BinSize(b) <= size < BinSize(b + 1)
  {
    if size >= MANTISSA_VALUE { Normalised(size); }
  }

  /** Rounding up finds the least bin that is no smaller than the size. */
  lemma RoundUpLeast(size: uint32)
    ensures var b := UintToFloatRoundUp(size);
      b <= 240 && size <= BinSize(b) && (b > 0 ==> BinSize(b - 1) < size)
  {
    if size >= MANTISSA_VALUE {
      Normalised(size);
      BinSizeStep(UintToFloatRoundUp(size) - 1);
    }
  }

  /** Rounding up costs at most an eighth of the size. */
  lemma RoundUpOverhead(size: uint32)
    ensures BinSize(UintToFloatRoundUp(size)) <= size + size / 8
  {
    if size >= MANTISSA_VALUE { Normalised(size); }
  }

  /** The two roundings bracket each other: a free region filed under `b` serves
      a request exactly from the bin the request is searched from upwards. */
  lemma BinFits(request: uint32, region: uint32)
    ensures UintToFloatRoundUp(request) <= UintToFloatRoundDown(region) <==>
            BinSize(UintToFloatRoundUp(request)) <= region
  {
    var up := UintToFloatRoundUp(request);
    var down := UintToFloatRoundDown(region);
    RoundDownGreatest(region);
    if up < down { BinSizeMonotone(up, down); }
    if down + 1 < up { BinSizeMonotone(down + 1, up); }
  }

  /** No two bins bracket the same size. */
  lemma BinUnique(size: nat, a: nat, b: nat)
    requires BinSize(a) <= size < BinSize(a + 1)
    requires BinSize(b) <= size < BinSize(b + 1)
    ensures a == b
  {
    if a < b { BinSizeLe(a + 1, b); }
    if b < a { BinSizeLe(b + 1, a); }
  }

  /** Sizes of bins below 240 fit a word. */
  lemma BinSizeFits(bin: nat)
    requires bin < 240
    ensures BinSize(bin) < WORD
    ensures FloatToUint(bin) == BinSize(bin)
  {
    BinSizeMonotone(bin, 240);
    BinSizeParts(29, 0);
    Pow2Small();
    assert Pow2(32) == 2 * Pow2(31) == 4 * Pow2(30) == 8 * Pow2(29);
  }

  /** Bin sizes are fixed points of both roundings. */
  lemma RoundExact(bin: nat)
    requires bin < 240
    ensures BinSize(bin) < WORD
    ensures UintToFloatRoundDown(BinSize(bin)) == bin
    ensures UintToFloatRoundUp(BinSize(bin)) == bin
  {
    BinSizeFits(bin);
    var size := BinSize(bin);
    RoundDownGreatest(size);
    BinSizeStep(bin);
    BinUnique(size, bin, UintToFloatRoundDown(size));
    RoundUpLeast(size);
    var up := UintToFloatRoundUp(size);
    if up < bin { BinSizeMonotone(up, bin); }
    if bin < up { BinSizeLe(bin, up - 1); }
  }

  lemma BinSizeLe(a: nat, b: nat)
    requires a <= b
    ensures BinSize(a) <= BinSize(b)
  {
    if a < b { BinSizeMonotone(a, b); }
  }
}
