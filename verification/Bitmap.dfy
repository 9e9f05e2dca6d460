// The two-level bitmap over the free lists: one byte per eight bins, and one
// word with a bit for every non-zero byte.
module Bitmap {
  import opened Bits
  import opened SmallFloat

  const NUM_TOP_BINS: nat := 32

  ghost predicate LeafBits(usedBins: seq<nat>, bins: seq<seq<nat>>) {
    && |usedBins| == NUM_TOP_BINS && |bins| == NUM_LEAF_BINS
    && (forall t :: 0 <= t < NUM_TOP_BINS ==> usedBins[t] < 256)
    && (forall b :: 0 <= b < NUM_LEAF_BINS ==> (Bit(usedBins[b / 8], b % 8) <==> bins[b] != []))
  }

  ghost predicate TopBits(top: nat, usedBins: seq<nat>) {
    && |usedBins| == NUM_TOP_BINS && top < WORD
    && (forall t :: 0 <= t < NUM_TOP_BINS ==> (Bit(top, t) <==> usedBins[t] != 0))
  }

  /** A leaf bit is set iff its list is non-empty, a top bit iff its byte is non-zero. */
  ghost predicate BitsAgree(top: nat, usedBins: seq<nat>, bins: seq<seq<nat>>) {
    LeafBits(usedBins, bins) && TopBits(top, usedBins)
  }

  lemma NonZero(m: nat, i: nat)
    requires Bit(m, i)
    ensures m != 0
  {
    if m == 0 { ZeroHasNoBit(m); }
  }

  /** Marking a bin sets its leaf bit and its top bit. */
  lemma Mark(top: nat, usedBins: seq<nat>, bins: seq<seq<nat>>, b: nat, list: seq<nat>)
    requires BitsAgree(top, usedBins, bins) && b < NUM_LEAF_BINS && list != []
    ensures BitsAgree(Or(top, Pow2(b / 8)), usedBins[b / 8 := Or(usedBins[b / 8], Pow2(b % 8))], bins[b := list])
  {
    hide Bit, Or, Pow2;
    Pow2Small();
    SetBit(usedBins[b / 8], b % 8, 8);
    SetBit(top, b / 8, 32);
    NonZero(Or(usedBins[b / 8], Pow2(b % 8)), b % 8);
  }

  lemma MarkFits(top: uint32, byte: nat, b: nat)
    requires byte < 256 && b < NUM_LEAF_BINS
    ensures Or(byte, Pow2(b % 8)) < 256 && Or(top, Pow2(b / 8)) < WORD
  {
    Pow2Small();
    SetBit(byte, b % 8, 8);
    SetBit(top, b / 8, 32);
  }

  lemma ClearFits(top: uint32, byte: nat, b: nat)
    requires byte < 256 && b < NUM_LEAF_BINS
    ensures Pow2(b % 8) < WORD && Pow2(b / 8) < WORD
    ensures And(byte, Not32(Pow2(b % 8))) < 256 && And(top, Not32(Pow2(b / 8))) < WORD
  {
    ClearBit(byte, b % 8);
    ClearBit(top, b / 8);
  }

  /** A bin that stays non-empty needs no change of the bitmap. */
  lemma Keep(top: nat, usedBins: seq<nat>, bins: seq<seq<nat>>, b: nat, list: seq<nat>)
    requires BitsAgree(top, usedBins, bins) && b < NUM_LEAF_BINS && list != [] && bins[b] != []
    ensures BitsAgree(top, usedBins, bins[b := list])
  {
  }

  /** Clearing a bin clears its leaf bit, and its top bit when the byte becomes zero. */
  lemma Clear(top: nat, usedBins: seq<nat>, bins: seq<seq<nat>>, b: nat)
    requires BitsAgree(top, usedBins, bins) && b < NUM_LEAF_BINS && bins[b] != []
    ensures Pow2(b % 8) < WORD && Pow2(b / 8) < WORD
    ensures var byte := And(usedBins[b / 8], Not32(Pow2(b % 8)));
      BitsAgree(if byte == 0 then And(top, Not32(Pow2(b / 8))) else top, usedBins[b / 8 := byte], bins[b := []])
  {
    ClearBit(usedBins[b / 8], b % 8);
    ClearBit(top, b / 8);
    NonZero(usedBins[b / 8], b % 8);
  }

  lemma ByteBit(byte: nat, l: nat)
    requires byte < 256 && Bit(byte, l)
    ensures l < 8
  {
    Pow2Small();
    if l >= 8 { BitBound(8, byte, l); }
  }

  /** Leaf bits, addressed by byte and bit. */
  lemma LeafBit(usedBins: seq<nat>, bins: seq<seq<nat>>, t: nat, l: nat)
    requires LeafBits(usedBins, bins) && t < NUM_TOP_BINS && l < 8
    ensures Bit(usedBins[t], l) <==> bins[8 * t + l] != []
  {
    var b := 8 * t + l;
    assert b / 8 == t && b % 8 == l;
    assert Bit(usedBins[b / 8], b % 8) <==> bins[b] != [];
  }

  /** The bins `lo..hi` are empty. */
  ghost predicate EmptyRun(bins: seq<seq<nat>>, lo: nat, hi: nat) {
    forall i :: lo <= i < hi && i < |bins| ==> bins[i] == []
  }

  lemma EmptyBits(usedBins: seq<nat>, bins: seq<seq<nat>>, t: nat, lo: nat, hi: nat)
    requires LeafBits(usedBins, bins) && t < NUM_TOP_BINS && hi <= 8
    requires forall l :: lo <= l < hi ==> !Bit(usedBins[t], l)
    ensures EmptyRun(bins, 8 * t + lo, 8 * t + hi)
  {
    forall i | 8 * t + lo <= i < 8 * t + hi ensures bins[i] == [] {
      LeafBit(usedBins, bins, t, i - 8 * t);
      assert !Bit(usedBins[t], i - 8 * t);
    }
  }

  /** No bin of an unmarked byte is in use. */
  lemma ZeroByte(top: nat, usedBins: seq<nat>, bins: seq<seq<nat>>, t: nat)
    requires BitsAgree(top, usedBins, bins) && t < NUM_TOP_BINS && !Bit(top, t)
    ensures EmptyRun(bins, 8 * t, 8 * t + 8)
  {
    ZeroHasNoBit(usedBins[t]);
    EmptyBits(usedBins, bins, t, 0, 8);
  }

  lemma {:induction false} ZeroBytes(top: nat, usedBins: seq<nat>, bins: seq<seq<nat>>, lo: nat, hi: nat)
    requires BitsAgree(top, usedBins, bins) && lo <= hi <= NUM_TOP_BINS
    requires forall t :: lo <= t < hi ==> !Bit(top, t)
    ensures EmptyRun(bins, 8 * lo, 8 * hi)
    decreases hi - lo
  {
    if lo >= hi {
    } else {
      ZeroByte(top, usedBins, bins, lo);
      ZeroBytes(top, usedBins, bins, lo + 1, hi);
    }
  }

  predicate Sound(top: nat, usedBins: seq<nat>) {
    && top < WORD && |usedBins| == NUM_TOP_BINS
    && forall t :: 0 <= t < NUM_TOP_BINS ==> usedBins[t] < 256 && (Bit(top, t) ==> usedBins[t] != 0)
  }

  lemma AgreeSound(top: nat, usedBins: seq<nat>, bins: seq<seq<nat>>)
    requires BitsAgree(top, usedBins, bins)
    ensures Sound(top, usedBins)
  {
  }

  /** Search one byte, from bit `minLeaf`. */
  function FindInByte(top: nat, usedBins: seq<nat>, t: nat, minLeaf: nat): nat
    requires Sound(top, usedBins) && t < NUM_TOP_BINS && minLeaf < 8
  {
    if And(top, Pow2(t)) != 0 then FindLowestSetBitAfter(usedBins[t], minLeaf) else ALL_ONES
  }

  /** The bin an allocation is served from: first the rest of the starting byte, then the next marked byte. */
  function FindBin(top: nat, usedBins: seq<nat>, from: nat): nat
    requires Sound(top, usedBins) && from <= 240
  {
    var minTop, minLeaf := from / 8, from % 8;
    var leaf := FindInByte(top, usedBins, minTop, minLeaf);
    if leaf != ALL_ONES then Or(8 * minTop, leaf)
    else
      var next := FindLowestSetBitAfter(top, minTop + 1);
      if next == ALL_ONES then ALL_ONES else Or(8 * next, LowestBit(usedBins[next]))
  }

  lemma TestBit(m: nat, i: nat)
    ensures And(m, Pow2(i)) != 0 <==> Bit(m, i)
  {
    var a := And(m, Pow2(i));
    BitAnd(m, Pow2(i), i);
    BitPow2(i, i);
    if a == 0 {
      ZeroHasNoBit(a);
    } else {
      var r := LowestBit(a);
      BitAnd(m, Pow2(i), r);
      BitPow2(i, r);
      assert Bit(a, r);
    }
  }

  lemma FindInByteSpec(top: nat, usedBins: seq<nat>, bins: seq<seq<nat>>, t: nat, minLeaf: nat)
    requires BitsAgree(top, usedBins, bins) && t < NUM_TOP_BINS && minLeaf < 8
    ensures var leaf := FindInByte(top, usedBins, t, minLeaf);
      if leaf == ALL_ONES then EmptyRun(bins, 8 * t + minLeaf, 8 * t + 8)
      else minLeaf <= leaf < 8 && bins[8 * t + leaf] != [] && EmptyRun(bins, 8 * t + minLeaf, 8 * t + leaf)
  {
    TestBit(top, t);
    if !Bit(top, t) {
      ZeroByte(top, usedBins, bins, t);
    } else {
      var leaf := FindLowestSetBitAfter(usedBins[t], minLeaf);
      if leaf == ALL_ONES {
        EmptyBits(usedBins, bins, t, minLeaf, 8);
      } else {
        ByteBit(usedBins[t], leaf);
        LeafBit(usedBins, bins, t, leaf);
        EmptyBits(usedBins, bins, t, minLeaf, leaf);
      }
    }
  }

  lemma FirstInByte(usedBins: seq<nat>, bins: seq<seq<nat>>, t: nat)
    requires LeafBits(usedBins, bins) && t < NUM_TOP_BINS && usedBins[t] != 0
    ensures var leaf := LowestBit(usedBins[t]);
      leaf < 8 && bins[8 * t + leaf] != [] && EmptyRun(bins, 8 * t, 8 * t + leaf)
  {
    var leaf := LowestBit(usedBins[t]);
    ByteBit(usedBins[t], leaf);
    LeafBit(usedBins, bins, t, leaf);
    EmptyBits(usedBins, bins, t, 0, leaf);
  }

  /** The search above the starting byte. */
  lemma FindAboveSpec(top: nat, usedBins: seq<nat>, bins: seq<seq<nat>>, t: nat)
    requires BitsAgree(top, usedBins, bins) && t + 1 < NUM_TOP_BINS
    ensures var next := FindLowestSetBitAfter(top, t + 1);
      if next == ALL_ONES then EmptyRun(bins, 8 * t + 8, NUM_LEAF_BINS)
      else
        var r := Or(8 * next, LowestBit(usedBins[next]));
        8 * t + 8 <= r < NUM_LEAF_BINS && bins[r] != [] && EmptyRun(bins, 8 * t + 8, r)
  {
    var next := FindLowestSetBitAfter(top, t + 1);
    ZeroBytes(top, usedBins, bins, t + 1, if next == ALL_ONES then NUM_TOP_BINS else next);
    if next != ALL_ONES {
      FirstInByte(usedBins, bins, next);
      OrLow(next, LowestBit(usedBins[next]));
    }
  }

  /** The two-level search finds the least non-empty bin from `from` up, or reports that there is none. */
  lemma FindBinSpec(top: nat, usedBins: seq<nat>, bins: seq<seq<nat>>, from: nat)
    requires BitsAgree(top, usedBins, bins) && from <= 240
    ensures var r := FindBin(top, usedBins, from);
      if r == ALL_ONES then EmptyRun(bins, from, NUM_LEAF_BINS)
      else from <= r < NUM_LEAF_BINS && bins[r] != [] && EmptyRun(bins, from, r)
  {
    hide BitsAgree, FindInByte, FindLowestSetBitAfter, LowestBit, Or;
    AgreeSound(top, usedBins, bins);
    var t, minLeaf := from / 8, from % 8;
    FindInByteSpec(top, usedBins, bins, t, minLeaf);
    var leaf := FindInByte(top, usedBins, t, minLeaf);
    if leaf != ALL_ONES {
      OrLow(t, leaf);
    } else {
      FindAboveSpec(top, usedBins, bins, t);
    }
  }
}
