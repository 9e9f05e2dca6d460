// How long a needle may be for its reported positions to earn the score on every haystack.
module FzyLosses {
  import opened FzyScore

  predicate IsAlnum(c: CChar) { IsUpper(c) || IsLower(c) || IsDigit(c) }

  predicate AllAlnum(needle: CString) {
    forall i :: 0 <= i < |needle| ==> IsAlnum(needle[i])
  }

  function Lowered(s: CString): (r: CString)
    ensures |r| == |s| && forall i :: 0 <= i < |s| ==> r[i] == ToLower(s[i])
  {
    if s == [] then [] else [ToLower(s[0])] + Lowered(s[1..])
  }

  const PLUS: CChar := '+' as int

  /** The needle, after its own first two characters and a plus sign. */
  function Decoy(needle: CString): (hay: CString)
    requires |needle| >= 3
    ensures |hay| == |needle| + 3
  {
    [ToLower(needle[0]), ToLower(needle[1]), PLUS] + Lowered(needle)
  }

  /** What of a decoy the scores depend on. */
  ghost predicate Baited(q: Query) {
    && |q.needle| >= 3 && |q.hay| == |q.needle| + 3
    && BonusAt(q.hay, 0) == MATCH_SLASH && q.Hit(0, 0) && q.Hit(1, 1)
    && (forall j :: 0 < j < |q.hay| ==> BonusAt(q.hay, j) == 0)
    && (forall i :: 0 <= i < |q.needle| ==> Sits(q, i))
  }

  /** The needle's character `i` matches where the needle stands, and not the plus sign. */
  predicate Sits(q: Query, i: nat)
    requires i < |q.needle| == |q.hay| - 3
  {
    q.Hit(i, i + 3) && !q.Hit(i, 2)
  }

  lemma PlainBonus(last: CChar, ch: CChar)
    requires !IsUpper(ch) && (last == PLUS || IsAlnum(last))
    ensures Bonus(last, ch) == 0
  {
  }

  lemma LowerCase(c: CChar)
    requires IsAlnum(c)
    ensures IsAlnum(ToLower(c)) && !IsUpper(ToLower(c)) && ToLower(ToLower(c)) == ToLower(c) != ToLower(PLUS)
  {
  }

  lemma DecoyBaits(needle: CString)
    requires |needle| >= 3 && AllAlnum(needle)
    ensures Baited(Query(needle, Decoy(needle)))
  {
    hide Bonus, ToLower, IsAlnum, IsUpper;
    var q := Query(needle, Decoy(needle));
    forall j | 0 < j < |q.hay| ensures BonusAt(q.hay, j) == 0 { DecoyBonus(needle, j); }
    forall i | 0 <= i < |needle| ensures Sits(q, i) {
      assert q.hay[i + 3] == ToLower(needle[i]) && q.hay[2] == PLUS;
      LowerCase(needle[i]);
    }
    LowerCase(needle[0]);
    LowerCase(needle[1]);
    assert Bonus('/' as int, q.hay[0]) == MATCH_SLASH by { SlashBonus(q.hay[0]); }
  }

  lemma SlashBonus(ch: CChar)
    requires IsAlnum(ch)
    ensures Bonus('/' as int, ch) == MATCH_SLASH
  {
  }

  lemma DecoyBonus(needle: CString, j: nat)
    requires |needle| >= 3 && AllAlnum(needle) && 0 < j < |needle| + 3
    ensures BonusAt(Decoy(needle), j) == 0
  {
    hide Bonus, ToLower, IsAlnum, IsUpper;
    var hay := Decoy(needle);
    forall k | 0 <= k < |hay| ensures !IsUpper(hay[k]) && (hay[k] == PLUS || IsAlnum(hay[k])) {
      PlusSmall();
      if k != 2 { LowerCase(needle[if k < 2 then k else k - 3]); }
    }
    PlainBonus(hay[j - 1], hay[j]);
  }

  lemma PlusSmall()
    ensures !IsUpper(PLUS)
  {
  }

  // ---------- the scores on a decoy ----------

  /** Bound on the scores of row `i` before the needle itself is reached. */
  function Limit(i: nat): int {
    if i == 0 then 180 else if i == 1 then 380 else 200 * i - 20
  }

  lemma HitScore(q: Query, i: nat, j: nat)
    requires Baited(q) && i < |q.needle| && j < |q.hay|
    ensures !q.Hit(i, j) ==> D(q, i, j) == Min
    ensures i == 0 && q.Hit(0, j) ==> D(q, 0, j) == Val(if j == 0 then MATCH_SLASH else -(j as int))
    ensures i > 0 && j == 0 ==> D(q, i, j) == Min
    ensures i > 0 && j > 0 && q.Hit(i, j) ==>
      D(q, i, j) == Greater(M(q, i - 1, j - 1), Plus(D(q, i - 1, j - 1), MATCH_CONSECUTIVE))
  {
  }

  lemma {:induction false} EarlyScores(q: Query, i: nat, j: nat)
    requires Baited(q) && i < |q.needle| && j < i + 3
    ensures AtMost(M(q, i, j), Val(Limit(i)))
    ensures i == 1 && j >= 2 ==> AtMost(D(q, i, j), Val(180))
    decreases i, j
  {
    hide D, M, BonusAt;
    HitScore(q, i, j);
    RunningScore(q, i, j);
    assert Sits(q, i);
    if i > 0 && j > 0 {
      EarlyScores(q, i - 1, j - 1);
      HitScore(q, i - 1, j - 1);
      assert Sits(q, i - 1);
    }
    if j > 0 { EarlyScores(q, i, j - 1); }
  }

  /** The needle matched as a whole, and what it is up against. */
  lemma {:induction false} WholeNeedle(q: Query, i: nat)
    requires Baited(q) && i < |q.needle|
    ensures D(q, i, i + 3) == Val(200 * i - 3)
    ensures AtMost(M(q, i, i + 3), Val(if i == 0 then 180 else 200 * i + 197))
    ensures i >= 2 ==> M(q, i, i + 3) == D(q, i, i + 3)
    decreases i
  {
    hide D, M, BonusAt;
    assert Sits(q, i);
    HitScore(q, i, i + 3);
    RunningScore(q, i, i + 3);
    EarlyScores(q, i, i + 2);
    if i == 0 {
    } else {
      WholeNeedle(q, i - 1);
    }
  }

  /** The first two characters at the front are worth more than where the needle starts. */
  lemma Bait(q: Query)
    requires Baited(q)
    ensures AtMost(Val(174), M(q, 0, 3)) && AtMost(Val(374), M(q, 1, 4))
  {
    hide D, M, BonusAt;
    HitScore(q, 0, 0);
    RunningScore(q, 0, 0);
    HitScore(q, 1, 1);
    MExtends(q, 0, 0, 3);
    MExtends(q, 1, 1, 4);
  }

  lemma SecondCellLossy(q: Query)
    requires Baited(q)
    ensures !Lossless(q, 1, 4)
  {
    hide D, M, BonusAt;
    WholeNeedle(q, 0);
    WholeNeedle(q, 1);
    Bait(q);
  }

  // ---------- where the backtrace goes ----------

  lemma {:induction false} TraceKeeps(q: Query, i: nat)
    requires Baited(q) && 0 < i < |q.needle|
    ensures Trace(q, i, i + 3, true)[1] == 4
    decreases i
  {
    hide D, M, BonusAt, Trace;
    WholeNeedle(q, i);
    TraceUnfold(q, i, i + 3, true);
    if i == 1 {
    } else {
      WholeNeedle(q, i - 1);
      TraceKeeps(q, i - 1);
    }
  }

  /** Position 4 is reported for the second character. */
  lemma SecondReported(q: Query)
    requires Baited(q)
    ensures Reported(q)[1] == 4
  {
    hide D, M, BonusAt, Trace;
    var i := |q.needle| - 1;
    WholeNeedle(q, i);
    WholeNeedle(q, i - 1);
    TraceUnfold(q, i, i + 3, false);
    TraceKeeps(q, i - 1);
  }

  // ---------- which needles ----------

  /** The reported positions match and earn the result. */
  ghost predicate Exact(q: Query)
    requires 0 < |q.needle| && 0 < |q.hay|
  {
    Matches(q, Reported(q)) && Best(q) == Val(Total(q, Reported(q)))
  }

  /** Every needle of three or more letters and digits has a haystack three characters longer on which the reported
      positions match but earn less than the result. */
  lemma DecoyLoses(needle: CString)
    requires |needle| >= 3 && AllAlnum(needle)
    ensures var q := Query(needle, Decoy(needle));
      && Best(q) == Val(200 * |needle| - 203)
      && Matches(q, Reported(q)) && Total(q, Reported(q)) < Best(q).v
  {
    hide D, M, Lossless, Reported, Total, Decoy;
    var q := Query(needle, Decoy(needle));
    DecoyBaits(needle);
    WholeNeedle(q, |needle| - 1);
    ReportedSound(q);
    SecondReported(q);
    SecondCellLossy(q);
  }

  /** For letters and digits length two is exactly the bound: the positions earn the result on all haystacks if and
      only if the needle has at most two characters. */
  lemma ExactIffShort(needle: CString)
    requires needle != [] && AllAlnum(needle)
    ensures |needle| <= 2
       <==> forall hay: CString :: hay != [] && Best(Query(needle, hay)) != Min ==> Exact(Query(needle, hay))
  {
    hide Best, Reported, Total, Decoy;
    if |needle| <= 2 {
      forall hay: CString | hay != [] && Best(Query(needle, hay)) != Min ensures Exact(Query(needle, hay)) {
        ReportedExactShort(Query(needle, hay));
      }
    } else {
      DecoyLoses(needle);
      assert !Exact(Query(needle, Decoy(needle)));
    }
  }
}
