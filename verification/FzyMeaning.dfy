// What a score means, written out in character codes and numbers: scores are in units of 1/200.
module FzyMeaning {
  import opened FzyScore

  /** The same character, or the two cases of one letter. */
  predicate Alike(a: CChar, b: CChar) {
    a == b || (65 <= a <= 90 && b == a + 32) || (65 <= b <= 90 && a == b + 32)
  }

  predicate LetterOrDigit(ch: CChar) {
    48 <= ch <= 57 || 65 <= ch <= 90 || 97 <= ch <= 122
  }

  /** The table of rewards: a letter or digit after a slash, after one of `-`, `_` and space, after a dot, and an
      upper-case letter after a lower-case one. */
  lemma BonusTable(last: CChar, ch: CChar)
    ensures !LetterOrDigit(ch) ==> Bonus(last, ch) == 0
    ensures LetterOrDigit(ch) && last == 47 ==> Bonus(last, ch) == 180
    ensures LetterOrDigit(ch) && (last == 45 || last == 95 || last == 32) ==> Bonus(last, ch) == 160
    ensures LetterOrDigit(ch) && last == 46 ==> Bonus(last, ch) == 120
    ensures 65 <= ch <= 90 && 97 <= last <= 122 ==> Bonus(last, ch) == 140
    ensures (48 <= ch <= 57 || 97 <= ch <= 122) && last !in {32, 45, 46, 47, 95} ==> Bonus(last, ch) == 0
    ensures 65 <= ch <= 90 && last !in {32, 45, 46, 47, 95} && !(97 <= last <= 122) ==> Bonus(last, ch) == 0
  {
  }

  /** The reward at position `j`; the haystack counts as following a slash. */
  function Reward(hay: CString, j: nat): int
    requires j < |hay|
  {
    var ch, last := hay[j], if j == 0 then 47 else hay[j - 1];
    if !LetterOrDigit(ch) then 0
    else if last == 47 then 180
    else if last == 45 || last == 95 || last == 32 then 160
    else if last == 46 then 120
    else if 65 <= ch <= 90 && 97 <= last <= 122 then 140
    else 0
  }

  /** Increasing positions with the needle's characters, in either case. */
  ghost predicate Fits(needle: CString, hay: CString, p: seq<int>) {
    && |p| == |needle|
    && (forall i :: 0 <= i < |p| ==> 0 <= p[i] < |hay| && Alike(needle[i], hay[p[i]]))
    && (forall i, j :: 0 <= i < j < |p| ==> p[i] < p[j])
  }

  ghost predicate Placed(hay: CString, p: seq<int>) {
    && (forall i :: 0 <= i < |p| ==> 0 <= p[i] < |hay|)
    && (forall i, j :: 0 <= i < j < |p| ==> p[i] < p[j])
  }

  /** 1 off for every character in front, 2 for every one skipped inside; 200 for a character right after the one
      before, otherwise its reward. */
  ghost function Points(hay: CString, p: seq<int>): int
    requires Placed(hay, p) && p != []
    decreases |p|
  {
    var k := |p| - 1;
    if k == 0 then Reward(hay, p[0]) - p[0]
    else if p[k] == p[k - 1] + 1 then Points(hay, p[..k]) + 200
    else Points(hay, p[..k]) + Reward(hay, p[k]) - 2 * (p[k] - p[k - 1] - 1)
  }

  /** And 1 off for every character behind. */
  ghost function Value(hay: CString, p: seq<int>): int
    requires Placed(hay, p) && p != []
  {
    Points(hay, p) - (|hay| - 1 - p[|p| - 1])
  }

  /** `r` is the greatest value, or minus infinity when the needle does not fit at all. */
  ghost predicate IsScore(needle: CString, hay: CString, r: Score)
    requires needle != []
  {
    && (r == Min <==> !exists p :: Fits(needle, hay, p))
    && (forall p :: Fits(needle, hay, p) ==> AtMost(Val(Value(hay, p)), r))
    && (r != Min ==> exists p :: Fits(needle, hay, p) && r == Val(Value(hay, p)))
  }

  // ---------- the recurrences compute it ----------

  lemma AlikeFolds(a: CChar, b: CChar)
    ensures Alike(a, b) <==> ToLower(a) == ToLower(b)
  {
  }

  lemma RewardIsBonus(hay: CString, j: nat)
    requires j < |hay|
    ensures Reward(hay, j) == BonusAt(hay, j)
  {
    BonusTable(if j == 0 then '/' as int else hay[j - 1], hay[j]);
  }

  lemma FitsMatches(needle: CString, hay: CString, p: seq<int>)
    ensures Fits(needle, hay, p) <==> Matches(Query(needle, hay), p)
  {
    var q := Query(needle, hay);
    hide Alike, ToLower;
    forall i | 0 <= i < |p| && |p| == |needle| && 0 <= p[i] < |hay|
      ensures Alike(needle[i], hay[p[i]]) <==> q.Hit(i, p[i])
    {
      AlikeFolds(needle[i], hay[p[i]]);
    }
  }

  lemma {:induction false} PointsAreWorth(q: Query, p: seq<int>)
    requires Embeds(q, p) && p != []
    ensures Placed(q.hay, p) && Points(q.hay, p) == Worth(q, p)
    decreases |p|
  {
    hide Reward, BonusAt;
    var k := |p| - 1;
    RewardIsBonus(q.hay, p[k]);
    if k == 0 {
    } else {
      EmbedsPrefix(q, p, k);
      PointsAreWorth(q, p[..k]);
    }
  }

  lemma ValueIsTotal(needle: CString, hay: CString, p: seq<int>)
    requires Matches(Query(needle, hay), p) && needle != []
    ensures p != [] && Placed(hay, p) && Value(hay, p) == Total(Query(needle, hay), p)
  {
    PointsAreWorth(Query(needle, hay), p);
  }

  /** The best score of the recurrences is the greatest value. */
  lemma BestIsScore(needle: CString, hay: CString)
    requires needle != [] && hay != []
    ensures IsScore(needle, hay, Best(Query(needle, hay)))
  {
    hide Fits, Embeds, Value, Total, Best, Placed;
    var q := Query(needle, hay);
    BestIsMaximum(q);
    forall p: seq<int>
      ensures Fits(needle, hay, p) <==> Matches(q, p)
      ensures Matches(q, p) ==> Placed(hay, p) && p != [] && Value(hay, p) == Total(q, p)
    {
      FitsMatches(needle, hay, p);
      if Matches(q, p) { ValueIsTotal(needle, hay, p); }
    }
  }
}
