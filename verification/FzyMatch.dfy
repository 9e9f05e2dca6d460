// The search functions with their buffers, tables and loops.
module FzyMatch {
  import opened FzyScore
  import opened FzyMeaning

  /** Buffers filled from needle and haystack before the tables are computed. */
  class MatchStruct {
    var needleLen: nat
    var haystackLen: nat
    const lowerNeedle: array<CChar>
    const lowerHaystack: array<CChar>
    const matchBonus: array<int>

    constructor ()
      ensures fresh(lowerNeedle) && fresh(lowerHaystack) && fresh(matchBonus) && Buffers()
    {
      lowerNeedle, lowerHaystack := new CChar[MATCH_MAX_LEN](_ => 1), new CChar[MATCH_MAX_LEN](_ => 1);
      matchBonus := new int[MATCH_MAX_LEN];
    }

    ghost predicate Buffers() {
      lowerNeedle.Length == lowerHaystack.Length == matchBonus.Length == MATCH_MAX_LEN && lowerNeedle != lowerHaystack
    }

    /** The buffers hold what the recurrences read. */
    ghost predicate Holds(q: Query)
      reads this, lowerNeedle, lowerHaystack, matchBonus
    {
      && Buffers() && needleLen == |q.needle| <= haystackLen == |q.hay| <= MATCH_MAX_LEN
      && (forall i :: 0 <= i < |q.needle| ==> lowerNeedle[i] == ToLower(q.needle[i]))
      && (forall j :: 0 <= j < |q.hay| ==> lowerHaystack[j] == ToLower(q.hay[j]))
      && (forall j :: 0 <= j < |q.hay| ==> matchBonus[j] == BonusAt(q.hay, j))
    }

    method PrecomputeBonus(haystack: CString)
      requires Buffers() && |haystack| <= MATCH_MAX_LEN
      modifies matchBonus
      ensures forall j :: 0 <= j < |haystack| ==> matchBonus[j] == BonusAt(haystack, j)
    {
      var lastCh: CChar := '/' as int;
      for i := 0 to |haystack|
        invariant lastCh == if i == 0 then '/' as int else haystack[i - 1]
        invariant forall j :: 0 <= j < i ==> matchBonus[j] == BonusAt(haystack, j)
      {
        var ch := haystack[i];
        matchBonus[i] := Bonus(lastCh, ch);
        lastCh := ch;
      }
    }

    /** Record the lengths, and fill the buffers unless the haystack is too long or too short. */
    method Setup(needle: CString, haystack: CString)
      requires Buffers()
      modifies this, lowerNeedle, lowerHaystack, matchBonus
      ensures needleLen == |needle| && haystackLen == |haystack|
      ensures |needle| <= |haystack| <= MATCH_MAX_LEN ==> Holds(Query(needle, haystack))
    {
      needleLen, haystackLen := |needle|, |haystack|;
      if haystackLen > MATCH_MAX_LEN || needleLen > haystackLen {
        return;
      }
      Lower(needle, lowerNeedle);
      Lower(haystack, lowerHaystack);
      PrecomputeBonus(haystack);
    }

    static method Lower(s: CString, buffer: array<CChar>)
      requires |s| <= buffer.Length
      modifies buffer
      ensures forall i :: 0 <= i < |s| ==> buffer[i] == ToLower(s[i])
    {
      for i := 0 to |s|
        invariant forall k :: 0 <= k < i ==> buffer[k] == ToLower(s[k])
      {
        buffer[i] := ToLower(s[i]);
      }
    }
  }

  /** The arrays hold the first `j` columns of row `i` of both tables. */
  ghost predicate RowPart(q: Query, i: nat, j: nat, d: array<Score>, m: array<Score>)
    requires i < |q.needle| && j <= |q.hay|
    reads d, m
  {
    && |q.hay| <= d.Length && |q.hay| <= m.Length
    && (forall k :: 0 <= k < j ==> d[k] == D(q, i, k))
    && (forall k :: 0 <= k < j ==> m[k] == M(q, i, k))
  }

  /** The arrays hold row `i`. */
  ghost predicate RowHolds(q: Query, i: nat, d: array<Score>, m: array<Score>)
    requires i < |q.needle|
    reads d, m
  {
    RowPart(q, i, |q.hay|, d, m)
  }

  /** Score of cell `(i, j)` when the two characters agree. */
  method HitScore(ms: MatchStruct, i: nat, j: nat, lastD: array<Score>, lastM: array<Score>, ghost q: Query)
    returns (score: Score)
    requires ms.Holds(q) && i < |q.needle| && j < |q.hay| && q.Hit(i, j)
    requires i > 0 ==> RowHolds(q, i - 1, lastD, lastM)
    ensures score == D(q, i, j)
  {
    score := Min;
    if i == 0 {
      score := Val(j * GAP_LEADING + ms.matchBonus[j]);
    } else if j > 0 {
      score := Greater(Plus(lastM[j - 1], ms.matchBonus[j]), Plus(lastD[j - 1], MATCH_CONSECUTIVE));
    }
  }

  lemma MissScore(q: Query, i: nat, j: nat)
    requires i < |q.needle| && j < |q.hay| && !q.Hit(i, j)
    ensures D(q, i, j) == Min
    ensures M(q, i, j) == Plus(if j == 0 then Min else M(q, i, j - 1), Gap(q, i))
  {
  }

  /** One step of a row: the cell's score, and the running best score of the row. */
  method Cell(ms: MatchStruct, i: nat, j: nat, lastD: array<Score>, lastM: array<Score>,
              prevScore: Score, gapScore: int, ghost q: Query) returns (score: Score, best: Score)
    requires ms.Holds(q) && i < |q.needle| && j < |q.hay|
    requires i > 0 ==> RowHolds(q, i - 1, lastD, lastM)
    requires prevScore == (if j == 0 then Min else M(q, i, j - 1)) && gapScore == Gap(q, i)
    ensures score == D(q, i, j) && best == M(q, i, j)
  {
    if ms.lowerNeedle[i] == ms.lowerHaystack[j] {
      score := HitScore(ms, i, j, lastD, lastM, q);
      RunningScore(q, i, j);
      best := Greater(score, Plus(prevScore, gapScore));
    } else {
      MissScore(q, i, j);
      score, best := Min, Plus(prevScore, gapScore);
    }
  }

  /** Compute row `row` of both tables from the row before it. */
  method MatchRow(ms: MatchStruct, row: nat, currD: array<Score>, currM: array<Score>,
                  lastD: array<Score>, lastM: array<Score>, ghost q: Query)
    requires ms.Holds(q) && row < |q.needle|
    requires row > 0 ==> RowHolds(q, row - 1, lastD, lastM)
    requires |q.hay| <= currD.Length && |q.hay| <= currM.Length
    requires currD != currM && currD != lastD && currD != lastM && currM != lastD && currM != lastM
    modifies currD, currM
    ensures RowHolds(q, row, currD, currM)
  {
    hide D, M;
    var n, m, i := ms.needleLen, ms.haystackLen, row;
    var prevScore := Min;
    var gapScore := if i == n - 1 then GAP_TRAILING else GAP_INNER;
    for j := 0 to m
      invariant prevScore == if j == 0 then Min else M(q, i, j - 1)
      invariant RowPart(q, i, j, currD, currM)
    {
      var score, best := Cell(ms, i, j, lastD, lastM, prevScore, gapScore, q);
      currD[j] := score;
      currM[j] := best;
      prevScore := best;
    }
  }

  /** What both search functions return. */
  function Result(needle: CString, haystack: CString): Score {
    if needle == [] || |haystack| > MATCH_MAX_LEN || |needle| > |haystack| then Min
    else if |needle| == |haystack| then Max
    else Best(Query(needle, haystack))
  }

  /** The score alone, keeping two rows of each table. */
  method Match(needle: CString, haystack: CString) returns (r: Score)
    ensures r == Result(needle, haystack)
    ensures needle == [] || |haystack| > 1024 || |needle| > |haystack| ==> r == Min
    ensures 0 < |needle| == |haystack| <= 1024 ==> r == Max
    ensures 0 < |needle| < |haystack| <= 1024 ==> IsScore(needle, haystack, r)
  {
    hide IsScore, Best;
    if needle == [] {
      return Min;
    }
    var ms := new MatchStruct();
    ms.Setup(needle, haystack);
    var n, m := ms.needleLen, ms.haystackLen;
    if m > MATCH_MAX_LEN || n > m {
      return Min;
    } else if n == m {
      return Max;
    }
    r := LastScore(ms, Query(needle, haystack));
    BestIsScore(needle, haystack);
  }

  /** All rows one after the other: the last score of the last row. */
  method LastScore(ms: MatchStruct, ghost q: Query) returns (r: Score)
    requires ms.Holds(q) && 0 < |q.needle|
    ensures r == Best(q)
  {
    hide D, M;
    var lastD, lastM := new Score[MATCH_MAX_LEN](_ => Min), new Score[MATCH_MAX_LEN](_ => Min);
    var currD, currM := new Score[MATCH_MAX_LEN](_ => Min), new Score[MATCH_MAX_LEN](_ => Min);
    for i := 0 to ms.needleLen
      invariant ms.Holds(q)
      invariant fresh(lastD) && fresh(lastM) && fresh(currD) && fresh(currM)
      invariant lastD.Length == lastM.Length == currD.Length == currM.Length == MATCH_MAX_LEN
      invariant currD != currM && currD != lastD && currD != lastM && currM != lastD && currM != lastM && lastD != lastM
      invariant i > 0 ==> RowHolds(q, i - 1, lastD, lastM)
    {
      MatchRow(ms, i, currD, currM, lastD, lastM, q);
      currD, lastD := lastD, currD;
      currM, lastM := lastM, currM;
    }
    return lastM[ms.haystackLen - 1];
  }

  /** The score, from full tables, and the positions the backtrace reports. */
  method MatchPositions(needle: CString, haystack: CString, positions: array?<int>) returns (r: Score)
    requires positions != null ==> positions.Length >= |needle|
    modifies positions
    ensures r == Result(needle, haystack)
    ensures positions != null ==>
      if r == Min then positions[..] == old(positions[..])
      else if r == Max then positions[..] == seq(|needle|, i => i) + old(positions[|needle|..])
      else positions[..] == Reported(Query(needle, haystack)) + old(positions[|needle|..])
  {
    hide D, M, Trace, Pick;
    if needle == [] {
      return Min;
    }
    var ms := new MatchStruct();
    ms.Setup(needle, haystack);
    var n, m := ms.needleLen, ms.haystackLen;
    if m > MATCH_MAX_LEN || n > m {
      return Min;
    } else if n == m {
      if positions != null {
        Identity(n, positions);
      }
      return Max;
    }
    ghost var q := Query(needle, haystack);
    var tableD, tableM := FillTables(ms, q);
    if positions != null {
      Backtrace(tableD, tableM, m, positions, q);
    }
    r := tableM[n - 1][m - 1];
  }

  method Identity(n: nat, positions: array<int>)
    requires n <= positions.Length
    modifies positions
    ensures positions[..] == seq(n, i => i) + old(positions[n..])
  {
    for i := 0 to n
      invariant forall k :: 0 <= k < i ==> positions[k] == k
      invariant positions[i..] == old(positions[i..])
    {
      positions[i] := i;
    }
  }

  /** Row `i` of each table, in an array of its own. */
  ghost predicate TablesHold(q: Query, tableD: seq<array<Score>>, tableM: seq<array<Score>>)
    reads tableD, tableM
  {
    && |tableD| == |tableM| <= |q.needle|
    && forall i :: 0 <= i < |tableD| ==> RowHolds(q, i, tableD[i], tableM[i])
  }

  /** Allocate and compute row `i` after the rows before it. */
  method NextRow(ms: MatchStruct, i: nat, tableD: seq<array<Score>>, tableM: seq<array<Score>>, ghost q: Query)
    returns (currD: array<Score>, currM: array<Score>)
    requires ms.Holds(q) && |tableD| == i < |q.needle| && TablesHold(q, tableD, tableM)
    ensures fresh(currD) && fresh(currM) && RowHolds(q, i, currD, currM)
  {
    currD, currM := new Score[MATCH_MAX_LEN](_ => Min), new Score[MATCH_MAX_LEN](_ => Min);
    if i == 0 {
      var lastD, lastM := new Score[0], new Score[0];
      MatchRow(ms, i, currD, currM, lastD, lastM, q);
    } else {
      MatchRow(ms, i, currD, currM, tableD[i - 1], tableM[i - 1], q);
    }
  }

  method FillTables(ms: MatchStruct, ghost q: Query) returns (tableD: seq<array<Score>>, tableM: seq<array<Score>>)
    requires ms.Holds(q)
    ensures |tableD| == |q.needle| && TablesHold(q, tableD, tableM)
    ensures forall i :: 0 <= i < |tableD| ==> fresh(tableD[i]) && fresh(tableM[i])
  {
    hide RowHolds;
    tableD, tableM := [], [];
    for i := 0 to ms.needleLen
      invariant |tableD| == |tableM| == i && TablesHold(q, tableD, tableM)
      invariant forall k :: 0 <= k < i ==> fresh(tableD[k]) && fresh(tableM[k])
    {
      var currD, currM := NextRow(ms, i, tableD, tableM, q);
      tableD, tableM := tableD + [currD], tableM + [currM];
    }
  }

  /** Scan one row down from column `start`. */
  method ScanRow(rowD: array<Score>, rowM: array<Score>, start: int, matchRequired: bool, ghost q: Query, i: nat)
    returns (j: int)
    requires i < |q.needle| && -1 <= start < |q.hay| && RowHolds(q, i, rowD, rowM)
    ensures j == Pick(q, i, start, matchRequired)
  {
    j := start;
    while j >= 0
      invariant -1 <= j <= start
      invariant Pick(q, i, start, matchRequired) == Pick(q, i, j, matchRequired)
    {
      if rowD[j] != Min && (matchRequired || rowD[j] == rowM[j]) {
        return;
      }
      j := j - 1;
    }
  }

  /** Scan the rows from the last to the first, writing the positions found. */
  method Backtrace(tableD: seq<array<Score>>, tableM: seq<array<Score>>, m: nat, positions: array<int>, ghost q: Query)
    requires 0 < |q.needle| == |tableD| && 0 < |q.hay| == m && TablesHold(q, tableD, tableM)
    requires positions.Length >= |q.needle|
    modifies positions
    ensures positions[..] == if Best(q) == Min then old(positions[..]) else Reported(q) + old(positions[|q.needle|..])
  {
    hide D, M, Pick, Best, TablesHold, Trace;
    ghost var t, before := Reported(q), positions[..];
    var i, j, matchRequired := |tableD| - 1, m - 1, false;
    while i >= 0
      invariant -1 <= i < |q.needle| && -1 <= j < |q.hay|
      invariant Trace(q, i, j, matchRequired) == t[..i + 1]
      invariant forall k :: 0 <= k < positions.Length ==>
        positions[k] == if i < k < |t| && t[k] >= 0 then t[k] else before[k]
    {
      j, matchRequired := TraceRow(tableD, tableM, i, j, matchRequired, positions, q);
      TracePrefix(t, i);
      i := i - 1;
    }
    ReportedOrNone(q);
    FilledIn(positions[..], before, t);
  }

  lemma FilledIn(p: seq<int>, before: seq<int>, t: seq<int>)
    requires |t| <= |p| == |before|
    requires forall k :: 0 <= k < |p| ==> p[k] == if k < |t| && t[k] >= 0 then t[k] else before[k]
    ensures (forall k :: 0 <= k < |t| ==> t[k] >= 0) ==> p == t + before[|t|..]
    ensures (forall k :: 0 <= k < |t| ==> t[k] < 0) ==> p == before
  {
  }

  lemma TracePrefix(t: seq<int>, i: nat)
    requires i < |t|
    ensures t[..i + 1][..i] == t[..i] && t[..i + 1][i] == t[i]
  {
  }

  /** One row of the backtrace. */
  method TraceRow(tableD: seq<array<Score>>, tableM: seq<array<Score>>, i: nat, start: int, required: bool,
                  positions: array<int>, ghost q: Query) returns (j: int, matchRequired: bool)
    requires i < |q.needle| == |tableD| <= positions.Length && -1 <= start < |q.hay| && TablesHold(q, tableD, tableM)
    modifies positions
    ensures -1 <= j < |q.hay|
    ensures Trace(q, i - 1, j, matchRequired) == Trace(q, i, start, required)[..i]
    ensures var c := Trace(q, i, start, required)[i];
      positions[..] == if c >= 0 then old(positions[..])[i := c] else old(positions[..])
  {
    hide D, M, Pick;
    assert RowHolds(q, i, tableD[i], tableM[i]);
    j := ScanRow(tableD[i], tableM[i], start, required, q, i);
    matchRequired := required;
    if j >= 0 {
      TraceUnfold(q, i, start, required);
      matchRequired := false;
      if i > 0 && j > 0 {
        assert RowHolds(q, i - 1, tableD[i - 1], tableM[i - 1]);
        matchRequired := tableM[i][j] == Plus(tableD[i - 1][j - 1], MATCH_CONSECUTIVE);
      }
      positions[i] := j;
      j := j - 1;
    }
  }

  /** Without a match nothing is reported; with one, every position is. */
  lemma ReportedOrNone(q: Query)
    requires 0 < |q.needle| && 0 < |q.hay|
    ensures forall k :: 0 <= k < |q.needle| ==> (Reported(q)[k] >= 0 <==> Best(q) != Min)
  {
    hide D, M, Latest;
    var n, m := |q.needle|, |q.hay|;
    if Best(q) == Min {
      PickIsLatest(q, n - 1, m - 1);
      var c := Latest(q, n - 1, m - 1);
      if c >= 0 { MExtends(q, n - 1, c, m - 1); }
    } else {
      ReportedSound(q);
    }
  }
}
