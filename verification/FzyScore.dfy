// What a fuzzy match is worth, and the recurrences that compute the best one.
// Scores are in units of 1/200, so that every constant is an integer.
module FzyScore {

  const MATCH_MAX_LEN: nat := 1024

  const GAP_LEADING: int := -1
  const GAP_TRAILING: int := -1
  const GAP_INNER: int := -2
  const MATCH_CONSECUTIVE: int := 200
  const MATCH_SLASH: int := 180
  const MATCH_WORD: int := 160
  const MATCH_CAPITAL: int := 140
  const MATCH_DOT: int := 120

  /** A character of a C string. */
  type CChar = c: nat | 0 < c < 256 witness 1

  type CString = seq<CChar>

  /** `-INFINITY`, a finite score, `INFINITY`. */
  datatype Score = Min | Val(v: int) | Max

  function Plus(s: Score, k: int): Score {
    if s.Val? then Val(s.v + k) else s
  }

  predicate AtMost(a: Score, b: Score) {
    a.Min? || b.Max? || (a.Val? && b.Val? && a.v <= b.v)
  }

  /** The C macro `max`. */
  function Greater(a: Score, b: Score): Score {
    if AtMost(a, b) then b else a
  }

  predicate IsUpper(c: CChar) { 'A' as int <= c <= 'Z' as int }

  predicate IsLower(c: CChar) { 'a' as int <= c <= 'z' as int }

  predicate IsDigit(c: CChar) { '0' as int <= c <= '9' as int }

  function ToLower(c: CChar): CChar { if IsUpper(c) then c + 32 else c }

  function ToUpper(c: CChar): CChar { if IsLower(c) then c - 32 else c }

  /** `bonus_index` */
  function BonusIndex(ch: CChar): nat {
    if IsUpper(ch) then 2 else if IsLower(ch) || IsDigit(ch) then 1 else 0
  }

  /** `bonus_states`: a row of the table, by the character before. */
  function BonusState(index: nat, last: CChar): (b: int)
    ensures 0 <= b < MATCH_CONSECUTIVE
  {
    if index == 0 then 0
    else if last == '/' as int then MATCH_SLASH
    else if last == '-' as int || last == '_' as int || last == ' ' as int then MATCH_WORD
    else if last == '.' as int then MATCH_DOT
    else if index == 2 && IsLower(last) then MATCH_CAPITAL
    else 0
  }

  /** Reward for matching `ch` right after `last`: beginnings of path parts, words and humps. */
  function Bonus(last: CChar, ch: CChar): (b: int)
    ensures 0 <= b < MATCH_CONSECUTIVE
  {
    BonusState(BonusIndex(ch), last)
  }

  /** Bonus of position `j`; the haystack is taken to follow a slash. */
  function BonusAt(hay: CString, j: nat): (b: int)
    requires j < |hay|
    ensures 0 <= b < MATCH_CONSECUTIVE
  {
    Bonus(if j == 0 then '/' as int else hay[j - 1], hay[j])
  }

  datatype Query = Query(needle: CString, hay: CString) {
    predicate Hit(i: nat, j: nat)
      requires i < |needle| && j < |hay|
    {
      ToLower(needle[i]) == ToLower(hay[j])
    }
  }

  // ---------- the meaning of a match ----------

  /** Strictly increasing positions at which the first `|p|` needle characters occur, ignoring case. */
  ghost predicate Embeds(q: Query, p: seq<int>) {
    && |p| <= |q.needle|
    && (forall i :: 0 <= i < |p| ==> 0 <= p[i] < |q.hay| && q.Hit(i, p[i]))
    && (forall i, j :: 0 <= i < j < |p| ==> p[i] < p[j])
  }

  /** What matching at `c` is worth after a match at `b`. */
  function Gain(q: Query, b: int, c: int): int
    requires b < c && 0 <= c < |q.hay|
  {
    if c == b + 1 then MATCH_CONSECUTIVE else BonusAt(q.hay, c) + (c - b - 1) * GAP_INNER
  }

  /** Worth of a choice of positions, up to its last one. */
  ghost function Worth(q: Query, p: seq<int>): int
    requires Embeds(q, p) && |p| > 0
  {
    var k := |p| - 1;
    if k == 0 then p[0] * GAP_LEADING + BonusAt(q.hay, p[0])
    else Worth(q, p[..k]) + Gain(q, p[k - 1], p[k])
  }

  /** Worth of a full match: the characters after the last position count as trailing gap. */
  ghost function Total(q: Query, p: seq<int>): int
    requires Embeds(q, p) && |p| > 0
  {
    Worth(q, p) + (|q.hay| - 1 - p[|p| - 1]) * GAP_TRAILING
  }

  // ---------- the recurrences ----------

  function Gap(q: Query, i: nat): int {
    if i == |q.needle| - 1 then GAP_TRAILING else GAP_INNER
  }

  /** The gap score of `d` characters in row `i`. */
  function Gaps(q: Query, i: nat, d: int): int {
    if i == |q.needle| - 1 then d * GAP_TRAILING else d * GAP_INNER
  }

  /** Best score of the first `i + 1` needle characters with the last of them at `j`. */
  function D(q: Query, i: nat, j: nat): (s: Score)
    requires i < |q.needle| && j < |q.hay|
    ensures !s.Max?
    decreases i, j, 0
  {
    if !q.Hit(i, j) then Min
    else if i == 0 then Val(j * GAP_LEADING + BonusAt(q.hay, j))
    else if j == 0 then Min
    else Greater(Plus(M(q, i - 1, j - 1), BonusAt(q.hay, j)), Plus(D(q, i - 1, j - 1), MATCH_CONSECUTIVE))
  }

  /** Best score of the first `i + 1` needle characters within `hay[..j + 1]`, gaps up to `j` included. */
  function M(q: Query, i: nat, j: nat): (s: Score)
    requires i < |q.needle| && j < |q.hay|
    ensures !s.Max?
    ensures AtMost(D(q, i, j), s)
    decreases i, j, 1
  {
    Greater(D(q, i, j), if j == 0 then Min else Plus(M(q, i, j - 1), Gap(q, i)))
  }

  lemma RunningScore(q: Query, i: nat, j: nat)
    requires i < |q.needle| && j < |q.hay|
    ensures M(q, i, j) == if j == 0 then D(q, i, j) else Greater(D(q, i, j), Plus(M(q, i, j - 1), Gap(q, i)))
  {
  }

  lemma GapsGrow(q: Query, i: nat, d: int)
    ensures Gaps(q, i, 0) == 0 && Gaps(q, i, d + 1) == Gaps(q, i, d) + Gap(q, i)
  {
  }

  // ---------- the recurrences bound every match ----------

  lemma {:induction false} MExtends(q: Query, i: nat, j: nat, k: nat)
    requires i < |q.needle| && j <= k < |q.hay|
    ensures AtMost(Plus(D(q, i, j), Gaps(q, i, k - j)), M(q, i, k))
    decreases k
  {
    hide D, M, Gaps, Gap;
    RunningScore(q, i, k);
    GapsGrow(q, i, k - 1 - j);
    if j >= k {
    } else {
      MExtends(q, i, j, k - 1);
    }
  }

  lemma EmbedsPrefix(q: Query, p: seq<int>, k: nat)
    requires Embeds(q, p) && k <= |p|
    ensures Embeds(q, p[..k])
  {
  }

  /** No choice of positions is worth more than the table entry of its last position. */
  lemma {:induction false} WorthBounded(q: Query, p: seq<int>)
    requires Embeds(q, p) && |p| > 0
    ensures AtMost(Val(Worth(q, p)), D(q, |p| - 1, p[|p| - 1]))
    decreases |p|
  {
    hide D, M, Gain, BonusAt, Bonus;
    var k := |p| - 1;
    if k == 0 {
      FirstScore(q, p[0]);
    } else {
      assert p[k - 1] < p[k] && q.Hit(k, p[k]);
      EmbedsPrefix(q, p, k);
      WorthBounded(q, p[..k]);
      GainBounded(q, k, p[k - 1], p[k], Worth(q, p[..k]));
    }
  }

  lemma FirstScore(q: Query, j: nat)
    requires 0 < |q.needle| && j < |q.hay| && q.Hit(0, j)
    ensures D(q, 0, j) == Val(j * GAP_LEADING + BonusAt(q.hay, j))
  {
  }

  lemma GainBounded(q: Query, i: nat, b: nat, c: nat, w: int)
    requires 0 < i < |q.needle| && b < c < |q.hay| && q.Hit(i, c) && AtMost(Val(w), D(q, i - 1, b))
    ensures AtMost(Val(w + Gain(q, b, c)), D(q, i, c))
  {
    MExtends(q, i - 1, b, c - 1);
  }

  // ---------- the recurrences are attained ----------

  /** The last position up to `j` where row `i` has its best score at a hit, or -1. */
  function Latest(q: Query, i: nat, j: int): (c: int)
    requires i < |q.needle| && -1 <= j < |q.hay|
    ensures -1 <= c <= j
    ensures c >= 0 ==> D(q, i, c) != Min && D(q, i, c) == M(q, i, c)
    decreases j + 1
  {
    if j < 0 then -1
    else if D(q, i, j) != Min && D(q, i, j) == M(q, i, j) then j
    else Latest(q, i, j - 1)
  }

  /** A best score within `hay[..j + 1]` comes from the latest such position, minus the gap since. */
  lemma {:induction false} LatestReaches(q: Query, i: nat, j: nat)
    requires i < |q.needle| && j < |q.hay| && M(q, i, j) != Min
    ensures var c := Latest(q, i, j);
      c >= 0 && M(q, i, j) == Plus(D(q, i, c), Gaps(q, i, j - c))
  {
    hide D, M, Gaps, Gap;
    RunningScore(q, i, j);
    GapsGrow(q, i, 0);
    if D(q, i, j) != Min && D(q, i, j) == M(q, i, j) {
    } else {
      LatestReaches(q, i, j - 1);
      GapsGrow(q, i, j - 1 - Latest(q, i, j));
    }
  }

  lemma EmbedsAppend(q: Query, p: seq<int>, j: int)
    requires Embeds(q, p) && |p| < |q.needle| && 0 <= j < |q.hay| && q.Hit(|p|, j)
    requires |p| > 0 ==> p[|p| - 1] < j
    ensures Embeds(q, p + [j])
  {
  }

  lemma WorthAppend(q: Query, p: seq<int>, j: int)
    requires Embeds(q, p) && Embeds(q, p + [j]) && |p| > 0 && p[|p| - 1] < j < |q.hay|
    ensures Worth(q, p + [j]) == Worth(q, p) + Gain(q, p[|p| - 1], j)
  {
    assert (p + [j])[..|p|] == p;
  }

  /** Where the previous character is best matched when the score at `(i, j)` is to be reached. */
  function Before(q: Query, i: nat, j: nat): int
    requires 0 < i < |q.needle| && 0 < j < |q.hay|
  {
    if D(q, i, j) == Plus(D(q, i - 1, j - 1), MATCH_CONSECUTIVE) then j - 1 else Latest(q, i - 1, j - 1)
  }

  lemma BeforeReaches(q: Query, i: nat, j: nat)
    requires 0 < i < |q.needle| && j < |q.hay| && D(q, i, j) != Min
    ensures j > 0
    ensures var c := Before(q, i, j);
      && 0 <= c < j && D(q, i - 1, c) != Min && D(q, i, j) == Plus(D(q, i - 1, c), Gain(q, c, j))
  {
    if D(q, i, j) != Plus(D(q, i - 1, j - 1), MATCH_CONSECUTIVE) { LatestReaches(q, i - 1, j - 1); }
  }

  lemma OnePosition(q: Query, j: nat)
    requires 0 < |q.needle| && j < |q.hay| && D(q, 0, j) != Min
    ensures Embeds(q, [j]) && D(q, 0, j) == Val(Worth(q, [j]))
  {
  }

  lemma HitHere(q: Query, i: nat, j: nat)
    requires i < |q.needle| && j < |q.hay| && D(q, i, j) != Min
    ensures q.Hit(i, j)
  {
  }

  /** Every finite table entry is the worth of some choice of positions. */
  lemma {:induction false} DAttained(q: Query, i: nat, j: nat) returns (p: seq<int>)
    requires i < |q.needle| && j < |q.hay| && D(q, i, j) != Min
    ensures |p| == i + 1 && Embeds(q, p) && p[i] == j
    ensures D(q, i, j) == Val(Worth(q, p))
    decreases i
  {
    hide D, Before, Embeds, Worth;
    if i == 0 {
      p := [j];
      OnePosition(q, j);
    } else {
      HitHere(q, i, j);
      BeforeReaches(q, i, j);
      var r := DAttained(q, i - 1, Before(q, i, j));
      EmbedsAppend(q, r, j);
      WorthAppend(q, r, j);
      p := r + [j];
    }
  }

  // ---------- the result ----------

  ghost predicate Matches(q: Query, p: seq<int>) {
    |p| == |q.needle| && Embeds(q, p)
  }

  /** The score both search functions return for a needle shorter than the haystack. */
  function Best(q: Query): Score
    requires 0 < |q.needle| && 0 < |q.hay|
  {
    M(q, |q.needle| - 1, |q.hay| - 1)
  }

  /** No match is worth more than the result. */
  lemma BestBounds(q: Query, p: seq<int>)
    requires 0 < |q.needle| && 0 < |q.hay| && Matches(q, p)
    ensures AtMost(Val(Total(q, p)), Best(q))
  {
    var n, m := |q.needle|, |q.hay|;
    WorthBounded(q, p);
    MExtends(q, n - 1, p[n - 1], m - 1);
  }

  /** The result is `-INFINITY`, or the worth of a match. */
  lemma BestAttained(q: Query) returns (p: seq<int>)
    requires 0 < |q.needle| && 0 < |q.hay| && Best(q) != Min
    ensures Matches(q, p) && Best(q) == Val(Total(q, p))
  {
    var n, m := |q.needle|, |q.hay|;
    hide D, M, Worth, Total, Embeds, Gaps, Latest;
    LatestReaches(q, n - 1, m - 1);
    var c := Latest(q, n - 1, m - 1);
    p := DAttained(q, n - 1, c);
    TotalFromLast(q, p, c);
  }

  lemma TotalFromLast(q: Query, p: seq<int>, c: int)
    requires 0 < |q.needle| && 0 <= c < |q.hay| && Matches(q, p) && p[|p| - 1] == c
    requires D(q, |p| - 1, c) == Val(Worth(q, p))
    requires Best(q) == Plus(D(q, |p| - 1, c), Gaps(q, |p| - 1, |q.hay| - 1 - c))
    ensures Best(q) == Val(Total(q, p))
  {
  }

  /** The result is the maximum over all matches, and `-INFINITY` exactly when there is none. */
  lemma BestIsMaximum(q: Query)
    requires 0 < |q.needle| && 0 < |q.hay|
    ensures Best(q) == Min <==> !exists p :: Matches(q, p)
    ensures Best(q) != Min ==> exists p :: Matches(q, p) && Best(q) == Val(Total(q, p))
    ensures forall p :: Matches(q, p) ==> AtMost(Val(Total(q, p)), Best(q))
  {
    forall p | Matches(q, p) ensures AtMost(Val(Total(q, p)), Best(q)) { BestBounds(q, p); }
    if Best(q) != Min {
      var p := BestAttained(q);
      assert Matches(q, p);
    }
  }

  // ---------- the backtrace ----------

  /** The cell the backtrace stops at when it scans row `i` down from column `j`, or -1. */
  function Pick(q: Query, i: nat, j: int, required: bool): (c: int)
    requires i < |q.needle| && -1 <= j < |q.hay|
    ensures -1 <= c <= j
    decreases j + 1
  {
    if j < 0 then -1
    else if D(q, i, j) != Min && (required || D(q, i, j) == M(q, i, j)) then j
    else Pick(q, i, j - 1, required)
  }

  /** Whether the code then insists on the diagonal neighbour: it compares `M`, not `D`, with the consecutive score. */
  predicate Required(q: Query, i: nat, j: nat)
    requires i < |q.needle| && j < |q.hay|
  {
    i > 0 && j > 0 && M(q, i, j) == Plus(D(q, i - 1, j - 1), MATCH_CONSECUTIVE)
  }

  /** The positions the backtrace writes for needle characters `0..i`; -1 where it writes none. */
  function Trace(q: Query, i: int, j: int, required: bool): (p: seq<int>)
    requires -1 <= i < |q.needle| && -1 <= j < |q.hay|
    ensures |p| == i + 1
    decreases i + 1
  {
    if i < 0 then []
    else
      var c := Pick(q, i, j, required);
      if c < 0 then seq(i + 1, _ => -1)
      else Trace(q, i - 1, c - 1, Required(q, i, c)) + [c]
  }

  function Reported(q: Query): seq<int>
    requires 0 < |q.needle| && 0 < |q.hay|
  {
    Trace(q, |q.needle| - 1, |q.hay| - 1, false)
  }

  /** At cell `(i, j)` the backtrace loses nothing: the cell carries the row's best score, or its score
      was reached with a gap, or the best way to the diagonal neighbour ends in that neighbour. */
  predicate Lossless(q: Query, i: nat, j: nat)
    requires 0 < i < |q.needle| && 0 < j < |q.hay|
  {
    || D(q, i, j) == M(q, i, j)
    || D(q, i, j) == Plus(M(q, i - 1, j - 1), BonusAt(q.hay, j))
    || D(q, i - 1, j - 1) == M(q, i - 1, j - 1)
  }

  ghost predicate AllLossless(q: Query, p: seq<int>)
    requires Embeds(q, p)
  {
    forall i :: 0 < i < |p| ==> p[i - 1] < p[i] && Lossless(q, i, p[i])
  }

  /** What the scan of row `i` may rely on: the required cell is a hit, or the row has a finite score. */
  predicate Ready(q: Query, i: nat, j: int, required: bool)
    requires i < |q.needle| && -1 <= j < |q.hay|
  {
    j >= 0 && if required then D(q, i, j) != Min else M(q, i, j) != Min
  }

  lemma {:induction false} PickIsLatest(q: Query, i: nat, j: int)
    requires i < |q.needle| && -1 <= j < |q.hay|
    ensures Pick(q, i, j, false) == Latest(q, i, j)
    decreases j + 1
  {
    if j < 0 {
    } else {
      PickIsLatest(q, i, j - 1);
    }
  }

  /** From a cell the backtrace stops at, the next row can be scanned. */
  lemma StaysReady(q: Query, i: nat, c: nat)
    requires 0 < i < |q.needle| && c < |q.hay| && D(q, i, c) != Min
    ensures c > 0 && Ready(q, i - 1, c - 1, Required(q, i, c))
  {
  }

  lemma CellScore(q: Query, i: nat, c: nat)
    requires 0 < i < |q.needle| && 0 < c < |q.hay| && D(q, i, c) != Min
    ensures D(q, i, c)
         == Greater(Plus(M(q, i - 1, c - 1), BonusAt(q.hay, c)), Plus(D(q, i - 1, c - 1), MATCH_CONSECUTIVE))
  {
  }

  /** One row of the backtrace: the worth gained never exceeds the table's step, and equals it
      exactly at a lossless cell. */
  lemma RowStep(q: Query, i: nat, c: nat, b: nat, w: int)
    requires 0 < i < |q.needle| && b < c < |q.hay| && D(q, i, c) != Min
    requires b == Pick(q, i - 1, c - 1, Required(q, i, c))
    requires AtMost(Val(w), D(q, i - 1, b))
    ensures var w' := w + Gain(q, b, c);
      && AtMost(Val(w'), D(q, i, c))
      && (D(q, i, c) == Val(w') <==> D(q, i - 1, b) == Val(w) && Lossless(q, i, c))
  {
    hide D, M, Latest, BonusAt;
    StaysReady(q, i, c);
    CellScore(q, i, c);
    if !Required(q, i, c) {
      PickIsLatest(q, i - 1, c - 1);
      LatestReaches(q, i - 1, c - 1);
    }
  }

  /** `p` matches up to cell `(i, c)`, is worth at most that cell's score, and worth exactly that if lossless. */
  ghost predicate Earned(q: Query, p: seq<int>, i: nat, c: int) {
    && i < |q.needle| && 0 <= c < |q.hay| && |p| == i + 1
    && Embeds(q, p) && p[i] == c && D(q, i, c) != Min
    && AtMost(Val(Worth(q, p)), D(q, i, c))
    && (D(q, i, c) == Val(Worth(q, p)) <==> AllLossless(q, p))
  }

  /** Rows below joined with one more. */
  lemma TraceStep(q: Query, i: nat, r: seq<int>, c: int)
    requires 0 < i < |q.needle| && 0 < c < |q.hay| && D(q, i, c) != Min && q.Hit(i, c)
    requires Earned(q, r, i - 1, Pick(q, i - 1, c - 1, Required(q, i, c)))
    ensures Earned(q, r + [c], i, c)
  {
    EmbedsAppend(q, r, c);
    WorthAppend(q, r, c);
    RowStep(q, i, c, r[i - 1], Worth(q, r));
    LosslessAppend(q, r, c);
  }

  lemma PickReady(q: Query, i: nat, j: int, required: bool)
    requires i < |q.needle| && -1 <= j < |q.hay| && Ready(q, i, j, required)
    ensures var c := Pick(q, i, j, required); c >= 0 && D(q, i, c) != Min && q.Hit(i, c)
  {
    if !required {
      PickIsLatest(q, i, j);
      LatestReaches(q, i, j);
    }
    PickHits(q, i, j, required);
  }

  /** The backtrace finds a match of the first `i + 1` characters; its worth is at most the score of the cell it
      starts from, with equality exactly when no cell on the way is lossy. */
  lemma {:induction false} TraceSound(q: Query, i: nat, j: int, required: bool)
    requires i < |q.needle| && -1 <= j < |q.hay| && Ready(q, i, j, required)
    ensures Earned(q, Trace(q, i, j, required), i, Pick(q, i, j, required))
    decreases i
  {
    hide *;
    var c := NextReady(q, i, j, required);
    TraceUnfold(q, i, j, required);
    if i == 0 {
      FirstRow(q, c);
    } else {
      TraceSound(q, i - 1, c - 1, Required(q, i, c));
      TraceStep(q, i, Trace(q, i - 1, c - 1, Required(q, i, c)), c);
    }
  }

  lemma NextReady(q: Query, i: nat, j: int, required: bool) returns (c: int)
    requires i < |q.needle| && -1 <= j < |q.hay| && Ready(q, i, j, required)
    ensures c == Pick(q, i, j, required) >= 0 && D(q, i, c) != Min && q.Hit(i, c)
    ensures i > 0 ==> c > 0 && Ready(q, i - 1, c - 1, Required(q, i, c))
  {
    c := Pick(q, i, j, required);
    PickReady(q, i, j, required);
    if i > 0 { StaysReady(q, i, c); }
  }

  lemma TraceUnfold(q: Query, i: nat, j: int, required: bool)
    requires i < |q.needle| && -1 <= j < |q.hay| && Pick(q, i, j, required) >= 0
    ensures var c := Pick(q, i, j, required);
      Trace(q, i, j, required) == if i == 0 then [c] else Trace(q, i - 1, c - 1, Required(q, i, c)) + [c]
  {
  }

  lemma FirstRow(q: Query, c: int)
    requires 0 < |q.needle| && 0 <= c < |q.hay| && q.Hit(0, c)
    ensures Earned(q, [c], 0, c)
  {
  }

  lemma {:induction false} PickHits(q: Query, i: nat, j: int, required: bool)
    requires i < |q.needle| && -1 <= j < |q.hay| && Pick(q, i, j, required) >= 0
    ensures D(q, i, Pick(q, i, j, required)) != Min && q.Hit(i, Pick(q, i, j, required))
    decreases j + 1
  {
    if D(q, i, j) != Min && (required || D(q, i, j) == M(q, i, j)) {
    } else {
      PickHits(q, i, j - 1, required);
    }
  }

  lemma LosslessAppend(q: Query, p: seq<int>, c: int)
    requires Embeds(q, p) && Embeds(q, p + [c]) && 0 < |p| < |q.needle| && p[|p| - 1] < c < |q.hay| && 0 < c
    ensures AllLossless(q, p + [c]) <==> AllLossless(q, p) && Lossless(q, |p|, c)
  {
    var r := p + [c];
    if AllLossless(q, r) {
      forall i | 0 < i < |p| ensures p[i - 1] < p[i] && Lossless(q, i, p[i]) {
        assert r[i - 1] == p[i - 1] && r[i] == p[i];
      }
      assert r[|p|] == c;
    }
  }

  /** Gaps after the last position: from the cell's score to the result. */
  lemma ResultFromLast(q: Query)
    requires 0 < |q.needle| && 0 < |q.hay| && Best(q) != Min
    ensures var n, m := |q.needle|, |q.hay|;
      var c := Pick(q, n - 1, m - 1, false);
      && Ready(q, n - 1, m - 1, false)
      && c >= 0 && D(q, n - 1, c) == M(q, n - 1, c)
      && Best(q) == Plus(D(q, n - 1, c), (m - 1 - c) * GAP_TRAILING)
  {
    hide D, M, Pick, Latest;
    var n, m := |q.needle|, |q.hay|;
    PickIsLatest(q, n - 1, m - 1);
    LatestReaches(q, n - 1, m - 1);
  }

  /** `p` is a match worth at most the returned score, and worth exactly that if and only if
      every chosen cell is lossless. */
  ghost predicate Pays(q: Query, p: seq<int>)
    requires 0 < |q.needle| && 0 < |q.hay|
  {
    && Matches(q, p)
    && AtMost(Val(Total(q, p)), Best(q))
    && (Best(q) == Val(Total(q, p)) <==> AllLossless(q, p))
  }

  /** What the reported positions are worth. */
  lemma ReportedSound(q: Query)
    requires 0 < |q.needle| && 0 < |q.hay| && Best(q) != Min
    ensures Pays(q, Reported(q))
  {
    hide D, M, Pick, Trace, Ready, Earned, Pays, Best;
    var i, j := |q.needle| - 1, |q.hay| - 1;
    ResultFromLast(q);
    var p := Trace(q, i, j, false);
    TraceSound(q, i, j, false);
    TotalEarned(q, p, Pick(q, i, j, false));
  }

  lemma TotalEarned(q: Query, p: seq<int>, c: int)
    requires 0 < |q.needle| && 0 < |q.hay| && Earned(q, p, |q.needle| - 1, c)
    requires Best(q) == Plus(D(q, |q.needle| - 1, c), (|q.hay| - 1 - c) * GAP_TRAILING)
    ensures Pays(q, p)
  {
  }

  /** Sufficient: every chosen cell strictly inside carries its row's best score. */
  lemma ReportedExact(q: Query)
    requires 0 < |q.needle| && 0 < |q.hay| && Best(q) != Min
    requires var p := Reported(q);
      forall i :: 0 < i < |q.needle| - 1 && 0 <= p[i] < |q.hay| ==> D(q, i, p[i]) == M(q, i, p[i])
    ensures Matches(q, Reported(q)) && Best(q) == Val(Total(q, Reported(q)))
  {
    hide D, M, Best, Total, Worth, Trace, Pick, Bonus;
    ReportedSound(q);
    LastPicked(q);
    var p := Reported(q);
    forall i | 0 < i < |p| ensures p[i - 1] < p[i] && Lossless(q, i, p[i]) {
      assert p[i - 1] < p[i];
    }
  }

  /** In particular the positions always earn the score for needles of at most two characters. */
  lemma ReportedExactShort(q: Query)
    requires 0 < |q.needle| <= 2 && 0 < |q.hay| && Best(q) != Min
    ensures Matches(q, Reported(q)) && Best(q) == Val(Total(q, Reported(q)))
  {
    ReportedExact(q);
  }

  /** The needle's character `i` matches at most one position. */
  ghost predicate Once(q: Query, i: nat)
    requires i < |q.needle|
  {
    forall j, k :: 0 <= j < k < |q.hay| ==> !(q.Hit(i, j) && q.Hit(i, k))
  }

  lemma {:induction false} NoHitYet(q: Query, i: nat, j: nat)
    requires i < |q.needle| && j < |q.hay| && forall k :: 0 <= k <= j ==> !q.Hit(i, k)
    ensures M(q, i, j) == Min
    decreases j
  {
    if j == 0 {
    } else {
      NoHitYet(q, i, j - 1);
    }
  }

  /** A character with one possible position has its best score there. */
  lemma OnceBest(q: Query, i: nat, j: nat)
    requires i < |q.needle| && j < |q.hay| && Once(q, i) && q.Hit(i, j)
    ensures D(q, i, j) == M(q, i, j)
  {
    if j > 0 { NoHitYet(q, i, j - 1); }
  }

  lemma OnceLossless(q: Query, i: nat, j: nat)
    requires 0 < i < |q.needle| && 0 < j < |q.hay| && q.Hit(i, j)
    requires Once(q, i) || Once(q, i - 1)
    ensures Lossless(q, i, j)
  {
    if Once(q, i) {
      OnceBest(q, i, j);
    } else if q.Hit(i - 1, j - 1) {
      OnceBest(q, i - 1, j - 1);
    }
  }

  /** The positions earn the score whenever, of any two neighbouring characters of the needle before its last one,
      one matches at most one position of the haystack. */
  lemma ReportedExactDistinct(q: Query)
    requires 0 < |q.needle| && 0 < |q.hay| && Best(q) != Min
    requires forall i :: 0 < i < |q.needle| - 1 ==> Once(q, i) || Once(q, i - 1)
    ensures Matches(q, Reported(q)) && Best(q) == Val(Total(q, Reported(q)))
  {
    hide Once, Best, M, Total, Worth, Bonus;
    ReportedSound(q);
    var p := Reported(q);
    forall i | 0 < i < |p| ensures p[i - 1] < p[i] && Lossless(q, i, p[i]) {
      if i < |p| - 1 {
        OnceLossless(q, i, p[i]);
      } else {
        LastPicked(q);
      }
    }
  }

  lemma LastPicked(q: Query)
    requires 0 < |q.needle| && 0 < |q.hay| && Best(q) != Min && Pays(q, Reported(q))
    ensures var i := |q.needle| - 1; D(q, i, Reported(q)[i]) == M(q, i, Reported(q)[i])
  {
    hide D, M, Best, Total, Worth, Trace, Pick, Bonus;
    ResultFromLast(q);
    TraceUnfold(q, |q.needle| - 1, |q.hay| - 1, false);
  }

  const LOSSY: Query := Query([97, 97, 98], [97, 97, 97, 98])

  lemma LossyTable()
    ensures M(LOSSY, 0, 0) == Val(180) && M(LOSSY, 0, 1) == Val(178) && M(LOSSY, 0, 2) == Val(176)
    ensures D(LOSSY, 0, 0) == Val(180) && D(LOSSY, 0, 1) == Val(-1) && D(LOSSY, 0, 2) == Val(-2)
    ensures D(LOSSY, 1, 1) == M(LOSSY, 1, 1) == Val(380)
    ensures D(LOSSY, 1, 2) == Val(199) && M(LOSSY, 1, 2) == Val(378)
    ensures D(LOSSY, 2, 3) == M(LOSSY, 2, 3) == Val(399)
  {
    var q := LOSSY;
    assert D(q, 0, 0) == Val(180) && D(q, 0, 1) == Val(-1) && D(q, 0, 2) == Val(-2);
    assert M(q, 0, 0) == Val(180) && M(q, 0, 1) == Val(178) && M(q, 0, 2) == Val(176);
    assert D(q, 1, 0) == Min && D(q, 1, 1) == Val(380) && D(q, 1, 2) == Val(199);
    assert M(q, 1, 0) == Min && M(q, 1, 1) == Val(380) && M(q, 1, 2) == Val(378);
    assert D(q, 2, 0) == Min && D(q, 2, 1) == Min && D(q, 2, 2) == Min && D(q, 2, 3) == Val(399);
    assert M(q, 2, 0) == Min && M(q, 2, 1) == Min && M(q, 2, 2) == Min;
  }

  lemma LossyPositions()
    ensures Reported(LOSSY) == [0, 2, 3]
  {
    var q := LOSSY;
    LossyTable();
    assert Pick(q, 2, 3, false) == 3;
    assert Required(q, 2, 3);
    assert Pick(q, 1, 2, true) == 2;
    assert !Required(q, 1, 2);
    assert Pick(q, 0, 1, false) == 0;
    assert Trace(q, 0, 1, false) == [0];
    assert Trace(q, 1, 2, true) == [0, 2];
  }

  lemma LossyWorth()
    ensures Matches(LOSSY, [0, 2, 3]) && Total(LOSSY, [0, 2, 3]) == 378
  {
    hide Embeds, Worth, Gain, Bonus, D, M;
    var q := LOSSY;
    LossyGains();
    assert [0] + [2] == [0, 2] && [0, 2] + [3] == [0, 2, 3];
    OnePosition(q, 0);
    EmbedsAppend(q, [0], 2);
    WorthAppend(q, [0], 2);
    EmbedsAppend(q, [0, 2], 3);
    WorthAppend(q, [0, 2], 3);
  }

  lemma LossyGains()
    ensures D(LOSSY, 0, 0) == Val(180) && Gain(LOSSY, 0, 2) == -2 && Gain(LOSSY, 2, 3) == 200
  {
  }

  /** The positions need not earn the score: `aab` in `aaab` scores 399 (positions 1, 2, 3),
      but the backtrace reports 0, 2, 3, worth 378. */
  lemma ReportedCanLose()
    ensures Best(LOSSY) == Val(399)
    ensures Reported(LOSSY) == [0, 2, 3]
    ensures Matches(LOSSY, [0, 2, 3]) && Total(LOSSY, [0, 2, 3]) == 378
  {
    LossyTable();
    LossyPositions();
    LossyWorth();
  }
}
