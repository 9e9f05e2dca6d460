// The greedy filter that decides which candidates are scored at all.
module FzyFilter {
  import opened FzyScore
  import opened FzyMatch

  /** What the filter's character search accepts: the character itself or its upper case. */
  predicate Accepts(n: CChar, h: CChar) {
    h == n || h == ToUpper(n)
  }

  /** Strictly increasing positions at which the filter accepts the needle's characters. */
  ghost predicate Occurs(needle: CString, hay: CString, p: seq<int>) {
    && |p| == |needle|
    && (forall i :: 0 <= i < |p| ==> Lands(needle, hay, p, i))
    && (forall i, j :: 0 <= i < j < |p| ==> p[i] < p[j])
  }

  /** Position `i` is inside the haystack and accepted there. */
  predicate Lands(needle: CString, hay: CString, p: seq<int>, i: nat)
    requires i < |p| == |needle|
  {
    0 <= p[i] < |hay| && Accepts(needle[i], hay[p[i]])
  }

  ghost predicate Subsequence(needle: CString, hay: CString) {
    exists p :: Occurs(needle, hay, p)
  }

  /** First position from `from` on at which `c` is accepted, or -1. */
  method StrCaseChr(hay: CString, from: nat, c: CChar) returns (r: int)
    requires from <= |hay|
    ensures r == -1 || (from <= r < |hay| && Accepts(c, hay[r]))
    ensures forall j :: from <= j < (if r == -1 then |hay| else r) ==> !Accepts(c, hay[j])
  {
    var accept := [c, ToUpper(c)];
    for j := from to |hay|
      invariant forall k :: from <= k < j ==> !Accepts(c, hay[k])
    {
      if hay[j] in accept {
        return j;
      }
    }
    return -1;
  }

  function Shift(p: seq<int>, d: int): (r: seq<int>)
    ensures |r| == |p| && forall i :: 0 <= i < |p| ==> r[i] == p[i] + d
  {
    seq(|p|, i requires 0 <= i < |p| => p[i] + d)
  }

  lemma DropFirst(needle: CString, hay: CString, f: nat, p: seq<int>)
    requires needle != [] && f < |hay| && Occurs(needle, hay, p)
    requires forall j :: 0 <= j < f ==> !Accepts(needle[0], hay[j])
    ensures Occurs(needle[1..], hay[f + 1..], Shift(p[1..], -1 - f))
  {
    var n, h, r := needle[1..], hay[f + 1..], Shift(p[1..], -1 - f);
    assert Lands(needle, hay, p, 0);
    hide Accepts;
    forall i | 0 <= i < |r| ensures Lands(n, h, r, i) {
      assert Lands(needle, hay, p, i + 1) && p[0] < p[i + 1];
    }
  }

  lemma PutFirst(needle: CString, hay: CString, f: nat, r: seq<int>)
    requires needle != [] && f < |hay| && Accepts(needle[0], hay[f]) && Occurs(needle[1..], hay[f + 1..], r)
    ensures Occurs(needle, hay, [f] + Shift(r, f + 1))
  {
    var p := [f] + Shift(r, f + 1);
    hide Accepts;
    forall i | 0 <= i < |p| ensures Lands(needle, hay, p, i) {
      if i > 0 { Later(needle, hay, f, r, i - 1); }
    }
    forall i, j | 0 <= i < j < |p| ensures p[i] < p[j] {
      Later(needle, hay, f, r, j - 1);
      if i > 0 { Ordered(needle[1..], hay[f + 1..], r, i - 1, j - 1); }
    }
  }

  /** Place `i` of an occurrence in what follows `f`, seen from the whole haystack. */
  lemma Later(needle: CString, hay: CString, f: nat, r: seq<int>, i: nat)
    requires needle != [] && f < |hay| && Occurs(needle[1..], hay[f + 1..], r) && i < |r|
    ensures f < r[i] + f + 1 < |hay| && Accepts(needle[i + 1], hay[r[i] + f + 1])
  {
    hide Accepts;
    assert Lands(needle[1..], hay[f + 1..], r, i);
    assert needle[i + 1] == needle[1..][i] && hay[r[i] + f + 1] == hay[f + 1..][r[i]];
  }

  lemma Ordered(needle: CString, hay: CString, r: seq<int>, i: nat, j: nat)
    requires Occurs(needle, hay, r) && i < j < |r|
    ensures r[i] < r[j]
  {
  }

  /** Taking the first acceptable position never loses a match. */
  lemma TakeFirst(needle: CString, hay: CString, f: nat)
    requires needle != [] && f < |hay| && Accepts(needle[0], hay[f])
    requires forall j :: 0 <= j < f ==> !Accepts(needle[0], hay[j])
    ensures Subsequence(needle, hay) <==> Subsequence(needle[1..], hay[f + 1..])
  {
    hide Occurs;
    if Subsequence(needle, hay) {
      var p :| Occurs(needle, hay, p);
      DropFirst(needle, hay, f, p);
    }
    if Subsequence(needle[1..], hay[f + 1..]) {
      var r :| Occurs(needle[1..], hay[f + 1..], r);
      PutFirst(needle, hay, f, r);
    }
  }

  lemma FirstHit(needle: CString, hay: CString)
    requires needle != []
    ensures Subsequence(needle, hay) ==> exists j :: 0 <= j < |hay| && Accepts(needle[0], hay[j])
  {
    if Subsequence(needle, hay) {
      var p :| Occurs(needle, hay, p);
      assert Lands(needle, hay, p, 0);
    }
  }

  /** Greedy search: true exactly when the needle occurs in the haystack as a subsequence. */
  method HasMatch(needle: CString, hay: CString) returns (r: bool)
    ensures r <==> Subsequence(needle, hay)
  {
    var k: nat, pos: nat := 0, 0;
    while k < |needle|
      invariant k <= |needle| && pos <= |hay|
      invariant Subsequence(needle, hay) <==> Subsequence(needle[k..], hay[pos..])
    {
      var nch := needle[k];
      var at := StrCaseChr(hay, pos, nch);
      if at == -1 {
        FirstHit(needle[k..], hay[pos..]);
        return false;
      }
      TakeFirst(needle[k..], hay[pos..], at - pos);
      assert needle[k..][1..] == needle[k + 1..];
      assert hay[pos..][at - pos + 1..] == hay[at + 1..];
      k, pos := k + 1, at + 1;
    }
    assert Occurs(needle[k..], hay[pos..], []);
    return true;
  }

  /** Whatever the filter accepts also matches with both cases folded. */
  lemma AcceptedFolds(needle: CString, hay: CString, p: seq<int>)
    requires Occurs(needle, hay, p)
    ensures Matches(Query(needle, hay), p)
  {
    var q := Query(needle, hay);
    forall i | 0 <= i < |p| ensures 0 <= p[i] < |hay| && q.Hit(i, p[i]) {
      assert Lands(needle, hay, p, i);
    }
  }

  /** A candidate that passes the filter gets a finite score if it is longer than the needle, and equals
      the needle up to case if it is just as long. */
  lemma FilterImpliesScore(needle: CString, hay: CString)
    requires Subsequence(needle, hay) && needle != [] && |hay| <= MATCH_MAX_LEN
    ensures |needle| <= |hay|
    ensures |needle| < |hay| ==> Result(needle, hay).Val?
    ensures |needle| == |hay| ==> forall i :: 0 <= i < |hay| ==> ToLower(needle[i]) == ToLower(hay[i])
  {
    var p :| Occurs(needle, hay, p);
    var q := Query(needle, hay);
    AcceptedFolds(needle, hay, p);
    assert Lands(needle, hay, p, 0) && Lands(needle, hay, p, |p| - 1);
    Spread(p, |p| - 1);
    if |needle| < |hay| {
      BestBounds(q, p);
    } else {
      forall i | 0 <= i < |hay| ensures ToLower(needle[i]) == ToLower(hay[i]) {
        assert Lands(needle, hay, p, i);
        Spread(p, i);
        SpreadDown(p, i, |hay|);
        assert p[i] == i && q.Hit(i, i);
      }
    }
  }

  /** The filter's relation of characters: both cases of a lower-case character, an upper-case one only itself. */
  lemma AcceptsWhen(n: CChar, h: CChar)
    ensures Accepts(n, h) <==> ToLower(n) == ToLower(h) && (IsUpper(n) ==> h == n)
    ensures Accepts(n, h) <==> h == n || (97 <= n <= 122 && h == n - 32)
  {
  }

  /** The needle's upper-case characters are met by themselves. */
  ghost predicate CasesKept(needle: CString, hay: CString, p: seq<int>)
    requires Matches(Query(needle, hay), p)
  {
    forall i :: 0 <= i < |p| && IsUpper(needle[i]) ==> hay[p[i]] == needle[i]
  }

  lemma OccursWhen(needle: CString, hay: CString, p: seq<int>)
    ensures Occurs(needle, hay, p) <==> Matches(Query(needle, hay), p) && CasesKept(needle, hay, p)
  {
    hide Accepts, ToLower;
    var q := Query(needle, hay);
    if Occurs(needle, hay, p) {
      AcceptedFolds(needle, hay, p);
      forall i | 0 <= i < |p| ensures IsUpper(needle[i]) ==> hay[p[i]] == needle[i] {
        assert Lands(needle, hay, p, i);
        AcceptsWhen(needle[i], hay[p[i]]);
      }
    }
    if Matches(q, p) && CasesKept(needle, hay, p) {
      forall i | 0 <= i < |p| ensures Lands(needle, hay, p, i) {
        assert q.Hit(i, p[i]);
        AcceptsWhen(needle[i], hay[p[i]]);
      }
    }
  }

  /** The filter accepts a candidate exactly when some match meets the needle's upper-case characters by themselves. */
  lemma FilterExact(needle: CString, hay: CString)
    ensures Subsequence(needle, hay) <==> exists p :: Matches(Query(needle, hay), p) && CasesKept(needle, hay, p)
  {
    hide Occurs, Matches, CasesKept;
    forall p: seq<int>
      ensures Occurs(needle, hay, p) <==> Matches(Query(needle, hay), p) && CasesKept(needle, hay, p)
    {
      OccursWhen(needle, hay, p);
    }
  }

  /** So for a needle without upper-case letters it accepts exactly the candidates that score. */
  lemma FilterIsScore(needle: CString, hay: CString)
    requires 0 < |needle| && 0 < |hay| && forall c :: c in needle ==> !IsUpper(c)
    ensures Subsequence(needle, hay) <==> Best(Query(needle, hay)) != Min
  {
    hide Subsequence, Matches, Best, Total;
    FilterExact(needle, hay);
    BestIsMaximum(Query(needle, hay));
    forall p | Matches(Query(needle, hay), p) ensures CasesKept(needle, hay, p) {
      NoCaseToKeep(needle, hay, p);
    }
  }

  lemma NoCaseToKeep(needle: CString, hay: CString, p: seq<int>)
    requires Matches(Query(needle, hay), p) && forall c :: c in needle ==> !IsUpper(c)
    ensures CasesKept(needle, hay, p)
  {
  }

  /** With an upper-case letter it can refuse a candidate that scores: `A` in `ab`. */
  lemma FilterCanRefuse()
    ensures !Subsequence([65], [97, 98]) && Result([65], [97, 98]).Val?
  {
    var needle: CString, hay: CString := [65], [97, 98];
    FirstHit(needle, hay);
    assert Matches(Query(needle, hay), [0]);
    BestBounds(Query(needle, hay), [0]);
  }

  lemma {:induction false} Spread(p: seq<int>, i: nat)
    requires i < |p| && p[0] >= 0 && forall a, b :: 0 <= a < b < |p| ==> p[a] < p[b]
    ensures i <= p[i]
  {
    if i == 0 {
    } else {
      Spread(p, i - 1);
    }
  }

  lemma {:induction false} SpreadDown(p: seq<int>, i: nat, m: int)
    requires i < |p| && p[|p| - 1] < m && forall a, b :: 0 <= a < b < |p| ==> p[a] < p[b]
    ensures p[i] <= m - (|p| - i)
    decreases |p| - i
  {
    if i >= |p| - 1 {
    } else {
      SpreadDown(p, i + 1, m);
    }
  }
}
