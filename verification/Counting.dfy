// Facts about lists, and counting their elements and those of bounded sets.
module Counting {

  ghost predicate NoDup(s: seq<nat>) {
    forall i, j :: 0 <= i < j < |s| ==> s[i] != s[j]
  }

  /** A set of numbers below `n` has at most `n` elements, and with `n` it has them all. */
  lemma {:induction false} Crowded(ids: set<nat>, n: nat)
    requires forall id :: id in ids ==> id < n
    ensures |ids| <= n
    ensures |ids| == n ==> forall id :: 0 <= id < n ==> id in ids
  {
    if n == 0 {
      assert ids == {};
    } else {
      var below := ids - {n - 1};
      Crowded(below, n - 1);
      if n - 1 in ids {
        assert |ids| == |below| + 1;
        if |ids| == n {
          forall id | 0 <= id < n ensures id in ids {
            if id < n - 1 { assert id in below; }
          }
        }
      } else {
        assert ids == below;
      }
    }
  }

  ghost function Elems(s: seq<nat>): set<nat> {
    set id | id in s
  }

  lemma {:induction false} NoDupSize(s: seq<nat>)
    requires NoDup(s)
    ensures |Elems(s)| == |s|
  {
    if s == [] {
    } else {
      var t := s[1..];
      NoDupSize(t);
      assert Elems(s) == {s[0]} + Elems(t);
    }
  }

  /** More than `n` numbers below `n` cannot all be different. */
  lemma Pigeonhole(s: seq<nat>, n: nat)
    requires |s| > n && forall i :: 0 <= i < |s| ==> s[i] < n
    ensures !NoDup(s)
  {
    if NoDup(s) {
      NoDupSize(s);
      Crowded(Elems(s), n);
    }
  }

  lemma Associate<T>(a: seq<T>, b: seq<T>, c: seq<T>)
    ensures (a + b) + c == a + (b + c)
  {
  }
}
