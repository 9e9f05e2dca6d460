// The storage as clients see it: a row of regions in address order.
module Regions {

  /** One block of storage; `id` is the node slot that describes it. */
  datatype Region = Region(id: nat, offset: nat, size: nat, used: bool)

  /** Region `k` starts where the one before ends, and the two are not both free. */
  ghost predicate Joint(rs: seq<Region>, k: nat)
    requires 0 < k < |rs|
  {
    rs[k].offset == End(rs[k - 1]) && (rs[k - 1].used || rs[k].used)
  }

  ghost predicate Contiguous(rs: seq<Region>) {
    forall k :: 0 < k < |rs| ==> Joint(rs, k)
  }

  function End(r: Region): nat { r.offset + r.size }

  /** The regions cover `[0, total)` without gap or overlap. */
  ghost predicate Tiles(rs: seq<Region>, total: nat) {
    && |rs| > 0
    && rs[0].offset == 0
    && End(rs[|rs| - 1]) == total
    && Contiguous(rs)
  }

  ghost predicate DistinctIds(rs: seq<Region>) {
    forall i, j :: 0 <= i < j < |rs| ==> rs[i].id != rs[j].id
  }

  /** The region in slot `id`. */
  ghost function Named(rs: seq<Region>, id: nat): (r: Region)
    requires id in Ids(rs)
    ensures r in rs && r.id == id
  {
    var r :| r in rs && r.id == id;
    r
  }

  /** The regions that are in use (or free), by slot. */
  ghost function ById(rs: seq<Region>, used: bool): map<nat, Region>
    requires DistinctIds(rs)
  {
    map id | id in Ids(rs) && Named(rs, id).used == used :: Named(rs, id)
  }

  function Sum(rs: seq<Region>, used: bool): nat {
    if rs == [] then 0 else (if rs[0].used == used then rs[0].size else 0) + Sum(rs[1..], used)
  }

  /** Position of slot `id`, or `|rs|`. */
  function IndexOf(rs: seq<Region>, id: nat): (k: nat)
    ensures k <= |rs|
    ensures k < |rs| ==> rs[k].id == id
    ensures forall j :: 0 <= j < k ==> rs[j].id != id
  {
    if rs == [] then 0 else if rs[0].id == id then 0 else 1 + IndexOf(rs[1..], id)
  }

  /** Replace the regions `lo..hi` by `mid`. */
  function Splice(rs: seq<Region>, lo: nat, hi: nat, mid: seq<Region>): seq<Region>
    requires lo <= hi <= |rs|
  {
    rs[..lo] + mid + rs[hi..]
  }

  /** What is left of a region after its first `size` bytes have been taken. */
  function Remainder(r: Region, size: nat, spare: nat): (rest: Region)
    requires size <= r.size
    ensures rest.id == spare
  {
    Region(spare, r.offset + size, r.size - size, false)
  }

  /** A free region after its first `size` bytes have been taken. */
  function Halves(r: Region, size: nat, spare: nat): (mid: seq<Region>)
    requires size <= r.size
    ensures |mid| == if size < r.size then 2 else 1
  {
    [r.(size := size, used := true)]
    + if size < r.size then [Remainder(r, size, spare)] else []
  }

  /** Use the first `size` bytes of region `k`; what remains becomes a free region in slot `spare`. */
  function Take(rs: seq<Region>, k: nat, size: nat, spare: nat): seq<Region>
    requires k < |rs| && size <= rs[k].size
  {
    Splice(rs, k, k + 1, Halves(rs[k], size, spare))
  }

  /** First region merged when region `k` is released. */
  function MergeFrom(rs: seq<Region>, k: nat): (lo: nat)
    requires k < |rs|
    ensures lo <= k
  {
    if k > 0 && !rs[k - 1].used then k - 1 else k
  }

  /** One past the last region merged when region `k` is released. */
  function MergeTo(rs: seq<Region>, k: nat): (hi: nat)
    requires k < |rs|
    ensures k < hi <= |rs|
  {
    if k + 1 < |rs| && !rs[k + 1].used then k + 2 else k + 1
  }

  function MergedSize(rs: seq<Region>, k: nat): nat
    requires k < |rs|
  {
    rs[k].size
    + (if k > 0 && !rs[k - 1].used then rs[k - 1].size else 0)
    + (if k + 1 < |rs| && !rs[k + 1].used then rs[k + 1].size else 0)
  }

  function Merged(rs: seq<Region>, k: nat): Region
    requires k < |rs|
  {
    Region(rs[k].id, rs[MergeFrom(rs, k)].offset, MergedSize(rs, k), false)
  }

  /** Free region `k`, together with any free neighbour; the result keeps the slot of `k`. */
  function Release(rs: seq<Region>, k: nat): seq<Region>
    requires k < |rs|
  {
    Splice(rs, MergeFrom(rs, k), MergeTo(rs, k), [Merged(rs, k)])
  }

  lemma {:induction false} Ordered(rs: seq<Region>, i: nat, j: nat)
    requires Contiguous(rs) && i < j < |rs|
    ensures End(rs[i]) <= rs[j].offset
    decreases j
  {
    assert Joint(rs, j);
    if i >= j - 1 {
    } else {
      Ordered(rs, i, j - 1);
    }
  }

  /** Two different regions of a tiling do not overlap, and both lie inside the storage. */
  lemma Disjoint(rs: seq<Region>, total: nat, i: nat, j: nat)
    requires Tiles(rs, total) && i < j < |rs|
    ensures 0 <= rs[i].offset && End(rs[i]) <= rs[j].offset && End(rs[j]) <= total
  {
    Ordered(rs, i, j);
    InRange(rs, total, j);
  }

  lemma InRange(rs: seq<Region>, total: nat, i: nat)
    requires Tiles(rs, total) && i < |rs|
    ensures End(rs[i]) <= total
  {
    if i < |rs| - 1 { Ordered(rs, i, |rs| - 1); }
  }

  lemma ContiguousJoin(a: seq<Region>, b: seq<Region>)
    requires Contiguous(a) && Contiguous(b)
    requires |a| > 0 && |b| > 0 ==>
      End(a[|a| - 1]) == b[0].offset && (a[|a| - 1].used || b[0].used)
    ensures Contiguous(a + b)
  {
    var c := a + b;
    forall k | 0 < k < |c|
      ensures Joint(c, k)
    {
      if k < |a| {
        assert Joint(a, k);
      } else if k > |a| {
        assert Joint(b, k - |a|);
      }
    }
  }

  lemma ContiguousPart(rs: seq<Region>, lo: nat, hi: nat)
    requires Contiguous(rs) && lo <= hi <= |rs|
    ensures Contiguous(rs[lo..hi])
  {
    var c := rs[lo..hi];
    forall k | 0 < k < |c| ensures Joint(c, k) {
      assert Joint(rs, lo + k);
    }
  }

  /** Regions may be replaced by others that span the same bytes. */
  lemma SpliceTiles(rs: seq<Region>, total: nat, lo: nat, hi: nat, mid: seq<Region>)
    requires Tiles(rs, total) && lo < hi <= |rs| && |mid| > 0 && Contiguous(mid)
    requires mid[0].offset == rs[lo].offset && End(mid[|mid| - 1]) == End(rs[hi - 1])
    requires lo > 0 ==> rs[lo - 1].used || mid[0].used
    requires hi < |rs| ==> rs[hi].used || mid[|mid| - 1].used
    ensures Tiles(Splice(rs, lo, hi, mid), total)
  {
    ContiguousPart(rs, 0, lo);
    ContiguousPart(rs, hi, |rs|);
    assert rs[0..lo] == rs[..lo] && rs[hi..|rs|] == rs[hi..];
    if lo > 0 { assert Joint(rs, lo); }
    if hi < |rs| { assert Joint(rs, hi); }
    ContiguousJoin(rs[..lo], mid);
    ContiguousJoin(rs[..lo] + mid, rs[hi..]);
  }

  lemma TakeTiles(rs: seq<Region>, total: nat, k: nat, size: nat, spare: nat)
    requires Tiles(rs, total) && k < |rs| && size <= rs[k].size && !rs[k].used
    ensures Tiles(Take(rs, k, size, spare), total)
  {
    if k + 1 < |rs| { assert Joint(rs, k + 1); }
    if k > 0 { assert Joint(rs, k); }
    SpliceTiles(rs, total, k, k + 1, Halves(rs[k], size, spare));
  }

  lemma ReleaseSpan(rs: seq<Region>, total: nat, k: nat)
    requires Tiles(rs, total) && k < |rs| && rs[k].used
    ensures var lo, hi := MergeFrom(rs, k), MergeTo(rs, k);
      && End(Merged(rs, k)) == End(rs[hi - 1]) <= total
      && (lo > 0 ==> rs[lo - 1].used)
      && (hi < |rs| ==> rs[hi].used)
  {
    var lo, hi := MergeFrom(rs, k), MergeTo(rs, k);
    InRange(rs, total, hi - 1);
    if k > 0 { assert Joint(rs, k); }
    if k + 1 < |rs| { assert Joint(rs, k + 1); }
    if 0 < lo < k { assert Joint(rs, lo); }
    if k + 2 == hi < |rs| { assert Joint(rs, hi); }
  }

  lemma ReleaseTiles(rs: seq<Region>, total: nat, k: nat)
    requires Tiles(rs, total) && k < |rs| && rs[k].used
    ensures Tiles(Release(rs, k), total)
  {
    ReleaseSpan(rs, total, k);
    SpliceTiles(rs, total, MergeFrom(rs, k), MergeTo(rs, k), [Merged(rs, k)]);
  }

  lemma {:induction false} SumAppend(a: seq<Region>, b: seq<Region>, used: bool)
    ensures Sum(a + b, used) == Sum(a, used) + Sum(b, used)
  {
    if a == [] {
      assert a + b == b;
    } else {
      SumAppend(a[1..], b, used);
      assert (a + b)[1..] == a[1..] + b;
    }
  }

  lemma SumSplit(rs: seq<Region>, lo: nat, hi: nat, used: bool)
    requires lo <= hi <= |rs|
    ensures Sum(rs, used) == Sum(rs[..lo], used) + Sum(rs[lo..hi], used) + Sum(rs[hi..], used)
  {
    SumAppend(rs[..lo], rs[lo..hi], used);
    SumAppend(rs[..hi], rs[hi..], used);
    assert rs[..lo] + rs[lo..hi] == rs[..hi];
    assert rs[..hi] + rs[hi..] == rs;
  }

  lemma {:induction false} SumTiling(rs: seq<Region>)
    requires Contiguous(rs) && |rs| > 0
    ensures Sum(rs, true) + Sum(rs, false) == End(rs[|rs| - 1]) - rs[0].offset
  {
    if |rs| <= 1 {
    } else {
      ContiguousPart(rs, 1, |rs|);
      assert rs[1..|rs|] == rs[1..];
      SumTiling(rs[1..]);
      assert Joint(rs, 1);
    }
  }

  function Ids(rs: seq<Region>): set<nat> {
    set r | r in rs :: r.id
  }

  lemma IdsSplit(rs: seq<Region>, lo: nat, hi: nat)
    requires lo <= hi <= |rs| && DistinctIds(rs)
    ensures DistinctIds(rs[..lo]) && DistinctIds(rs[lo..hi]) && DistinctIds(rs[hi..])
    ensures Ids(rs) == Ids(rs[..lo]) + Ids(rs[lo..hi]) + Ids(rs[hi..])
    ensures Ids(rs[..lo]) !! Ids(rs[lo..hi]) !! Ids(rs[hi..])
  {
    assert rs == rs[..lo] + rs[lo..hi] + rs[hi..];
  }

  lemma JoinDistinct(a: seq<Region>, b: seq<Region>)
    requires DistinctIds(a) && DistinctIds(b) && Ids(a) !! Ids(b)
    ensures DistinctIds(a + b)
    ensures Ids(a + b) == Ids(a) + Ids(b)
  {
    forall i, j | 0 <= i < j < |a + b| ensures (a + b)[i].id != (a + b)[j].id {
      if i < |a| <= j { assert a[i].id in Ids(a) && b[j - |a|].id in Ids(b); }
    }
  }

  lemma ByIdHas(rs: seq<Region>, used: bool, r: Region)
    requires DistinctIds(rs) && r in rs
    ensures r.id in Ids(rs)
    ensures if r.used == used then r.id in ById(rs, used) && ById(rs, used)[r.id] == r else r.id !in ById(rs, used)
  {
    assert Named(rs, r.id) == r;
  }

  lemma ByIdFrom(rs: seq<Region>, used: bool, id: nat)
    requires DistinctIds(rs) && id in ById(rs, used)
    ensures var r := ById(rs, used)[id]; r in rs && r.id == id && r.used == used
  {
  }

  /** Joining rows with disjoint slots joins their lookup maps. */
  lemma JoinById(a: seq<Region>, b: seq<Region>, used: bool)
    requires DistinctIds(a) && DistinctIds(b) && DistinctIds(a + b) && Ids(a) !! Ids(b)
    ensures ById(a + b, used) == ById(a, used) + ById(b, used)
  {
    hide ById, DistinctIds, Ids;
    var ma, mb, m := ById(a, used), ById(b, used), ById(a + b, used);
    forall id | id in m ensures id in ma + mb && (ma + mb)[id] == m[id] {
      ByIdFrom(a + b, used, id);
      if m[id] in b {
        ByIdHas(b, used, m[id]);
      } else {
        ByIdHas(a, used, m[id]);
        if id in mb {
          ByIdFrom(b, used, id);
          ByIdHas(b, used, mb[id]);
        }
      }
    }
    forall id | id in ma + mb ensures id in m {
      if id in mb {
        ByIdFrom(b, used, id);
        ByIdHas(a + b, used, mb[id]);
      } else {
        ByIdFrom(a, used, id);
        ByIdHas(a + b, used, ma[id]);
      }
    }
  }

  /** Replacing regions replaces their entries in the lookup maps. */
  lemma SpliceById(rs: seq<Region>, lo: nat, hi: nat, mid: seq<Region>, used: bool)
    requires lo <= hi <= |rs| && DistinctIds(rs) && DistinctIds(mid)
    requires Ids(mid) * Ids(rs) <= Ids(rs[lo..hi])
    ensures DistinctIds(Splice(rs, lo, hi, mid))
    ensures Ids(Splice(rs, lo, hi, mid)) == Ids(rs) - Ids(rs[lo..hi]) + Ids(mid)
    ensures ById(Splice(rs, lo, hi, mid), used) == ById(rs, used) - Ids(rs[lo..hi]) + ById(mid, used)
  {
    var a, replaced, b := rs[..lo], rs[lo..hi], rs[hi..];
    IdsSplit(rs, lo, hi);
    JoinDistinct(a, replaced);
    JoinById(a, replaced, used);
    assert rs == a + replaced + b;
    JoinById(a + replaced, b, used);
    JoinDistinct(a, mid);
    JoinById(a, mid, used);
    JoinDistinct(a + mid, b);
    JoinById(a + mid, b, used);
    SpliceMaps(a, replaced, b, mid, used);
  }

  lemma ByIdKeys(rs: seq<Region>, used: bool)
    requires DistinctIds(rs)
    ensures ById(rs, used).Keys <= Ids(rs)
  {
  }

  lemma SpliceMaps(a: seq<Region>, o: seq<Region>, b: seq<Region>, m: seq<Region>, used: bool)
    requires DistinctIds(a) && DistinctIds(b) && DistinctIds(o) && DistinctIds(m)
    requires Ids(a) !! Ids(o) !! Ids(b)
    requires Ids(m) !! Ids(a) && Ids(m) !! Ids(b)
    ensures ById(a, used) + ById(m, used) + ById(b, used)
         == ById(a, used) + ById(o, used) + ById(b, used) - Ids(o) + ById(m, used)
  {
    hide ById, DistinctIds, Ids;
    ByIdKeys(a, used);
    ByIdKeys(b, used);
    ByIdKeys(o, used);
    ByIdKeys(m, used);
  }

  lemma {:induction false} MemberBelowSum(rs: seq<Region>, k: nat)
    requires k < |rs|
    ensures rs[k].size <= Sum(rs, rs[k].used)
  {
    if k == 0 {
    } else {
      MemberBelowSum(rs[1..], k - 1);
    }
  }
}
