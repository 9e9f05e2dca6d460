// The offset allocator as an abstract machine: the row of regions, the free
// lists of the size classes (most recently filed first) and the stack of spare
// node slots (top last).  The class in Allocator.dfy refines its two steps.
module Machine {
  import opened Bits
  import opened Counting
  import opened Regions
  import opened SmallFloat

  datatype State = State(total: nat, slots: nat, regions: seq<Region>, bins: seq<seq<nat>>, spare: seq<nat>)

  datatype Outcome = NoSpace | Placed(id: nat, offset: nat)

  function Remove(s: seq<nat>, id: nat): seq<nat> {
    if s == [] then [] else if s[0] == id then s[1..] else [s[0]] + Remove(s[1..], id)
  }

  function File(bins: seq<seq<nat>>, b: nat, id: nat): seq<seq<nat>>
    requires b < |bins|
  {
    bins[b := [id] + bins[b]]
  }

  function Unfile(bins: seq<seq<nat>>, b: nat, id: nat): (r: seq<seq<nat>>)
    requires b < |bins|
    ensures |r| == |bins|
  {
    bins[b := Remove(bins[b], id)]
  }

  function BinOf(r: Region): nat {
    UintToFloatRoundDown(r.size)
  }

  /** Every free region is listed once, in the bin of its size, and nothing else is listed. */
  ghost predicate Filed(bins: seq<seq<nat>>, free: map<nat, Region>) {
    && |bins| == NUM_LEAF_BINS
    && (forall b :: 0 <= b < |bins| ==> NoDup(bins[b]))
    && (forall id :: id in free ==> BinOf(free[id]) < |bins|)
    && (forall b, id :: 0 <= b < |bins| ==>
          (id in bins[b] <==> id in free && BinOf(free[id]) == b))
  }

  /** Spare slots and listed slots share out `0..slots` between them, and one slot is always spare. */
  ghost predicate Shared(spare: seq<nat>, ids: set<nat>, listed: nat, slots: nat) {
    && |spare| >= 1
    && NoDup(spare)
    && (forall id :: id in spare ==> id < slots && id !in ids)
    && (forall id :: id in ids ==> id < slots)
    && |spare| + listed == slots
  }

  ghost predicate Inv(s: State) {
    && s.total < WORD
    && Tiles(s.regions, s.total)
    && DistinctIds(s.regions)
    && Filed(s.bins, ById(s.regions, false))
    && Shared(s.spare, Ids(s.regions), |s.regions|, s.slots)
  }

  ghost function Live(s: State): map<nat, Region>
    requires Inv(s)
  {
    ById(s.regions, true)
  }

  /** The least non-empty bin at or above `from`, or the number of bins. */
  function LeastBin(bins: seq<seq<nat>>, from: nat): (b: nat)
    ensures b < |bins| ==> from <= b && bins[b] != []
    ensures b >= |bins| ==> b == from || b == |bins|
    ensures forall i :: from <= i < b && i < |bins| ==> bins[i] == []
    decreases |bins| - from
  {
    if from >= |bins| || bins[from] != [] then from else LeastBin(bins, from + 1)
  }

  /** Position of the region a non-empty bin offers first. */
  ghost function HeadIndex(s: State, b: nat): (k: nat)
    requires Inv(s) && b < |s.bins| && s.bins[b] != []
    ensures k < |s.regions|
    ensures s.regions[k].id == s.bins[b][0] && !s.regions[k].used && BinOf(s.regions[k]) == b
  {
    var id := s.bins[b][0];
    assert id in s.bins[b];
    var r := ById(s.regions, false)[id];
    IndexOfMember(s.regions, r);
    IndexOf(s.regions, id)
  }

  lemma IndexOfMember(rs: seq<Region>, r: Region)
    requires DistinctIds(rs) && r in rs
    ensures IndexOf(rs, r.id) < |rs| && rs[IndexOf(rs, r.id)] == r
  {
    var i :| 0 <= i < |rs| && rs[i] == r;
    assert rs[i].id == rs[IndexOf(rs, r.id)].id;
  }

  /** Serve `size` bytes from the first region of bin `b`. */
  ghost function Carve(s: State, b: nat, size: nat): State
    requires Inv(s) && |s.spare| > 1 && b < |s.bins| && s.bins[b] != []
    requires size <= s.regions[HeadIndex(s, b)].size
  {
    var k := HeadIndex(s, b);
    var r := s.regions[k];
    var top := |s.spare| - 1;
    var bins := Unfile(s.bins, b, r.id);
    if size == r.size then
      s.(regions := Take(s.regions, k, size, s.spare[top]), bins := bins)
    else
      InRange(s.regions, s.total, k);
      RoundDownGreatest(r.size - size);
      s.(regions := Take(s.regions, k, size, s.spare[top]),
         bins := File(bins, UintToFloatRoundDown(r.size - size), s.spare[top]),
         spare := s.spare[..top])
  }

  ghost function AllocStep(s: State, size: uint32): (r: (State, Outcome))
    requires Inv(s)
  {
    var b := LeastBin(s.bins, UintToFloatRoundUp(size));
    if |s.spare| == 1 || b >= |s.bins| then (s, NoSpace)
    else
      var k := HeadIndex(s, b);
      HeadFits(s, b, size);
      (Carve(s, b, size), Placed(s.regions[k].id, s.regions[k].offset))
  }

  lemma HeadFits(s: State, b: nat, size: uint32)
    requires Inv(s) && UintToFloatRoundUp(size) <= b < |s.bins| && s.bins[b] != []
    ensures size <= s.regions[HeadIndex(s, b)].size
  {
    var r := s.regions[HeadIndex(s, b)];
    InRange(s.regions, s.total, HeadIndex(s, b));
    BinFits(size, r.size);
    RoundUpLeast(size);
  }

  /** The free neighbours that are merged into region `k`, in the order they are unfiled. */
  function Absorbed(rs: seq<Region>, k: nat): seq<Region>
    requires k < |rs|
  {
    (if MergeFrom(rs, k) < k then [rs[k - 1]] else []) + (if MergeTo(rs, k) > k + 1 then [rs[k + 1]] else [])
  }

  function Slots(rs: seq<Region>): (ids: seq<nat>)
    ensures |ids| == |rs|
    ensures forall i :: 0 <= i < |rs| ==> ids[i] == rs[i].id
  {
    if rs == [] then [] else [rs[0].id] + Slots(rs[1..])
  }

  /** Take regions out of their bins one after the other. */
  function UnfileAll(bins: seq<seq<nat>>, gone: seq<Region>): (r: seq<seq<nat>>)
    requires forall r :: r in gone ==> BinOf(r) < |bins|
    ensures |r| == |bins|
    decreases |gone|
  {
    if gone == [] then bins else UnfileAll(Unfile(bins, BinOf(gone[0]), gone[0].id), gone[1..])
  }

  /** Release the region in slot `id`: absorb free neighbours, file the result, reuse the slot. */
  ghost function FreeStep(s: State, id: nat): State
    requires Inv(s) && id in Live(s)
  {
    var rs := s.regions;
    var k := IndexOf(rs, id);
    IndexOfMember(rs, Live(s)[id]);
    ReleaseBins(s, k);
    s.(regions := Release(rs, k),
       bins := File(UnfileAll(s.bins, Absorbed(rs, k)), BinOf(Merged(rs, k)), id),
       spare := s.spare + Slots(Absorbed(rs, k)))
  }

  lemma BinInRange(s: State, k: nat)
    requires Inv(s) && k < |s.regions|
    ensures BinOf(s.regions[k]) < 240
  {
    InRange(s.regions, s.total, k);
    RoundDownGreatest(s.regions[k].size);
  }

  lemma InvParts(s: State)
    requires Inv(s)
    ensures s.total < WORD && Tiles(s.regions, s.total) && |s.bins| == NUM_LEAF_BINS
  {
  }

  /** The bins touched by releasing region `k` exist. */
  lemma ReleaseBins(s: State, k: nat)
    requires Inv(s) && k < |s.regions| && s.regions[k].used
    ensures forall r :: r in Absorbed(s.regions, k) ==> BinOf(r) < |s.bins|
    ensures End(Merged(s.regions, k)) <= s.total
    ensures BinOf(Merged(s.regions, k)) < |s.bins|
  {
    hide Inv, Tiles, UintToFloatRoundDown;
    InvParts(s);
    if k > 0 { BinInRange(s, k - 1); }
    if k + 1 < |s.regions| { BinInRange(s, k + 1); }
    ReleaseSpan(s.regions, s.total, k);
    RoundDownGreatest(MergedSize(s.regions, k));
  }

  // ---------- the free lists ----------

  lemma {:induction false} RemoveMember(s: seq<nat>, id: nat, x: nat)
    requires NoDup(s)
    ensures x in Remove(s, id) <==> x in s && x != id
  {
    if s == [] {
    } else {
      assert x in s <==> x == s[0] || x in s[1..];
      if s[0] != id { RemoveMember(s[1..], id, x); }
    }
  }

  lemma {:induction false} RemoveNoDup(s: seq<nat>, id: nat)
    requires NoDup(s)
    ensures NoDup(Remove(s, id))
  {
    if s == [] || s[0] == id {
    } else {
      var t := Remove(s[1..], id);
      RemoveNoDup(s[1..], id);
      RemoveMember(s[1..], id, s[0]);
      assert s[0] !in t;
    }
  }

  lemma RemoveMembers(s: seq<nat>, id: nat)
    requires NoDup(s)
    ensures NoDup(Remove(s, id))
    ensures forall x :: x in Remove(s, id) <==> x in s && x != id
  {
    RemoveNoDup(s, id);
    forall x ensures x in Remove(s, id) <==> x in s && x != id { RemoveMember(s, id, x); }
  }

  lemma FiledUnfile(bins: seq<seq<nat>>, free: map<nat, Region>, id: nat)
    requires Filed(bins, free) && id in free
    ensures Filed(Unfile(bins, BinOf(free[id]), id), free - {id})
  {
    RemoveMembers(bins[BinOf(free[id])], id);
  }

  lemma FiledFile(bins: seq<seq<nat>>, free: map<nat, Region>, r: Region)
    requires Filed(bins, free) && r.id !in free && BinOf(r) < |bins|
    ensures Filed(File(bins, BinOf(r), r.id), free[r.id := r])
  {
  }

  // ---------- what a step keeps ----------

  lemma TakeById(rs: seq<Region>, k: nat, size: nat, spare: nat)
    requires DistinctIds(rs) && k < |rs| && size <= rs[k].size && !rs[k].used && spare !in Ids(rs)
    ensures var r, t := rs[k], Take(rs, k, size, spare);
      && DistinctIds(t)
      && Ids(t) == Ids(rs) + (if size < r.size then {spare} else {})
      && ById(t, true) == ById(rs, true)[r.id := r.(size := size, used := true)]
      && ById(t, false) == (ById(rs, false) - {r.id})
           + (if size < r.size then map[spare := Remainder(r, size, spare)] else map[])
  {
    hide *;
    TakeUsed(rs, k, size, spare, true);
    TakeUsed(rs, k, size, spare, false);
    HalvesById(rs[k], size, spare);
    FreeNotUsed(rs, k);
    PutNew(ById(rs, true), rs[k].id, rs[k].(size := size, used := true));
  }

  lemma TakeUsed(rs: seq<Region>, k: nat, size: nat, spare: nat, used: bool)
    requires DistinctIds(rs) && k < |rs| && size <= rs[k].size && spare !in Ids(rs)
    ensures var r, t, mid := rs[k], Take(rs, k, size, spare), Halves(rs[k], size, spare);
      && r.id != spare && DistinctIds(mid) && DistinctIds(t)
      && Ids(t) == Ids(rs) + (if size < r.size then {spare} else {})
      && ById(t, used) == ById(rs, used) - {r.id} + ById(mid, used)
  {
    var r, mid := rs[k], Halves(rs[k], size, spare);
    assert rs[k..k + 1] == [r];
    assert r.id in Ids(rs);
    OneId(r);
    HalvesById(r, size, spare);
    hide ById, Halves, DistinctIds, Splice, Ids;
    SpliceById(rs, k, k + 1, mid, used);
  }

  lemma TakeIds(rs: seq<Region>, k: nat, size: nat, spare: nat)
    requires DistinctIds(rs) && k < |rs| && size <= rs[k].size && spare !in Ids(rs)
    ensures Ids(Take(rs, k, size, spare)) == Ids(rs) + (if size < rs[k].size then {spare} else {})
  {
    hide *;
    TakeUsed(rs, k, size, spare, true);
  }

  lemma OneId(r: Region)
    ensures Ids([r]) == {r.id}
  {
  }

  /** Map facts, once for all. */
  lemma PutNew<V>(m: map<nat, V>, id: nat, v: V)
    ensures m - {id} + map[id := v] == m[id := v]
  {
  }

  lemma HalvesById(r: Region, size: nat, spare: nat)
    requires size <= r.size && r.id != spare
    ensures var mid := Halves(r, size, spare);
      && DistinctIds(mid)
      && Ids(mid) == {r.id} + (if size < r.size then {spare} else {})
      && ById(mid, true) == map[r.id := r.(size := size, used := true)]
      && ById(mid, false) ==
           (if size < r.size then map[spare := Remainder(r, size, spare)] else map[])
  {
    var a := r.(size := size, used := true);
    var b := Remainder(r, size, spare);
    if size < r.size {
      assert Halves(r, size, spare) == [a, b];
    } else {
      assert Halves(r, size, spare) == [a];
    }
  }

  /** A slot describes either a used or a free region. */
  lemma FreeNotUsed(rs: seq<Region>, k: nat)
    requires DistinctIds(rs) && k < |rs|
    ensures rs[k].id !in ById(rs, !rs[k].used)
    ensures rs[k].id in ById(rs, rs[k].used) && ById(rs, rs[k].used)[rs[k].id] == rs[k]
  {
    assert rs[k] in rs;
  }

  lemma SharedPop(spare: seq<nat>, ids: set<nat>, listed: nat, slots: nat)
    requires Shared(spare, ids, listed, slots) && |spare| > 1
    ensures var top := |spare| - 1; Shared(spare[..top], ids + {spare[top]}, listed + 1, slots)
  {
    var rest, last := spare[..|spare| - 1], spare[|spare| - 1];
    assert last in spare;
    forall id | id in rest ensures id < slots && id !in ids + {last} {
      assert id in spare;
    }
  }

  lemma SharedPush(spare: seq<nat>, ids: set<nat>, listed: nat, slots: nat, more: seq<nat>)
    requires Shared(spare, ids, listed, slots) && |more| <= listed && NoDup(more)
    requires forall id :: id in more ==> id in ids
    ensures Shared(spare + more, ids - (set id | id in more), listed - |more|, slots)
  {
    var all := spare + more;
    forall i, j | 0 <= i < j < |all| ensures all[i] != all[j] {
      if i < |spare| <= j { assert spare[i] in spare && more[j - |spare|] in more; }
    }
  }

  /** What is left of the region that bin `b` offers, in the topmost spare slot. */
  ghost function Rest(s: State, b: nat, size: nat): (rest: Region)
    requires Inv(s) && b < |s.bins| && s.bins[b] != []
    requires size <= s.regions[HeadIndex(s, b)].size
    ensures rest.id == s.spare[|s.spare| - 1]
  {
    Remainder(s.regions[HeadIndex(s, b)], size, s.spare[|s.spare| - 1])
  }

  lemma RegionBin(s: State, k: nat, size: nat)
    requires Inv(s) && k < |s.regions| && size <= s.regions[k].size
    ensures UintToFloatRoundDown(s.regions[k].size - size) < |s.bins|
  {
    InRange(s.regions, s.total, k);
    RoundDownGreatest(s.regions[k].size - size);
  }

  /** The fields after serving a request. */
  lemma CarveParts(s: State, b: nat, size: nat)
    requires Inv(s) && |s.spare| > 1 && b < |s.bins| && s.bins[b] != []
    requires size <= s.regions[HeadIndex(s, b)].size
    ensures var t, k, rest := Carve(s, b, size), HeadIndex(s, b), Rest(s, b, size);
      var r := s.regions[k];
      && t.total == s.total && t.slots == s.slots
      && t.regions == Take(s.regions, k, size, rest.id)
      && BinOf(rest) < |s.bins|
      && if size == r.size then t.bins == Unfile(s.bins, b, r.id) && t.spare == s.spare
         else t.bins == File(Unfile(s.bins, b, r.id), BinOf(rest), rest.id) && t.spare == s.spare[..|s.spare| - 1]
  {
    hide Take, Tiles, DistinctIds, Shared, HeadIndex, ById, Filed, Ids, File, Unfile, UintToFloatRoundDown, Inv;
    var k := HeadIndex(s, b);
    RegionBin(s, k, size);
  }

  /** The free lists follow the free regions. */
  lemma CarveFiled(s: State, b: nat, size: nat)
    requires Inv(s) && |s.spare| > 1 && b < |s.bins| && s.bins[b] != []
    requires size <= s.regions[HeadIndex(s, b)].size
    ensures var t := Carve(s, b, size); DistinctIds(t.regions) && Filed(t.bins, ById(t.regions, false))
  {
    var k, rest := HeadIndex(s, b), Rest(s, b, size);
    var r, free := s.regions[k], ById(s.regions, false);
    TopSpare(s);
    CarveParts(s, b, size);
    TakeById(s.regions, k, size, rest.id);
    FreeNotUsed(s.regions, k);
    FiledUnfile(s.bins, free, r.id);
    ByIdKeys(s.regions, false);
    hide Carve, Take, Tiles, ById, Filed, DistinctIds, HeadIndex, BinOf, Unfile, File, Ids, Shared, Remainder;
    if size < r.size {
      FiledFile(Unfile(s.bins, b, r.id), free - {r.id}, rest);
      PutLast(free - {r.id}, rest);
    } else {
      Nothing(free - {r.id}, Ids(s.regions));
    }
  }

  /** The slots are still shared out. */
  lemma CarveShared(s: State, b: nat, size: nat)
    requires Inv(s) && |s.spare| > 1 && b < |s.bins| && s.bins[b] != []
    requires size <= s.regions[HeadIndex(s, b)].size
    ensures var t := Carve(s, b, size); Shared(t.spare, Ids(t.regions), |t.regions|, t.slots)
  {
    var k, rest := HeadIndex(s, b), Rest(s, b, size);
    hide Carve, Take, Tiles, ById, Filed, DistinctIds, HeadIndex, Unfile, File, Ids, Shared, BinOf, Rest, Remainder;
    TopSpare(s);
    CarveParts(s, b, size);
    TakeIds(s.regions, k, size, rest.id);
    TakeLength(s.regions, k, size, rest.id);
    if size < s.regions[k].size {
      SharedPop(s.spare, Ids(s.regions), |s.regions|, s.slots);
    } else {
      assert Ids(s.regions) + {} == Ids(s.regions);
    }
  }

  /** Serving a request keeps every invariant, records it as live, and disturbs no other live region. */
  lemma CarveKeeps(s: State, b: nat, size: nat)
    requires Inv(s) && |s.spare| > 1 && b < |s.bins| && s.bins[b] != []
    requires size <= s.regions[HeadIndex(s, b)].size
    ensures Inv(Carve(s, b, size))
    ensures var r := s.regions[HeadIndex(s, b)];
      && r.id !in Live(s)
      && Live(Carve(s, b, size)) == Live(s)[r.id := Region(r.id, r.offset, size, true)]
  {
    var k, rest := HeadIndex(s, b), Rest(s, b, size);
    TopSpare(s);
    hide Carve, Take, Tiles, ById, Filed, DistinctIds, HeadIndex, BinOf, Unfile, File, Ids, Shared;
    CarveFiled(s, b, size);
    CarveShared(s, b, size);
    CarveParts(s, b, size);
    TakeTiles(s.regions, s.total, k, size, rest.id);
    TakeById(s.regions, k, size, rest.id);
    FreeNotUsed(s.regions, k);
  }

  lemma InvTiles(s: State)
    requires Inv(s)
    ensures Contiguous(s.regions) && DistinctIds(s.regions)
  {
  }

  lemma TopSpare(s: State)
    requires Inv(s)
    ensures s.spare[|s.spare| - 1] !in Ids(s.regions)
  {
    hide Tiles, ById, Filed, Ids;
    assert s.spare[|s.spare| - 1] in s.spare;
  }

  lemma Nothing(m: map<nat, Region>, ids: set<nat>)
    ensures m + map[] == m && ids + {} == ids
  {
  }

  lemma PutLast(m: map<nat, Region>, r: Region)
    ensures m + map[r.id := r] == m[r.id := r]
  {
  }

  lemma TakeLength(rs: seq<Region>, k: nat, size: nat, spare: nat)
    requires k < |rs| && size <= rs[k].size
    ensures |Take(rs, k, size, spare)| == |rs| + (if size < rs[k].size then 1 else 0)
  {
  }

  lemma ReleaseById(rs: seq<Region>, k: nat)
    requires DistinctIds(rs) && k < |rs| && rs[k].used
    ensures var id, gone := rs[k].id, Absorbed(rs, k);
      && DistinctIds(Release(rs, k))
      && id in Ids(rs) && id !in Ids(gone)
      && Ids(Release(rs, k)) == Ids(rs) - Ids(gone)
      && ById(Release(rs, k), true) == ById(rs, true) - {id}
      && ById(Release(rs, k), false) == (ById(rs, false) - Ids(gone))[id := Merged(rs, k)]
  {
    ReleaseMap(rs, k, true);
    ReleaseMap(rs, k, false);
    OneFree(Merged(rs, k));
    MergedIds(rs, k);
    AbsorbedFree(rs, k);
    hide *;
    CutMaps(ById(rs, false), Ids(Absorbed(rs, k)), rs[k].id, Merged(rs, k));
    CutMaps(ById(rs, true), Ids(Absorbed(rs, k)), rs[k].id, Merged(rs, k));
    KeepOne(Ids(rs), Ids(Absorbed(rs, k)), rs[k].id);
  }

  lemma CutMaps<V>(m: map<nat, V>, gone: set<nat>, id: nat, v: V)
    ensures m - ({id} + gone) + map[id := v] == (m - gone)[id := v]
    ensures (forall g :: g in gone ==> g !in m) ==> m - ({id} + gone) + map[] == m - {id}
  {
  }

  lemma KeepOne(all: set<nat>, gone: set<nat>, id: nat)
    requires id in all && id !in gone
    ensures all - ({id} + gone) + {id} == all - gone
  {
  }

  /** What is merged was free, and did not have the slot of `k`. */
  lemma AbsorbedFree(rs: seq<Region>, k: nat)
    requires DistinctIds(rs) && k < |rs|
    ensures rs[k].id !in Ids(Absorbed(rs, k))
    ensures forall g :: g in Ids(Absorbed(rs, k)) ==> g !in ById(rs, true)
  {
    hide ById;
    if k > 0 && !rs[k - 1].used { FreeNotUsed(rs, k - 1); }
    if k + 1 < |rs| && !rs[k + 1].used { FreeNotUsed(rs, k + 1); }
  }

  lemma ReleaseMap(rs: seq<Region>, k: nat, used: bool)
    requires DistinctIds(rs) && k < |rs|
    ensures var lo, hi := MergeFrom(rs, k), MergeTo(rs, k);
      && DistinctIds([Merged(rs, k)]) && DistinctIds(Release(rs, k))
      && rs[k].id in Ids(rs[lo..hi]) && Ids(rs[lo..hi]) <= Ids(rs)
      && Ids(Release(rs, k)) == Ids(rs) - Ids(rs[lo..hi]) + {rs[k].id}
      && ById(Release(rs, k), used) == ById(rs, used) - Ids(rs[lo..hi]) + ById([Merged(rs, k)], used)
  {
    var lo, hi, m := MergeFrom(rs, k), MergeTo(rs, k), Merged(rs, k);
    assert rs[lo..hi][k - lo] == rs[k];
    OneId(m);
    SpliceById(rs, lo, hi, [m], used);
  }

  lemma OneFree(m: Region)
    requires !m.used
    ensures ById([m], true) == map[] && ById([m], false) == map[m.id := m]
  {
    assert m in [m];
  }

  lemma AbsorbedIds(rs: seq<Region>, k: nat)
    requires DistinctIds(rs) && k < |rs|
    ensures var gone := Absorbed(rs, k);
      && DistinctIds(gone)
      && (forall r :: r in gone ==> r in rs && !r.used && r.id != rs[k].id)
      && MergeTo(rs, k) - MergeFrom(rs, k) == 1 + |gone|
  {
  }

  lemma MergedIds(rs: seq<Region>, k: nat)
    requires DistinctIds(rs) && k < |rs|
    ensures Ids(rs[MergeFrom(rs, k)..MergeTo(rs, k)]) == {rs[k].id} + Ids(Absorbed(rs, k))
  {
    var lo, hi := MergeFrom(rs, k), MergeTo(rs, k);
    var m, gone := rs[lo..hi], Absorbed(rs, k);
    if lo < k {
      assert m[0] == rs[k - 1] && m[1] == rs[k];
      if hi > k + 1 { assert m == [rs[k - 1], rs[k], rs[k + 1]]; } else { assert m == [rs[k - 1], rs[k]]; }
    } else {
      if hi > k + 1 { assert m == [rs[k], rs[k + 1]]; } else { assert m == [rs[k]]; }
    }
  }

  lemma SlotsAreIds(rs: seq<Region>)
    requires DistinctIds(rs)
    ensures NoDup(Slots(rs))
    ensures (set id | id in Slots(rs)) == Ids(rs)
  {
    forall id | id in Ids(rs) ensures id in Slots(rs) {
      var r :| r in rs && r.id == id;
      var i :| 0 <= i < |rs| && rs[i] == r;
      assert Slots(rs)[i] == id;
    }
    forall id | id in Slots(rs) ensures id in Ids(rs) {
      var i :| 0 <= i < |rs| && Slots(rs)[i] == id;
      assert rs[i] in rs;
    }
  }

  lemma IdsCons(rs: seq<Region>)
    requires rs != [] && DistinctIds(rs)
    ensures Ids(rs) == {rs[0].id} + Ids(rs[1..])
    ensures DistinctIds(rs[1..])
    ensures rs[0].id !in Ids(rs[1..])
    ensures forall r :: r in rs[1..] ==> r in rs && r.id != rs[0].id
  {
    assert rs == [rs[0]] + rs[1..];
  }

  lemma {:induction false} UnfileAllKeeps(bins: seq<seq<nat>>, free: map<nat, Region>, gone: seq<Region>)
    requires Filed(bins, free) && DistinctIds(gone)
    requires forall r :: r in gone ==> r.id in free && free[r.id] == r
    ensures forall r :: r in gone ==> BinOf(r) < |bins|
    ensures Filed(UnfileAll(bins, gone), free - Ids(gone))
    decreases |gone|
  {
    assert forall r :: r in gone ==> BinOf(free[r.id]) < |bins|;
    if gone == [] {
      assert free - Ids(gone) == free;
    } else {
      var r, rest := gone[0], gone[1..];
      IdsCons(gone);
      FiledUnfile(bins, free, r.id);
      UnfileAllKeeps(Unfile(bins, BinOf(r), r.id), free - {r.id}, rest);
      assert free - {r.id} - Ids(rest) == free - Ids(gone);
    }
  }

  /** The fields after releasing region `k`. */
  lemma FreeParts(s: State, id: nat, k: nat)
    requires Inv(s) && id in Live(s) && k == IndexOf(s.regions, id)
    ensures k < |s.regions| && s.regions[k].used && s.regions[k].id == id
    ensures BinOf(Merged(s.regions, k)) < |s.bins|
    ensures forall r :: r in Absorbed(s.regions, k) ==> BinOf(r) < |s.bins|
    ensures var t, gone := FreeStep(s, id), Absorbed(s.regions, k);
      && t.total == s.total && t.slots == s.slots && t.regions == Release(s.regions, k)
      && t.bins == File(UnfileAll(s.bins, gone), BinOf(Merged(s.regions, k)), id)
      && t.spare == s.spare + Slots(gone)
  {
    IndexOfMember(s.regions, Live(s)[id]);
    hide Release, Tiles, DistinctIds, Shared, Merged, Absorbed, BinOf;
    ReleaseBins(s, k);
  }

  lemma FreeFiled(s: State, id: nat)
    requires Inv(s) && id in Live(s)
    ensures var t := FreeStep(s, id); DistinctIds(t.regions) && Filed(t.bins, ById(t.regions, false))
  {
    var rs, free, k := s.regions, ById(s.regions, false), IndexOf(s.regions, id);
    var gone, m := Absorbed(rs, k), Merged(rs, k);
    FreeParts(s, id, k);
    ReleaseById(rs, k);
    AbsorbedIds(rs, k);
    FreeNotUsed(rs, k);
    AbsorbedListed(rs, k);
    hide FreeStep, Tiles, ById, Filed, DistinctIds, BinOf, Unfile, UnfileAll, File, Ids, Shared, Merged, Absorbed;
    hide Release, IndexOf;
    UnfileAllKeeps(s.bins, free, gone);
    FiledFile(UnfileAll(s.bins, gone), free - Ids(gone), m);
  }

  /** What is merged was listed as free. */
  lemma AbsorbedListed(rs: seq<Region>, k: nat)
    requires DistinctIds(rs) && k < |rs|
    ensures forall r :: r in Absorbed(rs, k) ==> r.id in ById(rs, false) && ById(rs, false)[r.id] == r
  {
    hide ById;
    if k > 0 && !rs[k - 1].used { FreeNotUsed(rs, k - 1); }
    if k + 1 < |rs| && !rs[k + 1].used { FreeNotUsed(rs, k + 1); }
  }

  lemma FreeShared(s: State, id: nat)
    requires Inv(s) && id in Live(s)
    ensures var t := FreeStep(s, id); Shared(t.spare, Ids(t.regions), |t.regions|, t.slots)
  {
    var rs, k := s.regions, IndexOf(s.regions, id);
    var gone := Absorbed(rs, k);
    FreeParts(s, id, k);
    ReleaseById(rs, k);
    AbsorbedIds(rs, k);
    MergedIds(rs, k);
    SlotsAreIds(gone);
    AbsorbedSlots(rs, k);
    ReleaseLength(rs, k);
    hide FreeStep, Tiles, ById, Filed, DistinctIds, BinOf, Unfile, UnfileAll, File, Ids, Shared, Merged, Absorbed;
    hide Release, IndexOf;
    SharedPush(s.spare, Ids(rs), |rs|, s.slots, Slots(gone));
  }

  lemma AbsorbedSlots(rs: seq<Region>, k: nat)
    requires k < |rs|
    ensures forall id :: id in Slots(Absorbed(rs, k)) ==> id in Ids(rs)
  {
    var gone := Absorbed(rs, k);
    forall id | id in Slots(gone) ensures id in Ids(rs) {
      var i :| 0 <= i < |gone| && Slots(gone)[i] == id;
      assert gone[i] in rs;
    }
  }

  lemma ReleaseLength(rs: seq<Region>, k: nat)
    requires k < |rs|
    ensures |Release(rs, k)| == |rs| - |Absorbed(rs, k)| && |Absorbed(rs, k)| < |rs|
  {
  }

  /** Releasing a live region keeps every invariant and removes just that region from the live ones. */
  lemma FreeKeeps(s: State, id: nat)
    requires Inv(s) && id in Live(s)
    ensures Inv(FreeStep(s, id))
    ensures Live(FreeStep(s, id)) == Live(s) - {id}
  {
    var k := IndexOf(s.regions, id);
    hide FreeStep, Tiles, ById, Filed, DistinctIds, BinOf, Unfile, UnfileAll, File, Ids, Shared, Merged, Absorbed;
    hide Release, IndexOf;
    FreeParts(s, id, k);
    FreeFiled(s, id);
    FreeShared(s, id);
    ReleaseTiles(s.regions, s.total, k);
    ReleaseById(s.regions, k);
  }
}
