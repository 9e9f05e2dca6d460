// How the arrays of the allocator represent the abstract machine.
module Layout {
  import opened Bits
  import opened Counting
  import opened SmallFloat
  import opened Regions
  import opened Machine
  import Bitmap
  import Laws = AllocatorLaws

  /** `Node::unused`, the null index. */
  const UNUSED: nat := 0xffff_ffff

  datatype Node = Node(dataOffset: uint32, dataSize: uint32, binListPrev: uint32, binListNext: uint32,
                       neighborPrev: uint32, neighborNext: uint32, used: bool)

  // ---------- neighbour links ----------

  function PrevId(rs: seq<Region>, k: nat): nat
    requires k < |rs|
  {
    if k == 0 then UNUSED else rs[k - 1].id
  }

  function NextId(rs: seq<Region>, k: nat): nat
    requires k < |rs|
  {
    if k + 1 == |rs| then UNUSED else rs[k + 1].id
  }

  /** The node in the slot of region `k` tells the region's extent and its two neighbours. */
  ghost predicate NodeTells(nodes: seq<Node>, rs: seq<Region>, k: nat)
    requires k < |rs|
  {
    && rs[k].id < |nodes|
    && var n := nodes[rs[k].id];
      && n.dataOffset == rs[k].offset && n.dataSize == rs[k].size && n.used == rs[k].used
      && n.neighborPrev == PrevId(rs, k) && n.neighborNext == NextId(rs, k)
  }

  ghost predicate Described(nodes: seq<Node>, rs: seq<Region>) {
    forall k :: 0 <= k < |rs| ==> NodeTells(nodes, rs, k)
  }

  /** A node without its place in a free list. */
  function Core(n: Node): Node {
    n.(binListPrev := 0, binListNext := 0)
  }

  /** Nodes outside `touched` keep all but their places in a free list. */
  ghost predicate CoresKept(a: seq<Node>, b: seq<Node>, touched: set<nat>) {
    |a| == |b| && forall i {:trigger b[i]} :: 0 <= i < |a| && i !in touched ==> Core(b[i]) == Core(a[i])
  }

  /** A node that kept its core still tells a region whose neighbours kept their slots. */
  lemma StillTells(a: seq<Node>, b: seq<Node>, rs: seq<Region>, k: nat, t: seq<Region>, q: nat)
    requires k < |rs| && q < |t| && rs[k] == t[q] && NodeTells(a, rs, k) && t[q].id < |b|
    requires PrevId(rs, k) == PrevId(t, q) && NextId(rs, k) == NextId(t, q)
    requires Core(b[t[q].id]) == Core(a[rs[k].id])
    ensures NodeTells(b, t, q)
  {
  }

  /** What splitting region `k` does to the cores of the nodes involved. */
  ghost predicate TakeCores(a: seq<Node>, b: seq<Node>, rs: seq<Region>, k: nat, size: uint32, spare: uint32)
    requires k < |rs| && rs[k].id < |a| <= UNUSED && spare < |a| && |a| == |b|
  {
    var id, next := rs[k].id, NextId(rs, k);
    if size == rs[k].size then
      && CoresKept(a, b, {id})
      && Core(b[id]) == Core(a[id].(dataSize := size, used := true))
    else
      && CoresKept(a, b, {id, spare, next})
      && Core(b[id]) == Core(a[id].(dataSize := size, used := true, neighborNext := spare))
      && b[spare].dataOffset == rs[k].offset + size && b[spare].dataSize == rs[k].size - size && !b[spare].used
      && b[spare].neighborPrev == id && b[spare].neighborNext == next
      && (next < |a| ==> Core(b[next]) == Core(a[next].(neighborPrev := spare)))
  }

  /** The links after the first `size` bytes of region `k` were taken. */
  lemma DescribedTake(a: seq<Node>, b: seq<Node>, rs: seq<Region>, k: nat, size: uint32, spare: uint32)
    requires Described(a, rs) && DistinctIds(rs) && k < |rs| && size <= rs[k].size && rs[k].id < |a| <= UNUSED
    requires spare !in Ids(rs) && spare < |a| == |b|
    requires TakeCores(a, b, rs, k, size, spare)
    ensures Described(b, Take(rs, k, size, spare))
  {
    var t := Take(rs, k, size, spare);
    var d := if size < rs[k].size then 1 else 0;
    forall q | 0 <= q < |t| ensures NodeTells(b, t, q) {
      if q < k {
        assert NodeTells(a, rs, q) && rs[q].id in Ids(rs);
        assert rs[q].id != NextId(rs, k);
        StillTells(a, b, rs, q, t, q);
      } else if q > k + d {
        assert t[q] == rs[q - d];
        assert NodeTells(a, rs, q - d) && rs[q - d].id in Ids(rs);
        if q > k + d + 1 || d == 0 { StillTells(a, b, rs, q - d, t, q); }
      } else {
        assert NodeTells(a, rs, k);
      }
    }
  }

  /** Marking a node keeps its offset and links. */
  lemma CoreFields(a: seq<Node>, b: seq<Node>, id: nat, size: uint32)
    requires id < |a| == |b| && Core(b[id]) == Core(a[id].(dataSize := size, used := true))
    ensures b[id].dataOffset == a[id].dataOffset && b[id].neighborNext == a[id].neighborNext
    ensures b[id].dataSize == size && b[id].used
  {
  }

  /** Marking a node and then filing what remains of it: `a` before, `m` after marking, `b` in the end. */
  lemma SplitCores(a: seq<Node>, m: seq<Node>, b: seq<Node>, rs: seq<Region>, k: nat, size: uint32, spare: uint32)
    requires k < |rs| && NodeTells(a, rs, k) && size < rs[k].size && |a| == |m| == |b| <= UNUSED && spare < |a|
    requires spare != rs[k].id && NextId(rs, k) != rs[k].id && NextId(rs, k) != spare && End(rs[k]) < WORD
    requires CoresKept(a, m, {rs[k].id}) && Core(m[rs[k].id]) == Core(a[rs[k].id].(dataSize := size, used := true))
    requires CoresKept(m, b, {rs[k].id, spare, NextId(rs, k)})
    requires Core(b[rs[k].id]) == Core(m[rs[k].id].(neighborNext := spare))
    requires Core(b[spare]) == Node(rs[k].offset + size, rs[k].size - size, 0, 0, rs[k].id, NextId(rs, k), false)
    requires NextId(rs, k) < |a| ==> Core(b[NextId(rs, k)]) == Core(m[NextId(rs, k)].(neighborPrev := spare))
    ensures TakeCores(a, b, rs, k, size, spare)
  {
    var id, next := rs[k].id, NextId(rs, k);
    if next < |a| { assert Core(m[next]) == Core(a[next]); }
    forall i {:trigger b[i]} | 0 <= i < |a| && i !in {id, spare, next} ensures Core(b[i]) == Core(a[i]) {
      assert Core(m[i]) == Core(a[i]);
    }
  }

  /** The region taken starts where it did. */
  lemma TakenOffset(a: seq<Node>, b: seq<Node>, rs: seq<Region>, k: nat, size: uint32, spare: uint32)
    requires k < |rs| && NodeTells(a, rs, k) && |a| == |b| <= UNUSED && spare < |a|
    requires TakeCores(a, b, rs, k, size, spare)
    ensures b[rs[k].id].dataOffset == rs[k].offset
  {
  }

  /** What releasing region `k` does to the cores of the nodes involved. */
  ghost predicate ReleaseCores(a: seq<Node>, b: seq<Node>, rs: seq<Region>, k: nat)
    requires k < |rs| && rs[k].id < |a| <= UNUSED && |a| == |b|
  {
    var lo, hi, id, m := MergeFrom(rs, k), MergeTo(rs, k), rs[k].id, Merged(rs, k);
    var prev, next := PrevId(rs, lo), NextId(rs, hi - 1);
    && CoresKept(a, b, {id, prev, next})
    && b[id].dataOffset == m.offset && b[id].dataSize == m.size && !b[id].used
    && b[id].neighborPrev == prev && b[id].neighborNext == next
    && (prev < |a| ==> Core(b[prev]) == Core(a[prev].(neighborNext := id)))
    && (next < |a| ==> Core(b[next]) == Core(a[next].(neighborPrev := id)))
  }

  /** The links after region `k` was released and merged. */
  lemma DescribedRelease(a: seq<Node>, b: seq<Node>, rs: seq<Region>, k: nat)
    requires Described(a, rs) && DistinctIds(rs) && k < |rs| && rs[k].id < |a| <= UNUSED && |a| == |b|
    requires ReleaseCores(a, b, rs, k)
    ensures Described(b, Release(rs, k))
  {
    var t := Release(rs, k);
    var lo, hi := MergeFrom(rs, k), MergeTo(rs, k);
    forall q | 0 <= q < |t| ensures NodeTells(b, t, q) {
      if q < lo {
        assert NodeTells(a, rs, q);
        assert rs[q].id != rs[k].id && rs[q].id != NextId(rs, hi - 1);
        if q < lo - 1 { StillTells(a, b, rs, q, t, q); }
      } else if q > lo {
        var p := q - lo - 1 + hi;
        assert t[q] == rs[p];
        assert NodeTells(a, rs, p);
        assert rs[p].id != rs[k].id && rs[p].id != PrevId(rs, lo);
        if q > lo + 1 { StillTells(a, b, rs, p, t, q); }
      }
    }
  }

  /** What a caller of the list operations needs to know about free region `k`. */
  lemma TakeRoom(nodes: seq<Node>, s: State, k: nat)
    requires Inv(s) && Described(nodes, s.regions) && k < |s.regions| && !s.regions[k].used
    requires |nodes| == s.slots <= UNUSED
    ensures NodeTells(nodes, s.regions, k)
    ensures s.regions[k].id < s.slots && s.regions[k].size <= Sum(s.regions, false) <= s.total
    ensures End(s.regions[k]) <= s.total
    ensures NextId(s.regions, k) == UNUSED || NextId(s.regions, k) < s.slots
    ensures NextId(s.regions, k) != s.regions[k].id
    ensures forall id :: id in s.spare ==> id != s.regions[k].id && id != NextId(s.regions, k) && id < s.slots
  {
    assert NodeTells(nodes, s.regions, k);
    InRange(s.regions, s.total, k);
    MemberBelowSum(s.regions, k);
    SumTiling(s.regions);
    assert s.regions[k].id in Ids(s.regions);
    if k + 1 < |s.regions| { assert s.regions[k + 1].id in Ids(s.regions); }
  }

  /** A spare slot is in no free list, also after the head of bin `b` was taken out. */
  lemma UnlistedAfter(s: State, b: nat)
    requires Inv(s) && b < |s.bins| && s.bins[b] != []
    ensures forall id :: id in s.spare ==> Unlisted(Unfile(s.bins, b, s.bins[b][0]), id)
  {
    ByIdKeys(s.regions, false);
    RemoveMembers(s.bins[b], s.bins[b][0]);
  }

  lemma SumTake(rs: seq<Region>, k: nat, size: nat, spare: nat)
    requires k < |rs| && size <= rs[k].size && !rs[k].used
    ensures Sum(Take(rs, k, size, spare), false) == Sum(rs, false) - size
  {
    var mid := Halves(rs[k], size, spare);
    SumSplit(rs, k, k + 1, false);
    SumAppend(rs[..k], mid, false);
    SumAppend(rs[..k] + mid, rs[k + 1..], false);
    assert rs[k..k + 1] == [rs[k]];
    if size < rs[k].size { assert mid[1..][1..] == []; }
  }

  /** The free bytes of a row. */
  function FreeBytes(rs: seq<Region>): nat {
    Sum(rs, false)
  }

  /** What serving a request from bin `b` needs. */
  lemma TakeReady(nodes: seq<Node>, s: State, b: nat, size: uint32)
    requires Inv(s) && Described(nodes, s.regions) && |nodes| == s.slots <= UNUSED && |s.spare| > 1
    requires b == LeastBin(s.bins, UintToFloatRoundUp(size)) < |s.bins|
    ensures var k, top, free := HeadIndex(s, b), s.spare[|s.spare| - 1], FreeBytes(s.regions);
      var r, next := s.regions[k], NextId(s.regions, k);
      && NodeTells(nodes, s.regions, k) && r.id == s.bins[b][0] < s.slots
      && size <= r.size <= free <= s.total && End(r) <= s.total
      && next != r.id && (next == UNUSED || next < s.slots)
      && top < s.slots && top != r.id && top != next && Unlisted(Unfile(s.bins, b, r.id), top)
  {
    HeadFits(s, b, size);
    hide Inv, HeadIndex, Described, NodeTells, Sum, Unlisted, Unfile, NextId, LeastBin, UintToFloatRoundUp;
    TakeRoom(nodes, s, HeadIndex(s, b));
    UnlistedAfter(s, b);
    assert s.spare[|s.spare| - 1] in s.spare;
  }

  /** After a request was served the nodes describe the new row. */
  lemma TakeDone(a: seq<Node>, c: seq<Node>, s: State, b: nat, size: uint32)
    requires Inv(s) && Described(a, s.regions) && |a| == |c| == s.slots <= UNUSED && b < |s.bins| && s.bins[b] != []
    requires var k, top := HeadIndex(s, b), s.spare[|s.spare| - 1];
      && s.regions[k].id < s.slots && top < s.slots && size <= s.regions[k].size
      && TakeCores(a, c, s.regions, k, size, top)
    ensures var k := HeadIndex(s, b);
      var r, t := s.regions[k], Take(s.regions, k, size, s.spare[|s.spare| - 1]);
      && Described(c, t) && FreeBytes(t) == FreeBytes(s.regions) - size
      && c[r.id].dataOffset == r.offset
  {
    var k, top := HeadIndex(s, b), s.spare[|s.spare| - 1];
    hide Take, Inv, HeadIndex, Described, NodeTells, TakeCores, Sum, DistinctIds, Ids, Contiguous;
    TopSpare(s);
    InvTiles(s);
    KnownNode(a, s.regions, k);
    DescribedTake(a, c, s.regions, k, size, top);
    TakenOffset(a, c, s.regions, k, size, top);
    SumTake(s.regions, k, size, top);
  }

  /** The lists and the stack after the first `size` bytes of `r`, the head of bin `b`, were taken. */
  ghost predicate Served(bins: seq<seq<nat>>, spare: seq<nat>, b: nat, r: Region, size: nat, after: seq<seq<nat>>,
                         left: seq<nat>)
    requires b < |bins| && |spare| > 1
  {
    var top := |spare| - 1;
    && (size == r.size ==> after == Unfile(bins, b, r.id) && left == spare)
    && (size < r.size ==>
          && UintToFloatRoundDown(r.size - size) < |bins|
          && after == File(Unfile(bins, b, r.id), UintToFloatRoundDown(r.size - size), spare[top])
          && left == spare[..top])
  }

  lemma IsServed(bins: seq<seq<nat>>, spare: seq<nat>, b: nat, r: Region, size: nat, after: seq<seq<nat>>,
                 left: seq<nat>)
    requires b < |bins| && |spare| > 1 && size <= r.size
    requires size == r.size ==> after == Unfile(bins, b, r.id) && left == spare
    requires size < r.size ==>
      && UintToFloatRoundDown(r.size - size) < |bins|
      && after == File(Unfile(bins, b, r.id), UintToFloatRoundDown(r.size - size), spare[|spare| - 1])
      && left == spare[..|spare| - 1]
    ensures Served(bins, spare, b, r, size, after, left)
  {
    hide File, Unfile, UintToFloatRoundDown;
  }

  /** The fields a served request leaves are those of the abstract step. */
  lemma TakeModel(s: State, b: nat, size: uint32, bins: seq<seq<nat>>, spare: seq<nat>)
    requires Inv(s) && |s.spare| > 1 && b == LeastBin(s.bins, UintToFloatRoundUp(size)) < |s.bins|
    requires var r := s.regions[HeadIndex(s, b)];
      size <= r.size && Served(s.bins, s.spare, b, r, size, bins, spare)
    ensures var k := HeadIndex(s, b);
      var r, t := s.regions[k], State(s.total, s.slots, Take(s.regions, k, size, s.spare[|s.spare| - 1]), bins, spare);
      Inv(t) && AllocStep(s, size) == (t, Placed(r.id, r.offset))
  {
    hide Carve, Take, Inv, HeadIndex, Unfile, File, LeastBin, UintToFloatRoundUp, UintToFloatRoundDown;
    CarveKeeps(s, b, size);
    CarveParts(s, b, size);
  }

  /** Served: lists, stack and nodes are those of the abstract step. */
  lemma TakeEnds(a: seq<Node>, c: seq<Node>, s: State, b: nat, size: uint32, bins: seq<seq<nat>>, spare: seq<nat>)
    requires Inv(s) && Described(a, s.regions) && |a| == |c| == s.slots <= UNUSED && |s.spare| > 1
    requires b == LeastBin(s.bins, UintToFloatRoundUp(size)) < |s.bins|
    requires var k, top := HeadIndex(s, b), s.spare[|s.spare| - 1];
      && s.regions[k].id < s.slots && top < s.slots && size <= s.regions[k].size
      && TakeCores(a, c, s.regions, k, size, top)
      && Served(s.bins, s.spare, b, s.regions[k], size, bins, spare)
    ensures var (t, out) := AllocStep(s, size);
      var id := s.regions[HeadIndex(s, b)].id;
      && out == Placed(id, c[id].dataOffset)
      && Inv(t) && t == State(s.total, s.slots, t.regions, bins, spare)
      && Described(c, t.regions) && FreeBytes(t.regions) == FreeBytes(s.regions) - size
  {
    hide Inv, Described, TakeCores, Served, FreeBytes, Take, LeastBin, UintToFloatRoundUp, AllocStep, HeadIndex;
    TakeDone(a, c, s, b, size);
    TakeModel(s, b, size, bins, spare);
  }

  // ---------- releasing ----------

  function PrevGone(rs: seq<Region>, k: nat): seq<Region>
    requires k < |rs|
  {
    if MergeFrom(rs, k) < k then [rs[k - 1]] else []
  }

  function NextGone(rs: seq<Region>, k: nat): seq<Region>
    requires k < |rs|
  {
    if MergeTo(rs, k) > k + 1 then [rs[k + 1]] else []
  }

  /** A free region can be absorbed: it is listed, its size counts as free, and there is room for its slot. */
  lemma AbsorbRoom(s: State, k: nat, j: nat)
    requires Inv(s) && k < |s.regions| && j < |s.regions| && s.regions[k].used && !s.regions[j].used
    ensures var r := s.regions[j];
      && BinOf(r) < |s.bins| && r.id in s.bins[BinOf(r)] && r.id < s.slots
      && |s.spare| + 1 < s.slots
      && r.size <= Sum(s.regions, false) <= s.total
  {
    FreeNotUsed(s.regions, j);
    MemberBelowSum(s.regions, j);
    SumTiling(s.regions);
    assert s.regions[j].id in Ids(s.regions);
  }

  /** The second neighbour can still be absorbed after the first. */
  lemma AbsorbRoomTwo(s: State, k: nat)
    requires Inv(s) && 0 < k < |s.regions| - 1 && s.regions[k].used && !s.regions[k - 1].used && !s.regions[k + 1].used
    ensures var p, n := s.regions[k - 1], s.regions[k + 1];
      && BinOf(p) < |s.bins| && BinOf(n) < |s.bins|
      && n.id in Unfile(s.bins, BinOf(p), p.id)[BinOf(n)]
      && |s.spare| + 2 < s.slots
      && p.size + n.size <= Sum(s.regions, false)
  {
    AbsorbRoom(s, k, k - 1);
    AbsorbRoom(s, k, k + 1);
    RemoveMembers(s.bins[BinOf(s.regions[k - 1])], s.regions[k - 1].id);
    SumSplit(s.regions, 0, k, false);
    MemberBelowSum(s.regions[..k], k - 1);
    MemberBelowSum(s.regions[k..], 1);
    assert s.regions[0..k] == s.regions[..k];
  }

  /** Room for the second absorption, whether or not there was a first. */
  lemma PrevNextRoom(s: State, k: nat)
    requires Inv(s) && k < |s.regions| && s.regions[k].used
    ensures forall r :: r in PrevGone(s.regions, k) ==> BinOf(r) < |s.bins|
    ensures forall r :: r in NextGone(s.regions, k) ==>
      && BinOf(r) < |s.bins|
      && r.id in UnfileAll(s.bins, PrevGone(s.regions, k))[BinOf(r)]
      && |s.spare| + |PrevGone(s.regions, k)| < s.slots
      && r.size + Sum(PrevGone(s.regions, k), false) <= Sum(s.regions, false)
      && r.id < s.slots && r.id != s.regions[k].id
  {
    hide Inv, BinOf;
    InvTiles(s);
    if MergeFrom(s.regions, k) < k {
      AbsorbRoom(s, k, k - 1);
      UnfileAllOne(s.bins, s.regions[k - 1]);
    }
    if MergeTo(s.regions, k) > k + 1 {
      AbsorbRoom(s, k, k + 1);
      if MergeFrom(s.regions, k) < k { AbsorbRoomTwo(s, k); }
    }
  }

  lemma NextStillTells(a: seq<Node>, b: seq<Node>, rs: seq<Region>, k: nat)
    requires Described(a, rs) && DistinctIds(rs) && k < |rs| && CoresKept(a, b, {rs[k].id})
    ensures k + 1 < |rs| ==> rs[k + 1].id != rs[k].id && NodeTells(b, rs, k + 1)
  {
    if k + 1 < |rs| {
      assert NodeTells(a, rs, k + 1);
      assert Core(b[rs[k + 1].id]) == Core(a[rs[k + 1].id]);
    }
  }

  /** No merge exceeds the storage. */
  lemma MergeFits(s: State, k: nat)
    requires Inv(s) && k < |s.regions| && s.regions[k].used
    ensures MergedSize(s.regions, k) <= s.total
    ensures k > 0 ==> s.regions[k].size + s.regions[k - 1].size <= s.total
  {
    ReleaseSpan(s.regions, s.total, k);
    InRange(s.regions, s.total, k);
    if k > 0 { assert Joint(s.regions, k); }
  }

  lemma {:induction false} UnfileAllAppend(bins: seq<seq<nat>>, a: seq<Region>, b: seq<Region>)
    requires forall r :: r in a || r in b ==> BinOf(r) < |bins|
    ensures UnfileAll(bins, a + b) == UnfileAll(UnfileAll(bins, a), b)
    decreases |a|
  {
    if a == [] {
      assert a + b == b;
    } else {
      assert (a + b)[1..] == a[1..] + b;
      UnfileAllAppend(Unfile(bins, BinOf(a[0]), a[0].id), a[1..], b);
    }
  }

  lemma UnfileAllOne(bins: seq<seq<nat>>, r: Region)
    requires BinOf(r) < |bins|
    ensures UnfileAll(bins, [r]) == Unfile(bins, BinOf(r), r.id)
    ensures Slots([r]) == [r.id]
  {
    assert [r][1..] == [];
  }

  lemma UsedSlot(s: State, k: nat)
    requires Inv(s) && k < |s.regions| && s.regions[k].used
    ensures s.regions[k].id < s.slots && |s.spare| < s.slots
    ensures Unlisted(s.bins, s.regions[k].id)
  {
    assert s.regions[k].id in Ids(s.regions);
    FreeNotUsed(s.regions, k);
  }

  lemma {:induction false} UnfileAllUnlisted(bins: seq<seq<nat>>, gone: seq<Region>, id: nat)
    requires Unlisted(bins, id) && Separate(bins)
    requires forall r :: r in gone ==> BinOf(r) < |bins|
    ensures Unlisted(UnfileAll(bins, gone), id)
    decreases |gone|
  {
    if gone == [] {
    } else {
      var r := gone[0];
      RemoveMembers(bins[BinOf(r)], r.id);
      UnfileAllUnlisted(Unfile(bins, BinOf(r), r.id), gone[1..], id);
    }
  }

  lemma FiledSeparate(s: State)
    requires Inv(s)
    ensures Separate(s.bins)
  {
    var free := ById(s.regions, false);
    forall b, c, id | 0 <= b < |s.bins| && 0 <= c < |s.bins| && id in s.bins[b] && id in s.bins[c] ensures b == c {
      assert BinOf(free[id]) == b && BinOf(free[id]) == c;
    }
  }

  /** The list side of releasing region `k`, as the abstract machine states it. */
  lemma ReleaseLists(s: State, k: nat)
    requires Inv(s) && k < |s.regions| && s.regions[k].used
    ensures Absorbed(s.regions, k) == PrevGone(s.regions, k) + NextGone(s.regions, k)
    ensures forall r :: r in Absorbed(s.regions, k) ==> BinOf(r) < |s.bins|
    ensures UnfileAll(s.bins, Absorbed(s.regions, k))
         == UnfileAll(UnfileAll(s.bins, PrevGone(s.regions, k)), NextGone(s.regions, k))
    ensures Unlisted(UnfileAll(s.bins, Absorbed(s.regions, k)), s.regions[k].id)
    ensures Slots(Absorbed(s.regions, k)) == Slots(PrevGone(s.regions, k)) + Slots(NextGone(s.regions, k))
    ensures |s.spare| + |Absorbed(s.regions, k)| < s.slots
    ensures Sum(Release(s.regions, k), false)
         == Sum(s.regions, false) - Sum(Absorbed(s.regions, k), false) + MergedSize(s.regions, k) <= s.total
    ensures Sum(Absorbed(s.regions, k), false)
         == Sum(PrevGone(s.regions, k), false) + Sum(NextGone(s.regions, k), false)
  {
    var p, n := PrevGone(s.regions, k), NextGone(s.regions, k);
    ReleaseBins(s, k);
    UnfileAllAppend(s.bins, p, n);
    UsedSlot(s, k);
    FiledSeparate(s);
    UnfileAllUnlisted(s.bins, p + n, s.regions[k].id);
    SumAppend(p, n, false);
    assert Slots(p + n) == Slots(p) + Slots(n);
    SumRelease(s, k);
    ReleaseTiles(s.regions, s.total, k);
    SumTiling(Release(s.regions, k));
  }

  lemma SumRelease(s: State, k: nat)
    requires Inv(s) && k < |s.regions| && s.regions[k].used
    ensures Sum(Release(s.regions, k), false)
         == Sum(s.regions, false) - Sum(Absorbed(s.regions, k), false) + MergedSize(s.regions, k)
  {
    var rs := s.regions;
    var lo, hi, m := MergeFrom(rs, k), MergeTo(rs, k), Merged(rs, k);
    SumSplit(rs, lo, hi, false);
    SumAppend(rs[..lo], [m], false);
    SumAppend(rs[..lo] + [m], rs[hi..], false);
    SumMiddle(rs, k);
  }

  lemma SumMiddle(rs: seq<Region>, k: nat)
    requires k < |rs| && rs[k].used
    ensures Sum(rs[MergeFrom(rs, k)..MergeTo(rs, k)], false) == Sum(Absorbed(rs, k), false)
  {
    var p, n := PrevGone(rs, k), NextGone(rs, k);
    assert rs[MergeFrom(rs, k)..MergeTo(rs, k)] == p + ([rs[k]] + n);
    SumAppend(p, [rs[k]] + n, false);
    SumAppend([rs[k]], n, false);
    SumAppend(p, n, false);
  }

  /** The neighbours the merged node has just before it is filed again. */
  lemma ReleaseLinks(a: seq<Node>, b: seq<Node>, s: State, k: nat)
    requires Inv(s) && k < |s.regions| && s.regions[k].used
    requires Described(a, s.regions) && s.slots == |a| == |b| <= UNUSED && s.regions[k].id < |b|
    requires b[s.regions[k].id].neighborPrev == PrevId(s.regions, MergeFrom(s.regions, k))
    requires b[s.regions[k].id].neighborNext == NextId(s.regions, MergeTo(s.regions, k) - 1)
    ensures var n := b[s.regions[k].id];
      && (n.neighborPrev == UNUSED || n.neighborPrev < s.slots)
      && (n.neighborNext == UNUSED || n.neighborNext < s.slots)
      && n.neighborPrev != s.regions[k].id && n.neighborNext != s.regions[k].id
      && (n.neighborPrev != n.neighborNext || n.neighborPrev == UNUSED)
  {
    var lo, hi := MergeFrom(s.regions, k), MergeTo(s.regions, k);
    assert s.regions[k].id in Ids(s.regions);
    if lo > 0 { assert s.regions[lo - 1].id in Ids(s.regions); }
    if hi < |s.regions| { assert s.regions[hi].id in Ids(s.regions); }
  }

  lemma KnownNode(nodes: seq<Node>, rs: seq<Region>, k: nat)
    requires Described(nodes, rs) && k < |rs|
    ensures NodeTells(nodes, rs, k)
  {
  }

  lemma CoresKeptTwice(a: seq<Node>, b: seq<Node>, c: seq<Node>, touched: set<nat>)
    requires CoresKept(a, b, touched) && CoresKept(b, c, touched)
    ensures CoresKept(a, c, touched)
  {
    forall i {:trigger c[i]} | 0 <= i < |a| && i !in touched ensures Core(c[i]) == Core(a[i]) {
      assert Core(b[i]) == Core(a[i]);
    }
  }

  /** The free neighbour after region `k`, if any, is filed, and there is room to absorb it. */
  ghost predicate NextRoom(bins: seq<seq<nat>>, spare: nat, free: nat, rs: seq<Region>, k: nat, sizeSoFar: nat,
                           slots: nat)
    requires k < |rs|
  {
    forall r :: r in NextGone(rs, k) ==>
      && BinOf(r) < 256 && BinOf(r) < |bins| && r.id in bins[BinOf(r)]
      && spare < slots && r.size <= free && sizeSoFar + r.size < WORD
  }

  /** What merging the neighbours of region `k` needs. */
  lemma UniteReady(s: State, k: nat)
    requires Inv(s) && k < |s.regions| && s.regions[k].used
    ensures Absorbed(s.regions, k) == PrevGone(s.regions, k) + NextGone(s.regions, k)
    ensures forall r :: r in Absorbed(s.regions, k) ==> BinOf(r) < |s.bins|
    ensures UnfileAll(s.bins, Absorbed(s.regions, k))
         == UnfileAll(UnfileAll(s.bins, PrevGone(s.regions, k)), NextGone(s.regions, k))
    ensures Slots(Absorbed(s.regions, k)) == Slots(PrevGone(s.regions, k)) + Slots(NextGone(s.regions, k))
    ensures Sum(Absorbed(s.regions, k), false)
         == Sum(PrevGone(s.regions, k), false) + Sum(NextGone(s.regions, k), false)
    ensures s.regions[k].size + Sum(Absorbed(s.regions, k), false) == Merged(s.regions, k).size <= s.total
    ensures DistinctIds(s.regions) && Merged(s.regions, k).offset == s.regions[MergeFrom(s.regions, k)].offset
    ensures forall r :: r in PrevGone(s.regions, k) ==> BinOf(r) < |s.bins|
    ensures var p := PrevGone(s.regions, k);
      && Sum(p, false) <= FreeBytes(s.regions)
      && NextRoom(UnfileAll(s.bins, p), |s.spare| + |Slots(p)|, FreeBytes(s.regions) - Sum(p, false),
                  s.regions, k, s.regions[k].size + Sum(p, false), s.slots)
  {
    ReleaseLists(s, k);
    PrevNextRoom(s, k);
    MergeFits(s, k);
    InvTiles(s);
    MergedIsSum(s.regions, k);
    PrevBelowFree(s.regions, k);
  }

  lemma PrevBelowFree(rs: seq<Region>, k: nat)
    requires k < |rs|
    ensures Sum(PrevGone(rs, k), false) <= Sum(rs, false)
  {
    if MergeFrom(rs, k) < k {
      MemberBelowSum(rs, k - 1);
      assert PrevGone(rs, k)[1..] == [];
    }
  }

  lemma FreeReady(s: State, id: nat, k: nat)
    requires Inv(s) && id in Live(s) && k == IndexOf(s.regions, id)
    ensures k < |s.regions| && s.regions[k].used && s.regions[k].id == id < s.slots
  {
    FreeParts(s, id, k);
    UsedSlot(s, k);
  }

  /** The fields a release leaves are those of the abstract step. */
  lemma FreeModel(s: State, id: nat, k: nat, bins: seq<seq<nat>>, spare: seq<nat>)
    requires Inv(s) && id in Live(s) && k == IndexOf(s.regions, id) < |s.regions|
    requires var gone := Absorbed(s.regions, k);
      && (forall r :: r in gone ==> BinOf(r) < |s.bins|) && BinOf(Merged(s.regions, k)) < |s.bins|
      && bins == File(UnfileAll(s.bins, gone), BinOf(Merged(s.regions, k)), id)
      && spare == s.spare + Slots(gone)
    ensures State(s.total, s.slots, Release(s.regions, k), bins, spare) == FreeStep(s, id)
    ensures Inv(FreeStep(s, id))
  {
    hide Inv, Live, FreeStep, Release, UnfileAll, Slots, BinOf, Merged, Absorbed, IndexOf, File;
    FreeParts(s, id, k);
    FreeKeeps(s, id);
  }

  lemma MergedIsSum(rs: seq<Region>, k: nat)
    requires k < |rs|
    ensures rs[k].size + Sum(PrevGone(rs, k), false) + Sum(NextGone(rs, k), false) == MergedSize(rs, k)
    ensures forall r :: r in NextGone(rs, k) ==> r.size == Sum(NextGone(rs, k), false)
  {
    assert PrevGone(rs, k) != [] ==> PrevGone(rs, k)[1..] == [];
    assert NextGone(rs, k) != [] ==> NextGone(rs, k)[1..] == [];
  }

  /** The node side of releasing region `k`: `a` before, `b` before filing, `c` after. */
  lemma AfterRefile(a: seq<Node>, b: seq<Node>, c: seq<Node>, s: State, k: nat)
    requires Inv(s) && k < |s.regions| && s.regions[k].used
    requires s.slots == |a| == |b| == |c| <= UNUSED && s.regions[k].id < |a|
    requires CoresKept(a, b, {s.regions[k].id})
    requires var prev, next := PrevId(s.regions, MergeFrom(s.regions, k)), NextId(s.regions, MergeTo(s.regions, k) - 1);
      var id, m := s.regions[k].id, Merged(s.regions, k);
      && prev != id && next != id && (prev < s.slots || prev == UNUSED) && (next < s.slots || next == UNUSED)
      && CoresKept(b, c, {id, prev, next})
      && c[id].dataOffset == m.offset && c[id].dataSize == m.size && !c[id].used
      && c[id].neighborPrev == prev && c[id].neighborNext == next
      && (prev != UNUSED ==> Core(c[prev]) == Core(b[prev].(neighborNext := id)))
      && (next != UNUSED ==> Core(c[next]) == Core(b[next].(neighborPrev := id)))
    ensures ReleaseCores(a, c, s.regions, k)
  {
    var prev, next := PrevId(s.regions, MergeFrom(s.regions, k)), NextId(s.regions, MergeTo(s.regions, k) - 1);
    if prev < s.slots { assert Core(b[prev]) == Core(a[prev]); }
    if next < s.slots { assert Core(b[next]) == Core(a[next]); }
    forall i | 0 <= i < |a| && i !in {s.regions[k].id, prev, next} ensures Core(c[i]) == Core(a[i]) {
      assert Core(b[i]) == Core(a[i]);
    }
  }

  // ---------- free-list links ----------

  function Head(list: seq<nat>): nat {
    if list == [] then UNUSED else list[0]
  }

  /** The node at place `p` of a free list points to the places before and after. */
  ghost predicate Linked(nodes: seq<Node>, list: seq<nat>, p: nat)
    requires p < |list|
  {
    && list[p] < |nodes|
    && nodes[list[p]].binListPrev == (if p == 0 then UNUSED else list[p - 1])
    && nodes[list[p]].binListNext == (if p + 1 == |list| then UNUSED else list[p + 1])
  }

  ghost predicate Chained(nodes: seq<Node>, list: seq<nat>) {
    forall p :: 0 <= p < |list| ==> Linked(nodes, list, p)
  }

  ghost predicate AllChained(nodes: seq<Node>, bins: seq<seq<nat>>) {
    forall b :: 0 <= b < |bins| ==> Chained(nodes, bins[b])
  }

  ghost predicate Heads(binIndices: seq<nat>, bins: seq<seq<nat>>) {
    |binIndices| == |bins| && forall b :: 0 <= b < |bins| ==> binIndices[b] == Head(bins[b])
  }

  /** No slot is listed twice, in one bin or in two. */
  ghost predicate Separate(bins: seq<seq<nat>>) {
    && (forall b :: 0 <= b < |bins| ==> NoDup(bins[b]))
    && (forall b, c, id :: 0 <= b < |bins| && 0 <= c < |bins| && id in bins[b] && id in bins[c] ==> b == c)
  }

  ghost predicate Unlisted(bins: seq<seq<nat>>, id: nat) {
    forall b :: 0 <= b < |bins| ==> id !in bins[b]
  }

  // ---------- the stack of spare slots ----------

  ghost predicate Stacked(freeNodes: seq<nat>, freeOffset: nat, spare: seq<nat>) {
    |spare| == freeOffset + 1 <= |freeNodes| && freeNodes[..freeOffset + 1] == spare
  }

  // ---------- effect of list surgery on the links ----------

  /** Nodes outside `touched` keep their free-list links. */
  ghost predicate LinksKept(a: seq<Node>, b: seq<Node>, touched: set<nat>) {
    |a| == |b| && forall i {:trigger b[i]} :: 0 <= i < |a| && i !in touched ==>
      a[i].binListPrev == b[i].binListPrev && a[i].binListNext == b[i].binListNext
  }

  lemma ChainedFrame(a: seq<Node>, b: seq<Node>, list: seq<nat>, touched: set<nat>)
    requires Chained(a, list) && LinksKept(a, b, touched)
    requires forall id :: id in list ==> id !in touched
    ensures Chained(b, list)
  {
    forall p | 0 <= p < |list| ensures Linked(b, list, p) {
      assert Linked(a, list, p);
      assert list[p] in list;
    }
  }

  lemma AllChainedFrame(a: seq<Node>, b: seq<Node>, bins: seq<seq<nat>>)
    requires AllChained(a, bins) && LinksKept(a, b, {})
    ensures AllChained(b, bins)
  {
    forall c | 0 <= c < |bins| ensures Chained(b, bins[c]) { ChainedFrame(a, b, bins[c], {}); }
  }

  /** The nodes after slot `id` was put in front of `list`. */
  function PushFront(nodes: seq<Node>, list: seq<nat>, id: nat, node: Node): (r: seq<Node>)
    requires id < |nodes| && id < UNUSED && (list != [] ==> list[0] < |nodes|)
    ensures |r| == |nodes|
  {
    var n := nodes[id := node];
    if list == [] then n else n[list[0] := n[list[0]].(binListPrev := id)]
  }

  lemma PushFrontChained(nodes: seq<Node>, list: seq<nat>, id: nat, node: Node)
    requires Chained(nodes, list) && NoDup(list) && id !in list
    requires id < |nodes| && id < UNUSED
    requires node.binListPrev == UNUSED && node.binListNext == Head(list)
    ensures list != [] ==> list[0] < |nodes|
    ensures Chained(PushFront(nodes, list, id, node), [id] + list)
  {
    if list != [] { assert Linked(nodes, list, 0); }
    var r, l := PushFront(nodes, list, id, node), [id] + list;
    forall p | 0 <= p < |l| ensures Linked(r, l, p) {
      if p > 0 {
        assert Linked(nodes, list, p - 1);
        assert list[p - 1] in list;
      }
    }
  }

  /** The nodes after the one at place `p` was taken out of `list`. */
  function Unlink(nodes: seq<Node>, list: seq<nat>, p: nat): (r: seq<Node>)
    requires p < |list| && forall q :: 0 <= q < |list| ==> list[q] < |nodes| && list[q] < UNUSED
    ensures |r| == |nodes|
  {
    var prev := if p == 0 then UNUSED else list[p - 1];
    var next := if p + 1 == |list| then UNUSED else list[p + 1];
    var n := if p == 0 then nodes else nodes[list[p - 1] := nodes[list[p - 1]].(binListNext := next)];
    if p + 1 == |list| then n else n[list[p + 1] := n[list[p + 1]].(binListPrev := prev)]
  }

  lemma UnlinkChained(nodes: seq<Node>, list: seq<nat>, p: nat)
    requires Chained(nodes, list) && NoDup(list) && p < |list|
    requires forall q :: 0 <= q < |list| ==> list[q] < |nodes| && list[q] < UNUSED
    ensures Chained(Unlink(nodes, list, p), list[..p] + list[p + 1..])
  {
    var r, l := Unlink(nodes, list, p), list[..p] + list[p + 1..];
    forall q | 0 <= q < |l| ensures Linked(r, l, q) {
      var at := if q < p then q else q + 1;
      assert Linked(nodes, list, at);
      assert p > 0 ==> (list[at] == list[p - 1] <==> at == p - 1);
      assert p + 1 < |list| ==> (list[at] == list[p + 1] <==> at == p + 1);
    }
  }

  lemma {:induction false} RemoveAt(list: seq<nat>, p: nat)
    requires NoDup(list) && p < |list|
    ensures Remove(list, list[p]) == list[..p] + list[p + 1..]
  {
    if p == 0 {
    } else {
      var t := list[1..];
      assert list[0] != list[p];
      assert Remove(list, list[p]) == [list[0]] + Remove(t, list[p]);
      hide Remove;
      RemoveAt(t, p - 1);
      assert t[..p - 1] == list[1..p] && t[p..] == list[p + 1..];
      assert list[..p] == [list[0]] + list[1..p];
    }
  }

  /** Pushing a new slot keeps every free list linked. */
  lemma PushFrontLists(nodes: seq<Node>, bins: seq<seq<nat>>, b: nat, id: nat, node: Node)
    requires AllChained(nodes, bins) && Separate(bins) && b < |bins| && Unlisted(bins, id)
    requires id < |nodes| && id < UNUSED
    requires node.binListPrev == UNUSED && node.binListNext == Head(bins[b])
    ensures bins[b] != [] ==> bins[b][0] < |nodes|
    ensures AllChained(PushFront(nodes, bins[b], id, node), File(bins, b, id))
    ensures Separate(File(bins, b, id))
  {
    PushFrontChained(nodes, bins[b], id, node);
    var r := PushFront(nodes, bins[b], id, node);
    forall c | 0 <= c < |bins| && c != b ensures Chained(r, bins[c]) {
      assert bins[b] != [] ==> bins[b][0] in bins[b];
      ChainedFrame(nodes, r, bins[c], if bins[b] == [] then {id} else {id, bins[b][0]});
    }
  }

  /** Taking a slot out of its bin keeps every free list linked. */
  lemma UnlinkLists(nodes: seq<Node>, bins: seq<seq<nat>>, b: nat, p: nat)
    requires AllChained(nodes, bins) && Separate(bins) && b < |bins| && p < |bins[b]|
    requires forall q :: 0 <= q < |bins[b]| ==> bins[b][q] < |nodes| && bins[b][q] < UNUSED
    ensures Unfile(bins, b, bins[b][p]) == bins[b := bins[b][..p] + bins[b][p + 1..]]
    ensures AllChained(Unlink(nodes, bins[b], p), Unfile(bins, b, bins[b][p]))
    ensures Separate(Unfile(bins, b, bins[b][p]))
    ensures Unlisted(Unfile(bins, b, bins[b][p]), bins[b][p])
  {
    var list := bins[b];
    RemoveAt(list, p);
    RemoveMembers(list, list[p]);
    UnlinkChained(nodes, list, p);
    var r := Unlink(nodes, list, p);
    assert list[p] in list;
    forall c | 0 <= c < |bins| && c != b ensures Chained(r, bins[c]) {
      UnlinkTouches(nodes, list, p);
      ChainedFrame(nodes, r, bins[c], set id | id in list);
    }
  }

  lemma UnlinkTouches(nodes: seq<Node>, list: seq<nat>, p: nat)
    requires p < |list| && forall q :: 0 <= q < |list| ==> list[q] < |nodes| && list[q] < UNUSED
    ensures LinksKept(nodes, Unlink(nodes, list, p), set id | id in list)
    ensures CoresKept(nodes, Unlink(nodes, list, p), {})
  {
    assert p > 0 ==> list[p - 1] in list;
    assert p + 1 < |list| ==> list[p + 1] in list;
  }

  /** Slots are never the null index, so a null head means an empty list. */
  lemma HeadUnused(nodes: seq<Node>, bins: seq<seq<nat>>, binIndices: seq<nat>, b: nat)
    requires AllChained(nodes, bins) && Heads(binIndices, bins) && b < |bins| && |nodes| <= UNUSED
    ensures binIndices[b] == UNUSED <==> bins[b] == []
  {
    if bins[b] != [] { assert Linked(nodes, bins[b], 0); }
  }

  /** What taking out the node at place `p` of bin `b` needs and does. */
  lemma UnlinkReady(nodes: seq<Node>, bins: seq<seq<nat>>, b: nat, p: nat)
    requires AllChained(nodes, bins) && Separate(bins) && b < |bins| && p < |bins[b]| && |nodes| <= UNUSED
    ensures Linked(nodes, bins[b], p)
    ensures forall q :: 0 <= q < |bins[b]| ==> bins[b][q] < |nodes| && bins[b][q] < UNUSED
    ensures var list, id, t := bins[b], bins[b][p], Unlink(nodes, bins[b], p);
      && Unfile(bins, b, id) == bins[b := list[..p] + list[p + 1..]]
      && (p == 0 ==> list[..p] + list[p + 1..] == list[1..])
      && AllChained(t, Unfile(bins, b, id)) && Separate(Unfile(bins, b, id)) && Unlisted(Unfile(bins, b, id), id)
      && CoresKept(nodes, t, {})
  {
    hide Unlink, Separate, Unlisted, CoresKept, LinksKept, Unfile;
    assert Chained(nodes, bins[b]);
    ListedSlots(nodes, bins[b]);
    UnlinkLists(nodes, bins, b, p);
    UnlinkTouches(nodes, bins[b], p);
  }

  lemma ListedSlots(nodes: seq<Node>, list: seq<nat>)
    requires Chained(nodes, list) && |nodes| <= UNUSED
    ensures forall q :: 0 <= q < |list| ==> list[q] < |nodes| && list[q] < UNUSED
  {
    forall q | 0 <= q < |list| ensures list[q] < |nodes| { assert Linked(nodes, list, q); }
  }

  const EMPTY_BINS: seq<seq<nat>> := seq(256, _ => [])

  lemma BlankBins(nodes: seq<Node>, binIndices: seq<nat>, usedBins: seq<nat>)
    requires |binIndices| == 256 && forall b :: 0 <= b < 256 ==> binIndices[b] == UNUSED
    requires |usedBins| == 32 && forall t :: 0 <= t < 32 ==> usedBins[t] == 0
    ensures Separate(EMPTY_BINS) && AllChained(nodes, EMPTY_BINS) && Heads(binIndices, EMPTY_BINS)
    ensures Bitmap.BitsAgree(0, usedBins, EMPTY_BINS)
  {
    forall t, i: nat | 0 <= t < 32 ensures !Bit(usedBins[t], i) { ZeroHasNoBit(usedBins[t]); }
    forall i: nat ensures !Bit(0, i) { BitZeroAt(i); }
  }

  lemma NoneListed(id: nat)
    ensures Unlisted(EMPTY_BINS, id)
  {
  }

  /** All slots spare, slot 0 on top. */
  function FullStack(slots: nat): (s: seq<nat>)
    ensures |s| == slots && forall i :: 0 <= i < slots ==> s[i] == slots - i - 1
  {
    seq(slots, i requires 0 <= i < slots => slots - i - 1)
  }

  lemma InitialParts(size: uint32, slots: nat, stack: seq<nat>)
    requires slots >= 2 && stack == FullStack(slots)
    ensures UintToFloatRoundDown(size) < 256
    ensures var s := Laws.Initial(size, slots);
      && s.total == size && s.slots == slots && s.regions == [Region(0, 0, size, false)]
      && s.bins == File(EMPTY_BINS, UintToFloatRoundDown(size), 0) && s.spare == stack[..slots - 1]
  {
    RoundDownGreatest(size);
    hide UintToFloatRoundDown;
  }

  lemma OneRegion(r: Region)
    requires !r.used
    ensures FreeBytes([r]) == r.size
  {
    assert [r][1..] == [];
    assert Sum([], false) == 0;
    assert Sum([r], false) == r.size + Sum([r][1..], false);
  }

  /** The node of the whole storage, filed as one free region. */
  lemma WholeDescribed(size: uint32, nodes: seq<Node>)
    requires |nodes| > 0 && Core(nodes[0]) == Node(0, size, 0, 0, UNUSED, UNUSED, false)
    ensures var rs := [Region(0, 0, size, false)]; Described(nodes, rs) && FreeBytes(rs) == size
  {
    OneRegion(Region(0, 0, size, false));
    hide FreeBytes;
  }

  /** What filing a node first in bin `b` needs and does. */
  lemma PushReady(nodes: seq<Node>, bins: seq<seq<nat>>, b: nat, id: nat, node: Node)
    requires AllChained(nodes, bins) && Separate(bins) && b < |bins| && Unlisted(bins, id)
    requires id < |nodes| && id < UNUSED
    requires node.binListPrev == UNUSED && node.binListNext == Head(bins[b])
    ensures bins[b] != [] ==> bins[b][0] < |nodes|
    ensures var t := PushFront(nodes, bins[b], id, node);
      && AllChained(t, File(bins, b, id)) && Separate(File(bins, b, id))
      && CoresKept(nodes, t, {id}) && t[id] == node
  {
    hide AllChained, Separate, PushFront, CoresKept;
    PushFrontLists(nodes, bins, b, id, node);
    PushFrontCores(nodes, bins[b], id, node);
  }

  lemma PushFrontCores(nodes: seq<Node>, list: seq<nat>, id: nat, node: Node)
    requires id < |nodes| && id < UNUSED && id !in list && (list != [] ==> list[0] < |nodes|)
    ensures CoresKept(nodes, PushFront(nodes, list, id, node), {id})
    ensures PushFront(nodes, list, id, node)[id] == node
  {
  }

  // ---------- bin search ----------

  lemma LeastBinUnique(bins: seq<seq<nat>>, from: nat, b: nat)
    requires from <= b <= |bins| && (b < |bins| ==> bins[b] != [])
    requires forall i :: from <= i < b ==> bins[i] == []
    ensures LeastBin(bins, from) == b
  {
    var l := LeastBin(bins, from);
    assert l < |bins| ==> bins[l] != [];
  }

  /** The two-level search finds the bin the abstract machine serves from. */
  lemma FindBinLeast(top: nat, usedBins: seq<nat>, bins: seq<seq<nat>>, from: nat)
    requires Bitmap.BitsAgree(top, usedBins, bins) && from <= 240
    ensures var r := Bitmap.FindBin(top, usedBins, from);
      LeastBin(bins, from) == (if r == ALL_ONES then |bins| else r) && (r != ALL_ONES ==> r < |bins|)
  {
    Bitmap.FindBinSpec(top, usedBins, bins, from);
    var r := Bitmap.FindBin(top, usedBins, from);
    LeastBinUnique(bins, from, if r == ALL_ONES then |bins| else r);
  }

  /** The highest marked bin is the greatest non-empty one. */
  lemma HighestBinSpec(top: nat, usedBins: seq<nat>, bins: seq<seq<nat>>)
    requires Bitmap.BitsAgree(top, usedBins, bins)
    ensures top == 0 ==> Laws.GreatestBin(bins) == -1
    ensures top != 0 ==>
      && HighestBit(top) < 32 && usedBins[HighestBit(top)] != 0
      && Laws.GreatestBin(bins) == Or(8 * HighestBit(top), HighestBit(usedBins[HighestBit(top)]))
  {
    if top == 0 {
      ZeroHasNoBit(top);
      Bitmap.ZeroBytes(top, usedBins, bins, 0, 32);
      GreatestBinUnique(bins, -1);
    } else {
      var t := HighestBit(top);
      InWord(top, t);
      var l := HighestBit(usedBins[t]);
      Bitmap.ByteBit(usedBins[t], l);
      Bitmap.LeafBit(usedBins, bins, t, l);
      OrLow(t, l);
      Bitmap.ZeroBytes(top, usedBins, bins, t + 1, 32);
      forall i | 8 * t + l < i < 8 * t + 8 ensures bins[i] == [] {
        Bitmap.LeafBit(usedBins, bins, t, i - 8 * t);
      }
      GreatestBinUnique(bins, 8 * t + l);
    }
  }

  lemma GreatestBinUnique(bins: seq<seq<nat>>, b: int)
    requires -1 <= b < |bins| && (b >= 0 ==> bins[b] != [])
    requires forall i :: b < i < |bins| ==> bins[i] == []
    ensures Laws.GreatestBin(bins) == b
  {
    var g := Laws.GreatestBin(bins);
    assert b >= 0 ==> bins[b] != [];
  }
}
