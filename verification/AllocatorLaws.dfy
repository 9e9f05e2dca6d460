// What the allocator promises its clients, proved of the abstract machine for
// every state that satisfies the invariant and for every run.
module AllocatorLaws {
  import opened Bits
  import opened Counting
  import opened Regions
  import opened SmallFloat
  import opened Machine

  // ---------- one step ----------

  /** A request either changes nothing, or adds exactly the block it asked for. */
  lemma AllocKeeps(s: State, size: uint32)
    requires Inv(s)
    ensures var (t, out) := AllocStep(s, size);
      && Inv(t)
      && match out
         case NoSpace => t == s
         case Placed(id, offset) => id !in Live(s) && Live(t) == Live(s)[id := Region(id, offset, size, true)]
  {
    var b := LeastBin(s.bins, UintToFloatRoundUp(size));
    if |s.spare| > 1 && b < |s.bins| {
      HeadFits(s, b, size);
      CarveKeeps(s, b, size);
    }
  }

  ghost predicate Offers(s: State, bytes: nat)
    requires Inv(s)
  {
    exists r :: r in s.regions && !r.used && r.size >= bytes
  }

  lemma FreeRegionIsFiled(s: State, r: Region)
    requires Inv(s) && r in s.regions && !r.used
    ensures BinOf(r) < |s.bins| && r.id in s.bins[BinOf(r)]
    ensures r.size <= s.total
  {
    var k :| 0 <= k < |s.regions| && s.regions[k] == r;
    FreeNotUsed(s.regions, k);
    InRange(s.regions, s.total, k);
  }

  /** A bin at or above `from` is non-empty exactly when some free region is at least that bin's size. */
  lemma LeastBinFinds(s: State, size: uint32)
    requires Inv(s)
    ensures LeastBin(s.bins, UintToFloatRoundUp(size)) < |s.bins|
       <==> Offers(s, BinSize(UintToFloatRoundUp(size)))
  {
    var from := UintToFloatRoundUp(size);
    var b := LeastBin(s.bins, from);
    RoundUpLeast(size);
    if b < |s.bins| {
      var r := s.regions[HeadIndex(s, b)];
      FreeRegionIsFiled(s, r);
      BinFits(size, r.size);
    }
    if Offers(s, BinSize(from)) {
      var r :| r in s.regions && !r.used && r.size >= BinSize(from);
      FreeRegionIsFiled(s, r);
      BinFits(size, r.size);
    }
  }

  /** A request fails exactly when only the reserve slot is left or every free region is
      smaller than the request rounded up to a bin. */
  lemma AllocFailsIff(s: State, size: uint32)
    requires Inv(s)
    ensures AllocStep(s, size).1 == NoSpace
       <==> |s.spare| == 1 || !Offers(s, BinSize(UintToFloatRoundUp(size)))
  {
    LeastBinFinds(s, size);
  }

  /** An eighth of slack in some free region is enough, as long as a slot is left. */
  lemma AllocServesWithSlack(s: State, size: uint32)
    requires Inv(s) && |s.spare| > 1 && Offers(s, size + size / 8)
    ensures AllocStep(s, size).1.Placed?
  {
    RoundUpOverhead(size);
    AllocFailsIff(s, size);
    var r :| r in s.regions && !r.used && r.size >= size + size / 8;
    assert r.size >= BinSize(UintToFloatRoundUp(size));
  }

  // ---------- allocate, then free ----------

  /** Freeing a block as soon as it is allocated restores the regions, the free lists and the spare stack. */
  lemma AllocThenFree(s: State, size: uint32)
    requires Inv(s) && AllocStep(s, size).1.Placed?
    ensures var (t, out) := AllocStep(s, size); Inv(t) && out.id in Live(t) && FreeStep(t, out.id) == s
  {
    var b := LeastBin(s.bins, UintToFloatRoundUp(size));
    HeadFits(s, b, size);
    hide Carve, FreeStep, Inv, Live, LeastBin, UintToFloatRoundUp;
    CarveThenFree(s, b, size);
  }

  lemma CarveThenFree(s: State, b: nat, size: nat)
    requires Inv(s) && |s.spare| > 1 && b < |s.bins| && s.bins[b] != []
    requires size <= s.regions[HeadIndex(s, b)].size
    ensures var t, id := Carve(s, b, size), s.regions[HeadIndex(s, b)].id;
      Inv(t) && id in Live(t) && FreeStep(t, id) == s
  {
    var k, rest, t := HeadIndex(s, b), Rest(s, b, size), Carve(s, b, size);
    var r := s.regions[k];
    CarveKeeps(s, b, size);
    CarveParts(s, b, size);
    InvTiles(s);
    hide Inv, Live, Carve, Take, HeadIndex, FreeStep, Contiguous, DistinctIds, Merged, Absorbed, Release, Unfile;
    hide UnfileAll, File, BinOf, Slots;
    TakeThenRelease(s.regions, k, size, rest.id);
    InvTiles(t);
    IndexOfAt(t.regions, k);
    FreeParts(t, r.id, k);
    var gone := if size == r.size then [] else [rest];
    RestoreBins(s.bins, b, r.id, t.bins, gone);
    RestoreSpare(s.spare, gone);
  }

  lemma IndexOfAt(rs: seq<Region>, k: nat)
    requires DistinctIds(rs) && k < |rs|
    ensures IndexOf(rs, rs[k].id) == k
  {
    assert rs[IndexOf(rs, rs[k].id)].id == rs[k].id;
  }

  lemma RestoreSpare(spare: seq<nat>, gone: seq<Region>)
    requires |spare| > 1 && |gone| <= 1 && (gone != [] ==> gone[0].id == spare[|spare| - 1])
    ensures (if gone == [] then spare else spare[..|spare| - 1]) + Slots(gone) == spare
  {
  }

  lemma TakeThenRelease(rs: seq<Region>, k: nat, size: nat, spare: nat)
    requires Contiguous(rs) && DistinctIds(rs) && k < |rs| && !rs[k].used && size <= rs[k].size
    ensures var t := Take(rs, k, size, spare);
      && k < |t| && t[k].id == rs[k].id && Release(t, k) == rs && Merged(t, k) == rs[k]
      && Absorbed(t, k) == (if size == rs[k].size then [] else [Remainder(rs[k], size, spare)])
  {
    var t := Take(rs, k, size, spare);
    if k > 0 { assert Joint(rs, k); assert t[k - 1] == rs[k - 1]; }
    if k + 1 < |rs| { assert Joint(rs, k + 1); }
  }

  lemma UnfileOne(bins: seq<seq<nat>>, r: Region)
    requires BinOf(r) < |bins|
    ensures UnfileAll(bins, [r]) == Unfile(bins, BinOf(r), r.id)
  {
    assert [r][1..] == [];
  }

  lemma RestoreBins(bins: seq<seq<nat>>, b: nat, id: nat, after: seq<seq<nat>>, rest: seq<Region>)
    requires b < |bins| && bins[b] != [] && bins[b][0] == id && |rest| <= 1
    requires forall r :: r in rest ==> BinOf(r) < |bins|
    requires after == if rest == [] then Unfile(bins, b, id)
                      else File(Unfile(bins, b, id), BinOf(rest[0]), rest[0].id)
    ensures File(UnfileAll(after, rest), b, id) == bins
  {
    assert [id] + bins[b][1..] == bins[b];
    if rest != [] { UnfileOne(after, rest[0]); assert rest == [rest[0]]; }
  }

  // ---------- whole runs ----------

  datatype Op = Alloc(size: uint32) | Free(id: nat)

  /** After construction: one free region, slot 0 in use, the other slots spare with 1 on top. */
  function Initial(total: uint32, slots: nat): State
    requires slots >= 2
  {
    RoundDownGreatest(total);
    State(total, slots, [Region(0, 0, total, false)],
          File(seq(NUM_LEAF_BINS, _ => []), UintToFloatRoundDown(total), 0),
          seq(slots - 1, i requires 0 <= i < slots - 1 => slots - 1 - i))
  }

  lemma InitialInv(total: uint32, slots: nat)
    requires slots >= 2
    ensures Inv(Initial(total, slots)) && Live(Initial(total, slots)) == map[]
  {
    var s := Initial(total, slots);
    var r := Region(0, 0, total, false);
    RoundDownGreatest(total);
    assert ById([r], false) == map[0 := r];
    assert ById([r], true) == map[];
    assert Ids([r]) == {0};
  }

  /** A caller may only free a block that is live. */
  ghost predicate Enabled(s: State, op: Op)
    requires Inv(s)
  {
    op.Free? ==> op.id in Live(s)
  }

  ghost function Step(s: State, op: Op): (t: State)
    requires Inv(s) && Enabled(s, op)
    ensures Inv(t)
  {
    match op
    case Alloc(size) => AllocKeeps(s, size); AllocStep(s, size).0
    case Free(id) => FreeKeeps(s, id); FreeStep(s, id)
  }

  ghost predicate Legal(s: State, ops: seq<Op>)
    requires Inv(s)
    decreases |ops|
  {
    ops == [] || (Enabled(s, ops[0]) && Legal(Step(s, ops[0]), ops[1..]))
  }

  ghost function Run(s: State, ops: seq<Op>): (t: State)
    requires Inv(s) && Legal(s, ops)
    ensures Inv(t)
    decreases |ops|
  {
    if ops == [] then s else Run(Step(s, ops[0]), ops[1..])
  }

  /** How one call changes what the client holds, judged by its outcome alone. */
  ghost function Booked(s: State, op: Op, held: map<nat, Region>): map<nat, Region>
    requires Inv(s) && Enabled(s, op)
  {
    match op
    case Free(id) => held - {id}
    case Alloc(size) =>
      match AllocStep(s, size).1
      case NoSpace => held
      case Placed(id, offset) => held[id := Region(id, offset, size, true)]
  }

  /** The client's own books: what it was given and has not yet returned. */
  ghost function Ledger(s: State, ops: seq<Op>, held: map<nat, Region>): map<nat, Region>
    requires Inv(s) && Legal(s, ops)
    decreases |ops|
  {
    if ops == [] then held else Ledger(Step(s, ops[0]), ops[1..], Booked(s, ops[0], held))
  }

  lemma StepBooked(s: State, op: Op)
    requires Inv(s) && Enabled(s, op)
    ensures Live(Step(s, op)) == Booked(s, op, Live(s))
  {
    match op
    case Alloc(size) => AllocKeeps(s, size);
    case Free(id) => FreeKeeps(s, id);
  }

  /** After any run the allocator's live blocks are the client's books. */
  lemma {:induction false} RunLedger(s: State, ops: seq<Op>)
    requires Inv(s) && Legal(s, ops)
    ensures Live(Run(s, ops)) == Ledger(s, ops, Live(s))
    decreases |ops|
  {
    if ops == [] {
    } else {
      StepBooked(s, ops[0]);
      RunLedger(Step(s, ops[0]), ops[1..]);
    }
  }

  /** Blocks held at the same time lie inside the storage and do not overlap. */
  lemma HeldBlocksDisjoint(total: uint32, slots: nat, ops: seq<Op>, a: nat, b: nat)
    requires slots >= 2
    requires Inv(Initial(total, slots)) && Legal(Initial(total, slots), ops)
    requires var held := Ledger(Initial(total, slots), ops, map[]); a in held && b in held && a != b
    ensures var held := Ledger(Initial(total, slots), ops, map[]);
      && End(held[a]) <= total && End(held[b]) <= total
      && (End(held[a]) <= held[b].offset || End(held[b]) <= held[a].offset)
  {
    hide Inv, Legal, Initial, Ledger, Run, Live, End;
    InitialInv(total, slots);
    RunLedger(Initial(total, slots), ops);
    RunTotal(Initial(total, slots), ops);
    InitialTotal(total, slots);
    LiveDisjoint(Run(Initial(total, slots), ops), a, b);
  }

  lemma InitialTotal(total: uint32, slots: nat)
    requires slots >= 2
    ensures Initial(total, slots).total == total
  {
  }

  lemma LiveDisjoint(s: State, a: nat, b: nat)
    requires Inv(s) && a in Live(s) && b in Live(s) && a != b
    ensures var ra, rb := Live(s)[a], Live(s)[b];
      End(ra) <= s.total && End(rb) <= s.total && (End(ra) <= rb.offset || End(rb) <= ra.offset)
  {
    InvTiles(s);
    ByIdFrom(s.regions, true, a);
    ByIdFrom(s.regions, true, b);
    hide Inv, ById, Ids, DistinctIds, Tiles;
    var ra, rb := Live(s)[a], Live(s)[b];
    IndexOfMember(s.regions, ra);
    IndexOfMember(s.regions, rb);
    var i, j := IndexOf(s.regions, a), IndexOf(s.regions, b);
    if i < j { Disjoint(s.regions, s.total, i, j); } else { Disjoint(s.regions, s.total, j, i); }
  }

  lemma StepTotal(s: State, op: Op)
    requires Inv(s) && Enabled(s, op)
    ensures Step(s, op).total == s.total && Step(s, op).slots == s.slots
  {
  }

  lemma {:induction false} RunTotal(s: State, ops: seq<Op>)
    requires Inv(s) && Legal(s, ops)
    ensures Run(s, ops).total == s.total && Run(s, ops).slots == s.slots
    decreases |ops|
  {
    if ops == [] {
    } else {
      StepTotal(s, ops[0]);
      RunTotal(Step(s, ops[0]), ops[1..]);
    }
  }

  // ---------- coalescing ----------

  /** With nothing live, all storage is one free region again. */
  lemma NothingLive(s: State)
    requires Inv(s) && Live(s) == map[]
    ensures |s.regions| == 1 && s.regions[0] == Region(s.regions[0].id, 0, s.total, false)
  {
    forall k | 0 <= k < |s.regions| ensures !s.regions[k].used {
      FreeNotUsed(s.regions, k);
    }
    AllFree(s.regions);
  }

  lemma AllFree(rs: seq<Region>)
    requires Contiguous(rs) && forall k :: 0 <= k < |rs| ==> !rs[k].used
    ensures |rs| <= 1
  {
    assert |rs| > 1 ==> Joint(rs, 1);
  }

  function Frees(ids: seq<nat>): seq<Op> {
    if ids == [] then [] else [Free(ids[0])] + Frees(ids[1..])
  }

  /** Freeing every live block, in any order, is legal and leaves one free region. */
  lemma {:induction false} Drain(s: State, ids: seq<nat>)
    requires Inv(s) && NoDup(ids) && (forall id :: id in ids <==> id in Live(s))
    ensures Legal(s, Frees(ids))
    ensures var t := Run(s, Frees(ids)); exists id :: t.regions == [Region(id, 0, s.total, false)]
    decreases |ids|
  {
    hide Inv, Live, FreeStep;
    if ids == [] {
      assert Live(s) == map[];
      NothingLive(s);
      assert s.regions == [Region(s.regions[0].id, 0, s.total, false)];
    } else {
      assert ids[0] in ids;
      FreeKeeps(s, ids[0]);
      assert ids == [ids[0]] + ids[1..];
      assert Frees(ids)[1..] == Frees(ids[1..]);
      StepTotal(s, Free(ids[0]));
      Drain(FreeStep(s, ids[0]), ids[1..]);
    }
  }

  // ---------- conservation ----------

  /** Every byte is either live or free. */
  lemma BytesConserved(s: State)
    requires Inv(s)
    ensures Sum(s.regions, true) + Sum(s.regions, false) == s.total
  {
    SumTiling(s.regions);
  }

  lemma {:induction false} IdsSize(rs: seq<Region>)
    requires DistinctIds(rs)
    ensures |Ids(rs)| == |rs|
  {
    if rs == [] {
    } else {
      IdsCons(rs);
      IdsSize(rs[1..]);
    }
  }

  /** Each of the `slots` node slots is spare or describes a region, and none is both. */
  lemma SlotsConserved(s: State, id: nat)
    requires Inv(s) && id < s.slots
    ensures id in s.spare <==> id !in Ids(s.regions)
  {
    var spare := Elems(s.spare);
    NoDupSize(s.spare);
    IdsSize(s.regions);
    assert spare !! Ids(s.regions);
    assert |spare + Ids(s.regions)| == s.slots;
    Crowded(spare + Ids(s.regions), s.slots);
    assert id in spare + Ids(s.regions);
  }

  // ---------- reports ----------

  /** The greatest non-empty bin, or none. */
  function GreatestBin(bins: seq<seq<nat>>): (b: int)
    ensures -1 <= b < |bins|
    ensures b >= 0 ==> bins[b] != []
    ensures forall i :: b < i < |bins| ==> bins[i] == []
  {
    if bins == [] then -1
    else if bins[|bins| - 1] != [] then |bins| - 1
    else GreatestBin(bins[..|bins| - 1])
  }

  ghost function Report(s: State): (nat, nat)
    requires Inv(s)
  {
    if |s.spare| == 1 then (0, 0)
    else
      var b := GreatestBin(s.bins);
      (Sum(s.regions, false), if b >= 0 then FloatToUint(b) else 0)
  }

  lemma GreatestBinBounds(s: State, b: nat)
    requires Inv(s) && b == GreatestBin(s.bins)
    ensures b < 240 && BinSize(b) <= s.regions[HeadIndex(s, b)].size <= s.total
    ensures forall r :: r in s.regions && !r.used ==> r.size < BinSize(b + 1)
  {
    var k := HeadIndex(s, b);
    BinInRange(s, k);
    InRange(s.regions, s.total, k);
    RoundDownGreatest(s.regions[k].size);
    forall r | r in s.regions && !r.used ensures r.size < BinSize(b + 1) {
      FreeRegionIsFiled(s, r);
      RoundDownGreatest(r.size);
      BinSizeLe(BinOf(r) + 1, b + 1);
    }
  }

  /** The largest region reported can be allocated, and no free region is a whole bin larger. */
  lemma ReportHonest(s: State)
    requires Inv(s) && Report(s).1 > 0
    ensures AllocStep(s, Report(s).1).1.Placed?
    ensures Report(s).1 <= Report(s).0
    ensures forall r :: r in s.regions && !r.used ==>
      r.size < BinSize(UintToFloatRoundDown(Report(s).1) + 1)
  {
    hide Inv, AllocStep, HeadIndex, BinSize, FloatToUint, UintToFloatRoundDown, UintToFloatRoundUp, LeastBin;
    var b := GreatestBin(s.bins);
    GreatestBinBounds(s, b);
    BinSizeFits(b);
    RoundExact(b);
    assert s.regions[HeadIndex(s, b)] in s.regions;
    AllocFailsIff(s, BinSize(b));
    MemberBelowSum(s.regions, HeadIndex(s, b));
  }

  function Count(rs: seq<Region>, used: bool): nat {
    if rs == [] then 0 else (if rs[0].used == used then 1 else 0) + Count(rs[1..], used)
  }

  function Lengths(bins: seq<seq<nat>>, n: nat): nat
    requires n <= |bins|
  {
    if n == 0 then 0 else Lengths(bins, n - 1) + |bins[n - 1]|
  }

  ghost function FiledBelow(free: map<nat, Region>, n: nat): set<nat> {
    set id | id in free && BinOf(free[id]) < n
  }

  lemma FiledBelowStep(bins: seq<seq<nat>>, free: map<nat, Region>, n: nat)
    requires Filed(bins, free) && 0 < n <= |bins|
    ensures |FiledBelow(free, n)| == |FiledBelow(free, n - 1)| + |Elems(bins[n - 1])|
  {
    var bin := bins[n - 1];
    var here := Elems(bin);
    var all, less := FiledBelow(free, n), FiledBelow(free, n - 1);
    forall id: nat ensures id in all <==> id in less || id in here {
      assert id in bin <==> id in free && BinOf(free[id]) == n - 1;
    }
    assert all == less + here;
    forall id: nat | id in less ensures id !in here {
      assert id in bin <==> id in free && BinOf(free[id]) == n - 1;
    }
    assert less !! here;
  }

  lemma {:induction false} LengthsBelow(bins: seq<seq<nat>>, free: map<nat, Region>, n: nat)
    requires Filed(bins, free) && n <= |bins|
    ensures Lengths(bins, n) == |FiledBelow(free, n)|
  {
    if n == 0 {
      assert FiledBelow(free, 0) == {};
    } else {
      LengthsBelow(bins, free, n - 1);
      NoDupSize(bins[n - 1]);
      FiledBelowStep(bins, free, n);
    }
  }

  lemma ByIdCons(rs: seq<Region>, used: bool)
    requires rs != [] && DistinctIds(rs)
    ensures DistinctIds(rs[1..])
    ensures rs[0].id !in ById(rs[1..], used)
    ensures ById(rs, used) ==
      if rs[0].used == used then ById(rs[1..], used)[rs[0].id := rs[0]] else ById(rs[1..], used)
  {
    IdsCons(rs);
    ByIdKeys(rs[1..], used);
    assert rs == [rs[0]] + rs[1..];
    OneId(rs[0]);
    JoinById([rs[0]], rs[1..], used);
    OneById(rs[0], used);
    Front(ById(rs[1..], used), rs[0]);
  }

  lemma OneById(r: Region, used: bool)
    ensures ById([r], used) == if r.used == used then map[r.id := r] else map[]
  {
    assert r in [r];
  }

  lemma Front(m: map<nat, Region>, r: Region)
    requires r.id !in m
    ensures map[r.id := r] + m == m[r.id := r] && map[] + m == m
  {
  }

  lemma {:induction false} CountById(rs: seq<Region>, used: bool)
    requires DistinctIds(rs)
    ensures Count(rs, used) == |ById(rs, used)|
  {
    if rs == [] {
      assert ById(rs, used) == map[];
    } else {
      ByIdCons(rs, used);
      CountById(rs[1..], used);
    }
  }

  /** The free lists together hold as many entries as there are free regions. */
  lemma ListsCountFreeRegions(s: State)
    requires Inv(s)
    ensures Lengths(s.bins, |s.bins|) == Count(s.regions, false)
  {
    var free := ById(s.regions, false);
    LengthsBelow(s.bins, free, |s.bins|);
    CountById(s.regions, false);
    assert FiledBelow(free, |s.bins|) == free.Keys;
  }

  // ---------- when slots cannot run out ----------

  lemma {:induction false} CountBoth(rs: seq<Region>)
    ensures Count(rs, true) + Count(rs, false) == |rs|
  {
    if rs == [] {
    } else {
      CountBoth(rs[1..]);
    }
  }

  /** As no two neighbours are both free, there is at most one more free region than used ones. */
  lemma {:induction false} FreeCount(rs: seq<Region>)
    requires Contiguous(rs)
    ensures Count(rs, false) <= Count(rs, true) + if rs != [] && rs[0].used then 0 else 1
  {
    if rs == [] {
    } else {
      assert forall k :: 0 < k < |rs[1..]| && Joint(rs, k + 1) ==> Joint(rs[1..], k);
      FreeCount(rs[1..]);
      if |rs| > 1 { assert Joint(rs, 1); }
    }
  }

  /** A client that holds fewer than half as many blocks as there are slots, two set aside, finds a slot left. */
  lemma SlotsSuffice(s: State)
    requires Inv(s) && 2 * |Live(s)| + 2 < s.slots
    ensures |s.spare| > 1
  {
    CountById(s.regions, true);
    CountBoth(s.regions);
    FreeCount(s.regions);
  }

  /** For such a client, after any legal run, a request fails only because every free region is smaller than the
      request rounded up. */
  lemma RunServes(total: uint32, slots: nat, ops: seq<Op>, size: uint32)
    requires slots >= 2
    requires Inv(Initial(total, slots)) && Legal(Initial(total, slots), ops)
    requires 2 * |Ledger(Initial(total, slots), ops, map[])| + 2 < slots
    ensures var s := Run(Initial(total, slots), ops);
      AllocStep(s, size).1 == NoSpace <==> !Offers(s, BinSize(UintToFloatRoundUp(size)))
  {
    hide Inv, Legal, Ledger, Live, AllocStep, Offers, BinSize, UintToFloatRoundUp;
    InitialInv(total, slots);
    RunLedger(Initial(total, slots), ops);
    RunTotal(Initial(total, slots), ops);
    var s := Run(Initial(total, slots), ops);
    SlotsSuffice(s);
    AllocFailsIff(s, size);
  }

  // ---------- where a block is placed ----------

  /** A block is the front of a free region of the smallest size class that is sure to hold it; what is left of the
      region stays free. */
  lemma AllocPlaces(s: State, size: uint32)
    requires Inv(s) && AllocStep(s, size).1.Placed?
    ensures var (t, out) := AllocStep(s, size);
      exists r :: Serves(s, r, size) && r.id == out.id && r.offset == out.offset
        && (size < r.size ==> HasFree(t, r.offset + size, r.size - size))
  {
    var b := LeastBin(s.bins, UintToFloatRoundUp(size));
    HeadFits(s, b, size);
    var k := HeadIndex(s, b);
    var r := s.regions[k];
    forall q | q in s.regions && !q.used && q.size >= BinSize(UintToFloatRoundUp(size)) ensures b <= BinOf(q) {
      FreeRegionIsFiled(s, q);
      BinFits(size, q.size);
    }
    if size < r.size { RestStays(s, b, size); }
    assert Serves(s, r, size);
  }

  /** No other free region that is sure to hold `size` bytes is of a smaller size class than `r`. */
  ghost predicate Serves(s: State, r: Region, size: nat) {
    && r in s.regions && !r.used && size <= r.size
    && forall q :: q in s.regions && !q.used && q.size >= BinSize(UintToFloatRoundUp(size)) ==> BinOf(r) <= BinOf(q)
  }

  ghost predicate HasFree(s: State, offset: nat, size: nat) {
    exists r :: r in s.regions && !r.used && r.offset == offset && r.size == size
  }

  lemma RestStays(s: State, b: nat, size: nat)
    requires Inv(s) && |s.spare| > 1 && b < |s.bins| && s.bins[b] != []
    requires size < s.regions[HeadIndex(s, b)].size
    ensures var r := s.regions[HeadIndex(s, b)]; HasFree(Carve(s, b, size), r.offset + size, r.size - size)
  {
    var k, t := HeadIndex(s, b), Carve(s, b, size).regions;
    CarveParts(s, b, size);
    assert t[k + 1] == Remainder(s.regions[k], size, Rest(s, b, size).id);
    assert t[k + 1] in t;
  }

  // ---------- what the report says ----------

  ghost function AnyKey(live: map<nat, Region>): (id: nat)
    requires live != map[]
    ensures id in live
  {
    var id :| id in live;
    id
  }

  /** Sizes of the blocks in `live`, added up. */
  ghost function Bytes(live: map<nat, Region>): nat
    decreases |live|
  {
    if live == map[] then 0
    else
      var id := AnyKey(live);
      assert (live - {id}).Keys == live.Keys - {id};
      live[id].size + Bytes(live - {id})
  }

  /** It does not matter which block is counted first. */
  lemma {:induction false} BytesMinus(live: map<nat, Region>, id: nat)
    requires id in live
    ensures Bytes(live) == live[id].size + Bytes(live - {id})
    decreases |live|
  {
    var x := AnyKey(live);
    assert (live - {id}).Keys == live.Keys - {id} && (live - {x}).Keys == live.Keys - {x};
    if x == id {
    } else {
      BytesMinus(live - {x}, id);
      BytesMinus(live - {id}, x);
      assert live - {x} - {id} == live - {id} - {x};
    }
  }

  lemma NoBytes(used: bool)
    ensures Bytes(ById([], used)) == 0
  {
    assert ById([], used) == map[];
  }

  lemma {:induction false} BytesById(rs: seq<Region>, used: bool)
    requires DistinctIds(rs)
    ensures Bytes(ById(rs, used)) == Sum(rs, used)
  {
    hide Bytes;
    if rs == [] {
      NoBytes(used);
    } else {
      ByIdCons(rs, used);
      BytesById(rs[1..], used);
      if rs[0].used == used { BytesPlus(ById(rs[1..], used), rs[0]); }
    }
  }

  lemma BytesPlus(live: map<nat, Region>, r: Region)
    requires r.id !in live
    ensures Bytes(live[r.id := r]) == r.size + Bytes(live)
  {
    BytesMinus(live[r.id := r], r.id);
    assert live[r.id := r] - {r.id} == live;
  }

  /** The reported total is what the live blocks leave of the storage, and 0 when only the reserve slot is left. */
  lemma ReportedTotal(s: State)
    requires Inv(s)
    ensures Report(s).0 == if |s.spare| == 1 then 0 else s.total - Bytes(Live(s))
  {
    BytesConserved(s);
    BytesById(s.regions, true);
  }

  /** Some free region reaches the size of bin `b`, none that of the next bin. */
  ghost predicate Reached(s: State, b: nat) {
    && (exists r :: r in s.regions && !r.used && r.size >= BinSize(b))
    && (forall r :: r in s.regions && !r.used ==> r.size < BinSize(b + 1))
  }

  /** The reported largest region is 0 if only the reserve slot is left or no free region has any bytes; otherwise it
      is the greatest bin size that some free region reaches. */
  lemma ReportedLargest(s: State)
    requires Inv(s)
    ensures Report(s).1 == 0 <==> |s.spare| == 1 || forall r :: r in s.regions && !r.used ==> r.size == 0
    ensures Report(s).1 > 0 ==> exists b :: Report(s).1 == BinSize(b) && Reached(s, b)
  {
    var b := GreatestBin(s.bins);
    if |s.spare| == 1 {
    } else if b < 0 {
      forall r | r in s.regions ensures r.used {
        if !r.used { FreeRegionIsFiled(s, r); }
      }
    } else {
      GreatestBinBounds(s, b);
      BinSizeFits(b);
      var r := s.regions[HeadIndex(s, b)];
      assert r in s.regions && !r.used && r.size >= BinSize(b);
      assert Reached(s, b);
      if b > 0 { BinSizeMonotone(0, b); }
      assert BinSize(0) == 0 && BinSize(1) == 1;
    }
  }

  /** After any legal run the caller's own books give the reported total. */
  lemma RunReport(total: uint32, slots: nat, ops: seq<Op>)
    requires slots >= 2
    requires Inv(Initial(total, slots)) && Legal(Initial(total, slots), ops)
    ensures var s := Run(Initial(total, slots), ops);
      Report(s).0 == if |s.spare| == 1 then 0 else total - Bytes(Ledger(Initial(total, slots), ops, map[]))
  {
    hide Inv, Legal, Initial, Ledger, Run, Live, Report, Bytes;
    InitialInv(total, slots);
    RunLedger(Initial(total, slots), ops);
    RunTotal(Initial(total, slots), ops);
    InitialTotal(total, slots);
    ReportedTotal(Run(Initial(total, slots), ops));
  }
}
