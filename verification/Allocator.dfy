// The allocator with its arrays, updated in place.  The ghost fields hold the
// abstract machine of Machine.dfy that the arrays represent.
module OffsetAllocator {
  import opened Bits
  import opened Counting
  import opened SmallFloat
  import opened Regions
  import opened Machine
  import opened Layout
  import Bitmap
  import Laws = AllocatorLaws

  const NO_SPACE: uint32 := 0xffff_ffff

  class Allocator {
    const size: uint32
    const maxAllocs: uint32
    var freeStorage: uint32
    var usedBinsTop: uint32
    const usedBins: array<byte>
    const binIndices: array<uint32>
    var nodes: array<Node>
    var freeNodes: array<uint32>
    var freeOffset: uint32

    ghost var regions: seq<Region>
    ghost var bins: seq<seq<nat>>
    ghost var spare: seq<nat>

    ghost function Model(): State
      reads this
    {
      State(size, maxAllocs, regions, bins, spare)
    }

    /** Free lists, bitmap and spare stack are consistent with each other. */
    ghost predicate Lists()
      reads `usedBinsTop, `freeOffset, `bins, `spare, `nodes, `freeNodes
      reads usedBins, binIndices, nodes, freeNodes
    {
      && nodes.Length == freeNodes.Length == maxAllocs <= UNUSED
      && usedBins.Length == 32 && binIndices.Length == 256 && freeNodes != binIndices
      && |bins| == 256
      && Separate(bins)
      && AllChained(nodes[..], bins)
      && Heads(binIndices[..], bins)
      && Bitmap.BitsAgree(usedBinsTop, usedBins[..], bins)
      && Stacked(freeNodes[..], freeOffset, spare)
    }

    ghost predicate Valid()
      reads this, usedBins, binIndices, nodes, freeNodes
    {
      && Lists()
      && Inv(Model())
      && Described(nodes[..], regions)
      && freeStorage == FreeBytes(regions)
    }

    /** Before `list` is filed in an empty bin: set the bin's bits. */
    method MarkBin(binIndex: nat, ghost list: seq<nat>)
      requires usedBins.Length == 32 && binIndices.Length == 256 && binIndex < |bins| == 256 && list != []
      requires Bitmap.BitsAgree(usedBinsTop, usedBins[..], bins)
      requires binIndices[binIndex] == UNUSED <==> bins[binIndex] == []
      modifies this`usedBinsTop, usedBins
      ensures Bitmap.BitsAgree(usedBinsTop, usedBins[..], bins[binIndex := list])
    {
      var topBinIndex, leafBinIndex := binIndex / 8, binIndex % 8;
      if binIndices[binIndex] == UNUSED {
        Bitmap.Mark(usedBinsTop, usedBins[..], bins, binIndex, list);
        Bitmap.MarkFits(usedBinsTop, usedBins[topBinIndex], binIndex);
        ghost var bytes0 := usedBins[..];
        usedBins[topBinIndex] := Or(usedBins[topBinIndex], Pow2(leafBinIndex));
        usedBinsTop := Or(usedBinsTop, Pow2(topBinIndex));
        assert usedBins[..] == bytes0[topBinIndex := usedBins[topBinIndex]];
      } else {
        Bitmap.Keep(usedBinsTop, usedBins[..], bins, binIndex, list);
      }
    }

    /** After the head of bin `binIndex` moved on: clear the bin's bits if it is empty now. */
    method UnmarkBin(binIndex: nat, ghost list: seq<nat>)
      requires usedBins.Length == 32 && binIndices.Length == 256 && binIndex < |bins| == 256 && bins[binIndex] != []
      requires Bitmap.BitsAgree(usedBinsTop, usedBins[..], bins)
      requires binIndices[binIndex] == UNUSED <==> list == []
      modifies this`usedBinsTop, usedBins
      ensures Bitmap.BitsAgree(usedBinsTop, usedBins[..], bins[binIndex := list])
    {
      var topBinIndex, leafBinIndex := binIndex / 8, binIndex % 8;
      if binIndices[binIndex] == UNUSED {
        Bitmap.Clear(usedBinsTop, usedBins[..], bins, binIndex);
        Bitmap.ClearFits(usedBinsTop, usedBins[topBinIndex], binIndex);
        ghost var bytes0 := usedBins[..];
        usedBins[topBinIndex] := And(usedBins[topBinIndex], Not32(Pow2(leafBinIndex)));
        if usedBins[topBinIndex] == 0 {
          usedBinsTop := And(usedBinsTop, Not32(Pow2(topBinIndex)));
        }
        assert usedBins[..] == bytes0[topBinIndex := usedBins[topBinIndex]];
      } else {
        Bitmap.Keep(usedBinsTop, usedBins[..], bins, binIndex, list);
      }
    }

    method PopSpare() returns (nodeIndex: uint32)
      requires Stacked(freeNodes[..], freeOffset, spare) && freeOffset >= 1
      modifies this`freeOffset, this`spare
      ensures Stacked(freeNodes[..], freeOffset, spare)
      ensures nodeIndex == old(spare[freeOffset]) && spare == old(spare[..freeOffset])
    {
      nodeIndex := freeNodes[freeOffset];
      freeOffset := freeOffset - 1;
      spare := spare[..freeOffset + 1];
    }

    /** Write `node` into its slot and let the old head of its list point back to it. */
    method PushNode(nodeIndex: uint32, node: Node, topNodeIndex: uint32, ghost list: seq<nat>)
      requires nodeIndex < nodes.Length <= UNUSED && topNodeIndex == Head(list)
      requires list != [] ==> list[0] < nodes.Length
      modifies nodes
      ensures nodes[..] == PushFront(old(nodes[..]), list, nodeIndex, node)
    {
      nodes[nodeIndex] := node;
      if topNodeIndex != UNUSED {
        nodes[topNodeIndex] := nodes[topNodeIndex].(binListPrev := nodeIndex);
      }
    }

    /** Put `dataOffset, dataSize` into a spare slot and file it in its bin. */
    method InsertNodeIntoBin(dataSize: uint32, dataOffset: uint32) returns (nodeIndex: uint32)
      requires Lists() && freeOffset >= 1
      requires spare[freeOffset] < maxAllocs && Unlisted(bins, spare[freeOffset])
      requires freeStorage + dataSize < WORD
      modifies this`freeStorage, this`usedBinsTop, this`freeOffset, this`bins, this`spare
      modifies usedBins, binIndices, nodes
      ensures Lists()
      ensures nodeIndex == old(spare[freeOffset])
      ensures spare == old(spare[..freeOffset])
      ensures UintToFloatRoundDown(dataSize) < 256 && bins == File(old(bins), UintToFloatRoundDown(dataSize), nodeIndex)
      ensures freeStorage == old(freeStorage) + dataSize
      ensures CoresKept(old(nodes[..]), nodes[..], {nodeIndex})
      ensures Core(nodes[nodeIndex]) == Node(dataOffset, dataSize, 0, 0, UNUSED, UNUSED, false)
    {
      hide Bitmap.BitsAgree, Chained, Linked, UintToFloatRoundDown, Separate, AllChained, CoresKept, PushFront;
      hide Unlisted;
      var binIndex := UintToFloatRoundDown(dataSize);
      RoundDownGreatest(dataSize);
      ghost var list := bins[binIndex];
      ghost var nodes0, heads0 := nodes[..], binIndices[..];
      HeadUnused(nodes0, bins, heads0, binIndex);
      MarkBin(binIndex, [spare[freeOffset]] + list);
      var topNodeIndex := binIndices[binIndex];
      nodeIndex := PopSpare();
      var node := Node(dataOffset, dataSize, UNUSED, topNodeIndex, UNUSED, UNUSED, false);
      PushReady(nodes0, bins, binIndex, nodeIndex, node);
      PushNode(nodeIndex, node, topNodeIndex, list);
      binIndices[binIndex] := nodeIndex;
      freeStorage := freeStorage + dataSize;
      bins := File(bins, binIndex, nodeIndex);
      assert binIndices[..] == heads0[binIndex := nodeIndex];
    }

    /** Make the second node of bin `binIndex` its head. */
    method UnlinkHead(binIndex: nat, nodeIndex: uint32)
      requires Lists() && binIndex < 256 && bins[binIndex] != [] && bins[binIndex][0] == nodeIndex
      modifies this`usedBinsTop, this`bins, usedBins, binIndices, nodes
      ensures Lists()
      ensures bins == Unfile(old(bins), binIndex, nodeIndex)
      ensures Unlisted(bins, nodeIndex)
      ensures CoresKept(old(nodes[..]), nodes[..], {})
    {
      hide Bitmap.BitsAgree, Separate, AllChained, Stacked, CoresKept, Chained, Unlisted, Unfile;
      ghost var list := bins[binIndex];
      ghost var nodes0, heads0 := nodes[..], binIndices[..];
      UnlinkReady(nodes0, bins, binIndex, 0);
      var next := nodes[nodeIndex].binListNext;
      binIndices[binIndex] := next;
      if next != UNUSED {
        nodes[next] := nodes[next].(binListPrev := UNUSED);
      }
      assert nodes[..] == Unlink(nodes0, list, 0);
      UnmarkBin(binIndex, list[1..]);
      bins := Unfile(bins, binIndex, nodeIndex);
      assert binIndices[..] == heads0[binIndex := next];
    }

    /** Take the node at place `p` of bin `b` out of its free list and make its slot spare. */
    method RemoveNodeFromBin(nodeIndex: uint32, ghost b: nat, ghost p: nat)
      requires Lists() && b < 256 && p < |bins[b]| && bins[b][p] == nodeIndex
      requires nodeIndex < maxAllocs && UintToFloatRoundDown(nodes[nodeIndex].dataSize) == b
      requires |spare| < maxAllocs && nodes[nodeIndex].dataSize <= freeStorage
      modifies this`freeStorage, this`usedBinsTop, this`freeOffset, this`bins, this`spare
      modifies usedBins, binIndices, nodes, freeNodes
      ensures Lists()
      ensures bins == Unfile(old(bins), b, nodeIndex)
      ensures Unlisted(bins, nodeIndex)
      ensures spare == old(spare) + [nodeIndex]
      ensures freeStorage == old(freeStorage) - old(nodes[nodeIndex].dataSize)
      ensures CoresKept(old(nodes[..]), nodes[..], {})
    {
      ghost var nodes0 := nodes[..];
      assert Linked(nodes0, bins[b], p);
      ListedSlots(nodes0, bins[b]);
      if nodes[nodeIndex].binListPrev != UNUSED {
        UnlinkInner(nodeIndex, b, p);
      } else {
        UnlinkHead(UintToFloatRoundDown(nodes[nodeIndex].dataSize), nodeIndex);
      }
      assert Core(nodes[..][nodeIndex]) == Core(nodes0[nodeIndex]);
      PushSpare(nodeIndex);
      freeStorage := freeStorage - nodes[nodeIndex].dataSize;
    }

    /** Take a node that is not the head out of its free list. */
    method UnlinkInner(nodeIndex: uint32, ghost b: nat, ghost p: nat)
      requires Lists() && b < 256 && 0 < p < |bins[b]| && bins[b][p] == nodeIndex
      modifies this`bins, nodes
      ensures Lists()
      ensures bins == Unfile(old(bins), b, nodeIndex)
      ensures Unlisted(bins, nodeIndex)
      ensures CoresKept(old(nodes[..]), nodes[..], {})
    {
      hide Bitmap.BitsAgree, Separate, AllChained, Stacked, CoresKept, Chained, Unlisted, Unfile;
      ghost var list := bins[b];
      ghost var nodes0 := nodes[..];
      UnlinkReady(nodes0, bins, b, p);
      var prev, next := nodes[nodeIndex].binListPrev, nodes[nodeIndex].binListNext;
      nodes[prev] := nodes[prev].(binListNext := next);
      if next != UNUSED {
        nodes[next] := nodes[next].(binListPrev := prev);
      }
      assert nodes[..] == Unlink(nodes0, list, p);
      Bitmap.Keep(usedBinsTop, usedBins[..], bins, b, list[..p] + list[p + 1..]);
      bins := Unfile(bins, b, nodeIndex);
    }

    method PushSpare(nodeIndex: uint32)
      requires Lists() && |spare| < maxAllocs
      modifies this`freeOffset, this`spare, freeNodes
      ensures Lists()
      ensures spare == old(spare) + [nodeIndex]
    {
      freeOffset := freeOffset + 1;
      freeNodes[freeOffset] := nodeIndex;
      spare := spare + [nodeIndex];
    }

    /** Pop the head of bin `binIndex` and mark its first `request` bytes used. */
    method TakeHead(binIndex: nat, request: uint32) returns (nodeIndex: uint32, nodeTotalSize: uint32)
      requires Lists() && binIndex < 256 && bins[binIndex] != []
      requires bins[binIndex][0] < maxAllocs && nodes[bins[binIndex][0]].dataSize <= freeStorage
      modifies this`freeStorage, this`usedBinsTop, this`bins, usedBins, binIndices, nodes
      ensures Lists()
      ensures nodeIndex == old(bins[binIndex][0]) && nodeTotalSize == old(nodes[bins[binIndex][0]].dataSize)
      ensures bins == Unfile(old(bins), binIndex, nodeIndex)
      ensures freeStorage == old(freeStorage) - nodeTotalSize
      ensures CoresKept(old(nodes[..]), nodes[..], {nodeIndex})
      ensures Core(nodes[nodeIndex]) == Core(old(nodes[..])[nodeIndex].(dataSize := request, used := true))
    {
      ghost var nodes0 := nodes[..];
      nodeIndex := binIndices[binIndex];
      nodeTotalSize := nodes[nodeIndex].dataSize;
      nodes[nodeIndex] := nodes[nodeIndex].(dataSize := request, used := true);
      ghost var nodes1 := nodes[..];
      AllChainedFrame(nodes0, nodes1, bins);
      UnlinkHead(binIndex, nodeIndex);
      assert Core(nodes[..][nodeIndex]) == Core(nodes1[nodeIndex]);
      freeStorage := freeStorage - nodeTotalSize;
    }

    /** Link a node that has no neighbours yet to the ones given, and them to it. */
    method Link(nodeIndex: uint32, prev: uint32, next: uint32)
      requires nodeIndex < nodes.Length <= UNUSED && prev != nodeIndex && next != nodeIndex
      requires (prev == UNUSED || prev < nodes.Length) && (next == UNUSED || next < nodes.Length)
      requires prev != next || prev == UNUSED
      requires nodes[nodeIndex].neighborPrev == nodes[nodeIndex].neighborNext == UNUSED
      modifies nodes
      ensures var a, b := old(nodes[..]), nodes[..];
        && LinksKept(a, b, {}) && CoresKept(a, b, {nodeIndex, prev, next})
        && Core(b[nodeIndex]) == Core(a[nodeIndex].(neighborPrev := prev, neighborNext := next))
        && (prev != UNUSED ==> Core(b[prev]) == Core(a[prev].(neighborNext := nodeIndex)))
        && (next != UNUSED ==> Core(b[next]) == Core(a[next].(neighborPrev := nodeIndex)))
    {
      if next != UNUSED {
        nodes[nodeIndex] := nodes[nodeIndex].(neighborNext := next);
        nodes[next] := nodes[next].(neighborPrev := nodeIndex);
      }
      if prev != UNUSED {
        nodes[nodeIndex] := nodes[nodeIndex].(neighborPrev := prev);
        nodes[prev] := nodes[prev].(neighborNext := nodeIndex);
      }
    }

    /** File what remains of a node as a free node of its own, its next neighbour. */
    method SplitOff(nodeIndex: uint32, request: uint32, reminderSize: uint32, ghost next: nat)
      requires Lists() && freeOffset >= 1
      requires nodeIndex < maxAllocs && next == nodes[nodeIndex].neighborNext && (next == UNUSED || next < maxAllocs)
      requires spare[freeOffset] < maxAllocs && Unlisted(bins, spare[freeOffset])
      requires nodeIndex != spare[freeOffset] && next != spare[freeOffset] && nodeIndex != next
      requires nodes[nodeIndex].dataOffset + request < WORD && freeStorage + reminderSize < WORD
      modifies this`freeStorage, this`usedBinsTop, this`freeOffset, this`bins, this`spare
      modifies usedBins, binIndices, nodes
      ensures Lists()
      ensures spare == old(spare[..freeOffset])
      ensures UintToFloatRoundDown(reminderSize) < 256
      ensures bins == File(old(bins), UintToFloatRoundDown(reminderSize), old(spare[freeOffset]))
      ensures freeStorage == old(freeStorage) + reminderSize
      ensures var slot, a, b := old(spare[freeOffset]), old(nodes[..]), nodes[..];
        && CoresKept(a, b, {nodeIndex, slot, next})
        && Core(b[nodeIndex]) == Core(a[nodeIndex].(neighborNext := slot))
        && Core(b[slot]) == Node(a[nodeIndex].dataOffset + request, reminderSize, 0, 0, nodeIndex, next, false)
        && (next < maxAllocs ==> Core(b[next]) == Core(a[next].(neighborPrev := slot)))
    {
      hide Separate, AllChained, Heads, Bitmap.BitsAgree, Stacked, Chained, Linked, UintToFloatRoundDown, File;
      hide Unlisted;
      ghost var nodes0 := nodes[..];
      var newNodeIndex := InsertNodeIntoBin(reminderSize, nodes[nodeIndex].dataOffset + request);
      ghost var nodes1 := nodes[..];
      assert Core(nodes1[nodeIndex]) == Core(nodes0[nodeIndex]);
      assert next < maxAllocs ==> Core(nodes1[next]) == Core(nodes0[next]);
      Link(newNodeIndex, nodeIndex, nodes[nodeIndex].neighborNext);
      AllChainedFrame(nodes1, nodes[..], bins);
    }

    /** Serve a request, or report that there is no space for it. */
    method Allocate(request: uint32) returns (offset: uint32, metadata: uint32)
      requires Valid()
      modifies this`freeStorage, this`usedBinsTop, this`freeOffset, this`bins, this`spare, this`regions
      modifies usedBins, binIndices, nodes
      ensures Valid()
      ensures Model() == AllocStep(old(Model()), request).0
      ensures match AllocStep(old(Model()), request).1
        case NoSpace => offset == metadata == 0xffff_ffff
        case Placed(id, at) => metadata == id != 0xffff_ffff && offset == at
    {
      if freeOffset == 0 {
        return NO_SPACE, NO_SPACE;
      }
      var minBinIndex := UintToFloatRoundUp(request);
      RoundUpLeast(request);
      Bitmap.AgreeSound(usedBinsTop, usedBins[..], bins);
      FindBinLeast(usedBinsTop, usedBins[..], bins, minBinIndex);
      var binIndex := Bitmap.FindBin(usedBinsTop, usedBins[..], minBinIndex);
      if binIndex == ALL_ONES {
        return NO_SPACE, NO_SPACE;
      }
      offset, metadata := AllocateFrom(binIndex, request);
    }

    /** Take the first `request` bytes of region `k` of `rs`, the head of its bin, and file the rest. */
    method TakeFirst(binIndex: nat, request: uint32, ghost rs: seq<Region>, ghost k: nat) returns (nodeIndex: uint32)
      requires Lists() && freeOffset >= 1 && binIndex < 256 && bins[binIndex] != []
      requires k < |rs| && NodeTells(nodes[..], rs, k) && rs[k].id == bins[binIndex][0] < maxAllocs
      requires request <= rs[k].size <= freeStorage && End(rs[k]) < WORD
      requires NextId(rs, k) != rs[k].id && (NextId(rs, k) == UNUSED || NextId(rs, k) < maxAllocs)
      requires spare[freeOffset] < maxAllocs && spare[freeOffset] != rs[k].id && spare[freeOffset] != NextId(rs, k)
      requires Unlisted(Unfile(bins, binIndex, rs[k].id), spare[freeOffset])
      modifies this`freeStorage, this`usedBinsTop, this`freeOffset, this`bins, this`spare
      modifies usedBins, binIndices, nodes
      ensures Lists() && nodeIndex == rs[k].id
      ensures freeStorage == old(freeStorage) - request
      ensures request == rs[k].size ==> bins == Unfile(old(bins), binIndex, nodeIndex) && spare == old(spare)
      ensures request < rs[k].size ==>
        && UintToFloatRoundDown(rs[k].size - request) < 256
        && bins == File(Unfile(old(bins), binIndex, nodeIndex), UintToFloatRoundDown(rs[k].size - request),
                        old(spare[freeOffset]))
        && spare == old(spare[..freeOffset])
      ensures TakeCores(old(nodes[..]), nodes[..], rs, k, request, old(spare[freeOffset]))
    {
      hide Separate, AllChained, Heads, Bitmap.BitsAgree, Unfile, File, UintToFloatRoundDown, Unlisted;
      hide Linked, Chained, CoresKept;
      ghost var nodes0, slot := nodes[..], spare[freeOffset];
      var nodeTotalSize;
      nodeIndex, nodeTotalSize := TakeHead(binIndex, request);
      ghost var nodes1 := nodes[..];
      var reminderSize := nodeTotalSize - request;
      CoreFields(nodes0, nodes1, nodeIndex, request);
      if reminderSize > 0 {
        SplitOff(nodeIndex, request, reminderSize, NextId(rs, k));
        SplitCores(nodes0, nodes1, nodes[..], rs, k, request, slot);
      }
    }

    /** The arrays after a request was served from a bin known to be large enough: those of the abstract step. */
    method TakeFrom(binIndex: nat, request: uint32) returns (nodeIndex: uint32)
      requires Valid() && freeOffset > 0 && binIndex == LeastBin(bins, UintToFloatRoundUp(request)) < 256
      modifies this`freeStorage, this`usedBinsTop, this`freeOffset, this`bins, this`spare
      modifies usedBins, binIndices, nodes
      ensures var (t, out) := AllocStep(old(Model()), request);
        && Lists() && nodeIndex < maxAllocs && out == Placed(nodeIndex, nodes[nodeIndex].dataOffset)
        && Inv(t) && t == State(size, maxAllocs, t.regions, bins, spare)
        && Described(nodes[..], t.regions) && freeStorage == FreeBytes(t.regions)
    {
      hide Inv, AllocStep, Carve, Take, HeadIndex, Described, NodeTells, TakeCores, FreeBytes, Unfile, File, LeastBin;
      hide UintToFloatRoundUp;
      hide UintToFloatRoundDown, Separate, AllChained, Heads, Bitmap.BitsAgree, NextId, Unlisted, End, CoresKept;
      hide Chained;
      ghost var s, nodes0 := Model(), nodes[..];
      ghost var k := HeadIndex(s, binIndex);
      assert freeOffset == |spare| - 1;
      hide Stacked, Remainder, Linked, Served;
      TakeReady(nodes0, s, binIndex, request);
      nodeIndex := TakeFirst(binIndex, request, regions, k);
      IsServed(s.bins, s.spare, binIndex, s.regions[k], request, bins, spare);
      TakeEnds(nodes0, nodes[..], s, binIndex, request, bins, spare);
    }

    /** Serve a request from a bin known to be large enough. */
    method AllocateFrom(binIndex: nat, request: uint32) returns (offset: uint32, metadata: uint32)
      requires Valid() && freeOffset > 0 && binIndex == LeastBin(bins, UintToFloatRoundUp(request)) < 256
      modifies this`freeStorage, this`usedBinsTop, this`freeOffset, this`bins, this`spare, this`regions
      modifies usedBins, binIndices, nodes
      ensures Valid()
      ensures AllocStep(old(Model()), request) == (Model(), Placed(metadata, offset))
      ensures metadata < maxAllocs
    {
      ghost var s := Model();
      hide Inv, AllocStep, Described, FreeBytes, LeastBin, UintToFloatRoundUp, Separate, AllChained, Heads;
      hide Bitmap.BitsAgree;
      metadata := TakeFrom(binIndex, request);
      regions := AllocStep(s, request).0.regions;
      offset := nodes[metadata].dataOffset;
    }

    /** Take the free region `gone` out of its bin. */
    method Absorb(nodeIndex: uint32, ghost gone: Region)
      requires Lists() && nodeIndex == gone.id < maxAllocs
      requires BinOf(gone) < 256 && gone.id in bins[BinOf(gone)]
      requires nodes[nodeIndex].dataSize == gone.size
      requires |spare| < maxAllocs && gone.size <= freeStorage
      modifies this`freeStorage, this`usedBinsTop, this`freeOffset, this`bins, this`spare
      modifies usedBins, binIndices, nodes, freeNodes
      ensures Lists()
      ensures bins == UnfileAll(old(bins), [gone])
      ensures spare == old(spare) + [gone.id]
      ensures freeStorage == old(freeStorage) - gone.size
      ensures CoresKept(old(nodes[..]), nodes[..], {})
    {
      ghost var b := BinOf(gone);
      UnfileAllOne(bins, gone);
      ghost var p :| 0 <= p < |bins[b]| && bins[b][p] == gone.id;
      RemoveNodeFromBin(nodeIndex, b, p);
    }

    /** Merge a free neighbour before the node of region `k`. */
    method MergePrev(nodeIndex: uint32, ghost k: nat) returns (offset: uint32, dataSize: uint32)
      requires Valid() && k < |regions| && regions[k].used && nodeIndex == regions[k].id < maxAllocs
      modifies this`freeStorage, this`usedBinsTop, this`freeOffset, this`bins, this`spare
      modifies usedBins, binIndices, nodes, freeNodes
      ensures Lists()
      ensures var lo, gone := MergeFrom(regions, k), PrevGone(regions, k);
        && (forall r :: r in gone ==> BinOf(r) < |old(bins)|)
        && bins == UnfileAll(old(bins), gone)
        && spare == old(spare) + Slots(gone)
        && freeStorage == old(freeStorage) - Sum(gone, false)
        && CoresKept(old(nodes[..]), nodes[..], {nodeIndex})
        && Core(nodes[nodeIndex]) == Core(old(nodes[..])[nodeIndex].(neighborPrev := nodes[nodeIndex].neighborPrev))
        && nodes[nodeIndex].neighborPrev == PrevId(regions, lo)
        && offset == regions[lo].offset && dataSize == regions[k].size + Sum(gone, false)
    {
      hide Separate, AllChained, Heads, Bitmap.BitsAgree, Stacked, Chained, Linked, UintToFloatRoundDown, Inv;
      ghost var s, nodes0 := Model(), nodes[..];
      assert NodeTells(nodes0, regions, k);
      if k > 0 { assert NodeTells(nodes0, regions, k - 1); }
      if !(nodes[nodeIndex].neighborPrev != UNUSED && !nodes[nodes[nodeIndex].neighborPrev].used) {
        offset, dataSize := nodes[nodeIndex].dataOffset, nodes[nodeIndex].dataSize;
      } else {
        var prev := nodes[nodeIndex].neighborPrev;
        AbsorbRoom(s, k, k - 1);
        MergeFits(s, k);
        offset, dataSize := nodes[prev].dataOffset, nodes[nodeIndex].dataSize + nodes[prev].dataSize;
        Absorb(prev, regions[k - 1]);
        ghost var nodes1 := nodes[..];
        assert Core(nodes1[prev]) == Core(nodes0[prev]);
        assert Core(nodes1[nodeIndex]) == Core(nodes0[nodeIndex]);
        nodes[nodeIndex] := nodes[nodeIndex].(neighborPrev := nodes[prev].neighborPrev);
        AllChainedFrame(nodes1, nodes[..], bins);
      }
    }

    /** Merge a free neighbour after the node of region `k` of `rs`, the row before the release. */
    method MergeNext(nodeIndex: uint32, sizeSoFar: uint32, ghost rs: seq<Region>, ghost k: nat)
      returns (dataSize: uint32)
      requires Lists() && k < |rs| && rs[k].used && nodeIndex == rs[k].id < maxAllocs
      requires nodes[nodeIndex].neighborNext == NextId(rs, k)
      requires k + 1 < |rs| ==> rs[k + 1].id != nodeIndex && NodeTells(nodes[..], rs, k + 1)
      requires NextRoom(bins, |spare|, freeStorage, rs, k, sizeSoFar, maxAllocs)
      modifies this`freeStorage, this`usedBinsTop, this`freeOffset, this`bins, this`spare
      modifies usedBins, binIndices, nodes, freeNodes
      ensures Lists()
      ensures bins == UnfileAll(old(bins), NextGone(rs, k))
      ensures spare == old(spare) + Slots(NextGone(rs, k))
      ensures freeStorage == old(freeStorage) - Sum(NextGone(rs, k), false)
      ensures dataSize == sizeSoFar + Sum(NextGone(rs, k), false)
      ensures CoresKept(old(nodes[..]), nodes[..], {nodeIndex})
      ensures nodes[nodeIndex].neighborPrev == old(nodes[nodeIndex].neighborPrev)
      ensures nodes[nodeIndex].neighborNext == NextId(rs, MergeTo(rs, k) - 1)
    {
      hide Separate, AllChained, Heads, Bitmap.BitsAgree, Stacked, Chained, Linked, UintToFloatRoundDown;
      ghost var nodes1 := nodes[..];
      if !(nodes[nodeIndex].neighborNext != UNUSED && !nodes[nodes[nodeIndex].neighborNext].used) {
        dataSize := sizeSoFar;
      } else {
        var next := nodes[nodeIndex].neighborNext;
        assert NextGone(rs, k) == [rs[k + 1]];
        dataSize := sizeSoFar + nodes[next].dataSize;
        Absorb(next, rs[k + 1]);
        ghost var nodes2 := nodes[..];
        assert Core(nodes2[next]) == Core(nodes1[next]);
        assert Core(nodes2[nodeIndex]) == Core(nodes1[nodeIndex]);
        nodes[nodeIndex] := nodes[nodeIndex].(neighborNext := nodes[next].neighborNext);
        AllChainedFrame(nodes2, nodes[..], bins);
      }
    }

    /** Give the merged node its own slot back, file it, and link it to its neighbours. */
    method Refile(nodeIndex: uint32, dataSize: uint32, dataOffset: uint32)
      requires Lists() && nodeIndex < maxAllocs && |spare| < maxAllocs && Unlisted(bins, nodeIndex)
      requires freeStorage + dataSize < WORD
      requires var n := nodes[nodeIndex];
        && (n.neighborPrev == UNUSED || n.neighborPrev < maxAllocs)
        && (n.neighborNext == UNUSED || n.neighborNext < maxAllocs)
        && n.neighborPrev != nodeIndex && n.neighborNext != nodeIndex
        && (n.neighborPrev != n.neighborNext || n.neighborPrev == UNUSED)
      modifies this`freeStorage, this`usedBinsTop, this`freeOffset, this`bins, this`spare
      modifies usedBins, binIndices, nodes, freeNodes
      ensures Lists()
      ensures UintToFloatRoundDown(dataSize) < 256 && bins == File(old(bins), UintToFloatRoundDown(dataSize), nodeIndex)
      ensures spare == old(spare)
      ensures freeStorage == old(freeStorage) + dataSize
      ensures var a, b := old(nodes[..]), nodes[..];
        var prev, next := a[nodeIndex].neighborPrev, a[nodeIndex].neighborNext;
        && CoresKept(a, b, {nodeIndex, prev, next})
        && Core(b[nodeIndex]) == Node(dataOffset, dataSize, 0, 0, prev, next, false)
        && (prev != UNUSED ==> Core(b[prev]) == Core(a[prev].(neighborNext := nodeIndex)))
        && (next != UNUSED ==> Core(b[next]) == Core(a[next].(neighborPrev := nodeIndex)))
    {
      hide Separate, AllChained, Heads, Bitmap.BitsAgree, Chained, Linked, UintToFloatRoundDown, File, Unlisted;
      ghost var nodes0 := nodes[..];
      var neighborNext, neighborPrev := nodes[nodeIndex].neighborNext, nodes[nodeIndex].neighborPrev;
      PushSpare(nodeIndex);
      var combinedNodeIndex := InsertNodeIntoBin(dataSize, dataOffset);
      ghost var nodes1 := nodes[..];
      assert neighborPrev != UNUSED ==> Core(nodes1[neighborPrev]) == Core(nodes0[neighborPrev]);
      assert neighborNext != UNUSED ==> Core(nodes1[neighborNext]) == Core(nodes0[neighborNext]);
      Link(combinedNodeIndex, neighborPrev, neighborNext);
      AllChainedFrame(nodes1, nodes[..], bins);
    }

    /** Merge the free neighbours of the node of region `k` into it. */
    method Unite(nodeIndex: uint32, ghost k: nat) returns (offset: uint32, dataSize: uint32)
      requires Valid() && k < |regions| && regions[k].used && nodeIndex == regions[k].id < maxAllocs
      modifies this`freeStorage, this`usedBinsTop, this`freeOffset, this`bins, this`spare
      modifies usedBins, binIndices, nodes, freeNodes
      ensures Lists() && nodes == old(nodes)
      ensures var gone := Absorbed(regions, k);
        && (forall r :: r in gone ==> BinOf(r) < |old(bins)|)
        && bins == UnfileAll(old(bins), gone)
        && spare == old(spare) + Slots(gone)
        && freeStorage == old(freeStorage) - Sum(gone, false)
      ensures CoresKept(old(nodes[..]), nodes[..], {nodeIndex})
      ensures nodes[nodeIndex].neighborPrev == PrevId(regions, MergeFrom(regions, k))
      ensures nodes[nodeIndex].neighborNext == NextId(regions, MergeTo(regions, k) - 1)
      ensures offset == Merged(regions, k).offset && dataSize == Merged(regions, k).size
    {
      hide Inv, Described, Sum, Slots, UnfileAll, BinOf, Separate, AllChained, Heads, Bitmap.BitsAgree;
      hide Merged, Absorbed, PrevGone, NextGone, MergeFrom, MergeTo, CoresKept, PrevId, NextId, FreeBytes, DistinctIds;
      hide NodeTells, Stacked, Linked, Chained, Unlisted, MergedSize, NextRoom;
      ghost var s, nodes0 := Model(), nodes[..];
      KnownNode(nodes0, regions, k);
      UniteReady(s, k);
      Associate(spare, Slots(PrevGone(regions, k)), Slots(NextGone(regions, k)));
      offset, dataSize := MergePrev(nodeIndex, k);
      ghost var nodes1 := nodes[..];
      NextStillTells(nodes0, nodes1, regions, k);
      dataSize := MergeNext(nodeIndex, dataSize, regions, k);
      CoresKeptTwice(nodes0, nodes1, nodes[..], {nodeIndex});
    }

    /** The arrays after the node of region `k` was merged and filed: those of the abstract step. */
    method FileMerged(nodeIndex: uint32, ghost k: nat)
      requires Valid() && k < |regions| && regions[k].used && nodeIndex == regions[k].id < maxAllocs
      modifies this`freeStorage, this`usedBinsTop, this`freeOffset, this`bins, this`spare
      modifies usedBins, binIndices, nodes, freeNodes
      ensures Lists() && Described(nodes[..], Release(regions, k)) && freeStorage == FreeBytes(Release(regions, k))
      ensures var gone := Absorbed(regions, k);
        && (forall r :: r in gone ==> BinOf(r) < |old(bins)|) && BinOf(Merged(regions, k)) < |old(bins)|
        && bins == File(UnfileAll(old(bins), gone), BinOf(Merged(regions, k)), nodeIndex)
        && spare == old(spare) + Slots(gone)
    {
      hide Inv, Described, Slots, UnfileAll, Separate, AllChained, Heads, Bitmap.BitsAgree, Release, Absorbed;
      hide MergeFrom, MergeTo;
      ghost var s, nodes0 := Model(), nodes[..];
      var offset, dataSize := Unite(nodeIndex, k);
      ghost var nodes1 := nodes[..];
      ReleaseLinks(nodes0, nodes1, s, k);
      ReleaseLists(s, k);
      Refile(nodeIndex, dataSize, offset);
      AfterRefile(nodes0, nodes1, nodes[..], s, k);
      InvTiles(s);
      DescribedRelease(nodes0, nodes[..], s.regions, k);
    }

    /** Release a live block. */
    method Free(metadata: uint32)
      requires Valid() && metadata in Live(Model())
      modifies this`freeStorage, this`usedBinsTop, this`freeOffset, this`bins, this`spare, this`regions
      modifies usedBins, binIndices, nodes, freeNodes
      ensures Valid()
      ensures Model() == FreeStep(old(Model()), metadata)
    {
      hide Inv, Live, FreeStep, Described, FreeBytes, Separate, AllChained, Heads, Bitmap.BitsAgree, Release;
      hide UnfileAll, Slots, BinOf, Merged, Absorbed, IndexOf, File;
      ghost var s := Model();
      ghost var k := IndexOf(regions, metadata);
      FreeReady(s, metadata, k);
      FileMerged(metadata, k);
      FreeModel(s, metadata, k, bins, spare);
      regions := Release(regions, k);
    }

    method ClearBins()
      requires usedBins.Length == 32 && binIndices.Length == 256
      modifies usedBins, binIndices
      ensures forall t :: 0 <= t < 32 ==> usedBins[t] == 0
      ensures forall b :: 0 <= b < 256 ==> binIndices[b] == UNUSED
    {
      for i := 0 to 32
        invariant forall t :: 0 <= t < i ==> usedBins[t] == 0
      {
        usedBins[i] := 0;
      }
      for i := 0 to 256
        invariant forall t :: 0 <= t < 32 ==> usedBins[t] == 0
        invariant forall b :: 0 <= b < i ==> binIndices[b] == UNUSED
      {
        binIndices[i] := UNUSED;
      }
    }

    /** A stack of the slots below `n`, in descending order so that slot 0 pops first. */
    static method NewStack(n: uint32) returns (stack: array<uint32>)
      ensures fresh(stack) && stack[..] == FullStack(n)
    {
      stack := new uint32[n];
      for i := 0 to n
        invariant forall j :: 0 <= j < i ==> stack[j] == n - j - 1
      {
        stack[i] := n - i - 1;
      }
    }

    /** Empty bins, all slots spare. */
    method Blank()
      requires 2 <= maxAllocs <= UNUSED
      requires usedBins.Length == 32 && binIndices.Length == 256
      modifies this, usedBins, binIndices
      ensures fresh(nodes) && fresh(freeNodes) && Lists()
      ensures freeStorage == 0 && bins == EMPTY_BINS
      ensures spare == FullStack(maxAllocs) && freeOffset == maxAllocs - 1
    {
      freeStorage, usedBinsTop, freeOffset := 0, 0, maxAllocs - 1;
      ClearBins();
      nodes := new Node[maxAllocs](_ => Node(0, 0, UNUSED, UNUSED, UNUSED, UNUSED, false));
      freeNodes := NewStack(maxAllocs);
      bins, spare := seq(256, _ => []), freeNodes[..];
      BlankBins(nodes[..], binIndices[..], usedBins[..]);
      assert bins == EMPTY_BINS;
    }

    /** The whole storage filed as one free region, in slot 0. */
    method FileAll()
      requires 2 <= maxAllocs <= UNUSED
      requires usedBins.Length == 32 && binIndices.Length == 256
      modifies this, usedBins, binIndices
      ensures fresh(nodes) && fresh(freeNodes) && Lists()
      ensures UintToFloatRoundDown(size) < 256 && bins == File(EMPTY_BINS, UintToFloatRoundDown(size), 0)
      ensures spare == FullStack(maxAllocs)[..maxAllocs - 1] && freeStorage == size
      ensures Core(nodes[0]) == Node(0, size, 0, 0, UNUSED, UNUSED, false)
    {
      Blank();
      hide FullStack, File, UintToFloatRoundDown, Separate, AllChained, Heads, Bitmap.BitsAgree, Unlisted;
      assert spare[freeOffset] == 0;
      NoneListed(0);
      var nodeIndex := InsertNodeIntoBin(size, 0);
    }

    /** Start over: all storage free, slot 0 in use for it, every other slot spare. */
    method Reset()
      requires 2 <= maxAllocs <= UNUSED
      requires usedBins.Length == 32 && binIndices.Length == 256
      modifies this, usedBins, binIndices
      ensures fresh(nodes) && fresh(freeNodes)
      ensures Valid() && Model() == Laws.Initial(size, maxAllocs)
    {
      FileAll();
      hide Inv, Described, FreeBytes, Separate, AllChained, Heads, Bitmap.BitsAgree, File, UintToFloatRoundDown;
      hide FullStack, Laws.Initial;
      Laws.InitialInv(size, maxAllocs);
      InitialParts(size, maxAllocs, FullStack(maxAllocs));
      WholeDescribed(size, nodes[..]);
      regions := [Region(0, 0, size, false)];
    }

    constructor (size: uint32, maxAllocs: uint32)
      requires 2 <= maxAllocs <= UNUSED
      ensures Valid() && Model() == Laws.Initial(size, maxAllocs)
      ensures fresh(usedBins) && fresh(binIndices) && fresh(nodes) && fresh(freeNodes)
    {
      this.size, this.maxAllocs := size, maxAllocs;
      usedBins, binIndices := new byte[32], new uint32[256];
      nodes, freeNodes := new Node[0], new uint32[0];
      new;
      Reset();
    }

    /** Size of the block in slot `metadata`; 0 for the failed allocation. */
    method AllocationSize(metadata: uint32) returns (r: uint32)
      requires Valid() && (metadata == 0xffff_ffff || metadata in Live(Model()))
      ensures r == if metadata == 0xffff_ffff then 0 else Live(Model())[metadata].size
    {
      if metadata == NO_SPACE { return 0; }
      ghost var s := Model();
      ghost var k := IndexOf(regions, metadata);
      IndexOfMember(regions, Live(s)[metadata]);
      UsedSlot(s, k);
      assert NodeTells(nodes[..], regions, k);
      return nodes[metadata].dataSize;
    }

    /** Free bytes, and the size of the greatest non-empty bin; both 0 when only the reserve slot is left. */
    method StorageReport() returns (totalFreeSpace: uint32, largestFreeRegion: uint32)
      requires Valid()
      ensures (totalFreeSpace, largestFreeRegion) == Laws.Report(Model())
    {
      totalFreeSpace, largestFreeRegion := 0, 0;
      if freeOffset > 0 {
        totalFreeSpace := freeStorage;
        HighestBinSpec(usedBinsTop, usedBins[..], bins);
        if usedBinsTop != 0 {
          var topBinIndex := HighestBit(usedBinsTop);
          var leafBinIndex := HighestBit(usedBins[topBinIndex]);
          largestFreeRegion := FloatToUint(Or(8 * topBinIndex, leafBinIndex));
        }
      }
    }

    /** For every bin its size and the number of regions filed in it. */
    method StorageReportFull() returns (sizes: array<uint32>, counts: array<nat>)
      requires Valid()
      ensures fresh(sizes) && fresh(counts) && sizes.Length == counts.Length == 256
      ensures forall b :: 0 <= b < 256 ==> sizes[b] == FloatToUint(b) && counts[b] == |bins[b]|
    {
      sizes, counts := new uint32[256], new nat[256];
      for i := 0 to 256
        invariant forall b :: 0 <= b < i ==> sizes[b] == FloatToUint(b) && counts[b] == |bins[b]|
      {
        var count := CountBin(i);
        sizes[i], counts[i] := FloatToUint(i), count;
      }
    }

    method CountBin(b: nat) returns (count: nat)
      requires Valid() && b < 256
      ensures count == |bins[b]|
    {
      ghost var list := bins[b];
      assert Chained(nodes[..], list);
      ListedSlots(nodes[..], list);
      count := 0;
      var nodeIndex := binIndices[b];
      assert nodeIndex == Head(list);
      while nodeIndex != UNUSED
        invariant count <= |list| && nodeIndex == if count < |list| then list[count] else UNUSED
        decreases |list| - count
      {
        assert Linked(nodes[..], list, count);
        nodeIndex := nodes[nodeIndex].binListNext;
        count := count + 1;
        if count < |list| { assert Linked(nodes[..], list, count); }
      }
    }
  }
}
